/** The small part of Python the interface checks rely on: the values found in a
    learned interface record, the exceptions a rule can raise, and the builtins
    int() and str() on those values. */
module PyBuiltins {

  datatype Option<T> = None | Some(value: T)

  /** A scalar found in a learned interface record. The learn step stores counters
      as integers and states such as duplex mode or operational status as strings. */
  datatype Value = IntV(i: int) | StrV(s: string)

  /** The exceptions a rule can raise while it walks the interfaces. */
  datatype Error =
    | KeyError(key: string)         // subscript of a key the dict does not have
    | ValueError(literal: string)   // int() of a string that is no base-10 literal

  datatype Result<T> = Ok(value: T) | Err(error: Error)

  predicate IsDigit(c: char) { '0' <= c <= '9' }

  /** The ASCII characters int() ignores around its argument. */
  predicate IsSpace(c: char) {
    c == ' ' || c == '\t' || c == '\n' || c == '\r' || c == '\U{0B}' || c == '\U{0C}'
  }

  predicate HasDigit(s: string) {
    exists k :: 0 <= k < |s| && IsDigit(s[k])
  }

  /** s without its leading white space: a suffix of s that starts with no space. */
  function StripLeft(s: string): (r: string)
    ensures |r| <= |s| && r == s[|s| - |r|..]
    ensures forall k :: 0 <= k < |s| - |r| ==> IsSpace(s[k])
    ensures r == [] || !IsSpace(r[0])
    ensures s == [] || !IsSpace(s[0]) ==> r == s
  {
    if s != [] && IsSpace(s[0]) then
      var r := StripLeft(s[1..]);
      assert s[1..][|s| - 1 - |r|..] == s[|s| - |r|..];
      assert forall k :: 1 <= k < |s| ==> s[k] == s[1..][k - 1];
      r
    else s
  }

  /** s without its trailing white space: a prefix of s that ends with no space. */
  function StripRight(s: string): (r: string)
    ensures |r| <= |s| && r == s[..|r|]
    ensures forall k :: |r| <= k < |s| ==> IsSpace(s[k])
    ensures r == [] || !IsSpace(r[|r| - 1])
    ensures s == [] || !IsSpace(s[|s| - 1]) ==> r == s
  {
    if s != [] && IsSpace(s[|s| - 1]) then
      var r := StripRight(s[..|s| - 1]);
      assert s[..|s| - 1][..|r|] == s[..|r|];
      assert forall k :: 0 <= k < |s| - 1 ==> s[k] == s[..|s| - 1][k];
      r
    else s
  }

  function Strip(s: string): string {
    StripRight(StripLeft(s))
  }

  /** The digit part of a base-10 literal: digits, where a single underscore may
      stand between two digits ("1_000"), but not at either end nor doubled. */
  predicate IsDigitPart(d: string) {
    && |d| > 0
    && IsDigit(d[0])
    && IsDigit(d[|d| - 1])
    && (forall k :: 0 <= k < |d| ==> IsDigit(d[k]) || d[k] == '_')
    && (forall k :: 0 <= k < |d| - 1 ==> d[k] == '_' ==> d[k + 1] != '_')
  }

  /** The number a run of digits and underscores denotes, ignoring the underscores. */
  function DigitPartValue(d: string): nat
    requires forall k :: 0 <= k < |d| ==> IsDigit(d[k]) || d[k] == '_'
  {
    if d == [] then 0
    else if d[|d| - 1] == '_' then DigitPartValue(d[..|d| - 1])
    else
      assert IsDigit(d[|d| - 1]);
      10 * DigitPartValue(d[..|d| - 1]) + (d[|d| - 1] as int - '0' as int)
  }

  /** int(s) for a string s: white space around it, an optional sign, then a digit
      part; anything else raises ValueError naming s. */
  function ParseIntLiteral(s: string): (r: Result<int>)
    ensures r.Err? ==> r.error == ValueError(s)
  {
    ParseStripped(s, Strip(s))
  }

  /** The rest of int(s) once its white space is stripped to t: an optional sign,
      then a digit part. */
  function ParseStripped(s: string, t: string): (r: Result<int>)
    ensures r.Err? ==> r.error == ValueError(s)
  {
    var signed := |t| > 0 && (t[0] == '-' || t[0] == '+');
    var digits := if signed then t[1..] else t;
    if IsDigitPart(digits) then
      var n: int := DigitPartValue(digits);
      Ok(if signed && t[0] == '-' then -n else n)
    else
      Err(ValueError(s))
  }

  predicate AllSpace(s: string) {
    forall k :: 0 <= k < |s| ==> IsSpace(s[k])
  }

  /** s is a base-10 literal laid out as white space s[..i], an optional sign
      s[i..j], a digit part s[j..k] and white space s[k..]. */
  predicate LiteralAt(s: string, i: nat, j: nat, k: nat) {
    && i <= j <= k <= |s|
    && AllSpace(s[..i]) && AllSpace(s[k..])
    && (j == i || (j == i + 1 && (s[i] == '+' || s[i] == '-')))
    && IsDigitPart(s[j..k])
  }

  /** The integer such a literal denotes. */
  function LiteralValue(s: string, i: nat, j: nat, k: nat): int
    requires LiteralAt(s, i, j, k)
  {
    var n: int := DigitPartValue(s[j..k]);
    if j == i + 1 && s[i] == '-' then -n else n
  }

  /** Skipping an all-space prefix that is followed by a non-space character. */
  lemma {:induction false} StripLeftSkips(s: string, i: nat)
    requires i <= |s| && AllSpace(s[..i])
    requires i < |s| ==> !IsSpace(s[i])
    ensures StripLeft(s) == s[i..]
  {
    if i > 0 {
      assert IsSpace(s[..i][0]);
      assert s[1..][..i - 1] == s[1..i];
      StripLeftSkips(s[1..], i - 1);
      assert s[1..][i - 1..] == s[i..];
    }
  }

  /** Dropping an all-space suffix that is preceded by a non-space character. */
  lemma {:induction false} StripRightSkips(s: string, k: nat)
    requires k <= |s| && AllSpace(s[k..])
    requires 0 < k ==> !IsSpace(s[k - 1])
    ensures StripRight(s) == s[..k]
  {
    if k < |s| {
      var n := |s| - 1;
      assert IsSpace(s[k..][n - k]);
      assert s[..n][k..] == s[k..n];
      StripRightSkips(s[..n], k);
      assert s[..n][..k] == s[..k];
    }
  }

  /** The text int() keeps after stripping is s[i..k], with only white space around it. */
  lemma StripBounds(s: string) returns (i: nat, k: nat)
    ensures i <= k <= |s| && Strip(s) == s[i..k]
    ensures AllSpace(s[..i]) && AllSpace(s[k..])
  {
    var u := StripLeft(s);
    var t := StripRight(u);
    i := |s| - |u|;
    k := i + |t|;
    assert u == s[i..];
    assert t == u[..|t|];
    assert s[i..][..|t|] == s[i..k];
    forall m | 0 <= m < i
      ensures IsSpace(s[..i][m])
    {
      assert s[..i][m] == s[m];
    }
    forall m | 0 <= m < |s| - k
      ensures IsSpace(s[k..][m])
    {
      assert IsSpace(u[|t| + m]);
      assert s[k..][m] == u[|t| + m];
    }
  }

  /** A string int() accepts is laid out as a literal. */
  lemma ParsedIsLiteral(s: string) returns (i: nat, j: nat, k: nat)
    requires ParseIntLiteral(s).Ok?
    ensures LiteralAt(s, i, j, k)
  {
    i, k := StripBounds(s);
    var t := Strip(s);
    var signed := |t| > 0 && (t[0] == '-' || t[0] == '+');
    j := if signed then i + 1 else i;
    assert (if signed then t[1..] else t) == s[j..k];
  }

  /** int() accepts exactly the strings laid out as a literal, and then returns the
      integer the literal denotes. */
  lemma IntLiteralParse(s: string)
    ensures ParseIntLiteral(s).Ok? <==> exists i: nat, j: nat, k: nat :: LiteralAt(s, i, j, k)
    ensures forall i: nat, j: nat, k: nat :: LiteralAt(s, i, j, k) ==> ParseIntLiteral(s) == Ok(LiteralValue(s, i, j, k))
  {
    if ParseIntLiteral(s).Ok? {
      var i, j, k := ParsedIsLiteral(s);
    }
    forall i: nat, j: nat, k: nat | LiteralAt(s, i, j, k)
      ensures ParseIntLiteral(s) == Ok(LiteralValue(s, i, j, k))
    {
      LiteralParses(s, i, j, k);
    }
  }

  /** A literal starts and ends with a character that is no white space. */
  lemma LiteralEnds(s: string, i: nat, j: nat, k: nat)
    requires LiteralAt(s, i, j, k)
    ensures i < k && !IsSpace(s[i]) && !IsSpace(s[k - 1])
  {
    var d := s[j..k];
    assert d[0] == s[j] && d[|d| - 1] == s[k - 1];
    assert !IsSpace(s[i]) by {
      if j == i { assert IsDigit(d[0]); }
    }
    assert !IsSpace(s[k - 1]) by { assert IsDigit(d[|d| - 1]); }
  }

  lemma StripRightOfSuffix(s: string, i: nat, k: nat)
    requires i < k <= |s| && AllSpace(s[k..]) && !IsSpace(s[k - 1])
    ensures StripRight(s[i..]) == s[i..k]
  {
    var u := s[i..];
    assert u[k - i..] == s[k..];
    StripRightSkips(u, k - i);
  }

  /** The white space int() strips around a literal is exactly s[..i] and s[k..]. */
  lemma StripLiteral(s: string, i: nat, j: nat, k: nat)
    requires LiteralAt(s, i, j, k)
    ensures Strip(s) == s[i..k]
  {
    LiteralEnds(s, i, j, k);
    StripLeftSkips(s, i);
    StripRightOfSuffix(s, i, k);
  }

  lemma LiteralParses(s: string, i: nat, j: nat, k: nat)
    requires LiteralAt(s, i, j, k)
    ensures ParseIntLiteral(s) == Ok(LiteralValue(s, i, j, k))
  {
    StripLiteral(s, i, j, k);
    StrippedLiteral(s, i, j, k);
  }

  lemma StrippedLiteral(s: string, i: nat, j: nat, k: nat)
    requires LiteralAt(s, i, j, k)
    ensures ParseStripped(s, s[i..k]) == Ok(LiteralValue(s, i, j, k))
  {
    var d := s[j..k];
    var t := s[i..k];
    assert t[0] == s[i];
    if j == i {
      assert IsDigit(d[0]);
      assert t == d;
    } else {
      assert t[1..] == d;
    }
  }

  /** Python's int(v): an integer is returned as it is, a string is parsed. */
  function IntOf(v: Value): Result<int> {
    match v
    case IntV(n) => Ok(n)
    case StrV(s) => ParseIntLiteral(s)
  }

  function DigitChar(d: nat): (c: char)
    requires d < 10
    ensures IsDigit(c) && c as int - '0' as int == d
  {
    ('0' as int + d) as char
  }

  /** The decimal digits of n, most significant first, without leading zeros. */
  function NatToDecimal(n: nat): (r: string)
    ensures |r| > 0 && forall k :: 0 <= k < |r| ==> IsDigit(r[k])
    ensures r[0] == '0' ==> n == 0
  {
    if n < 10 then [DigitChar(n)] else NatToDecimal(n / 10) + [DigitChar(n % 10)]
  }

  function IntToDecimal(n: int): string {
    if n < 0 then "-" + NatToDecimal(-n) else NatToDecimal(n)
  }

  /** Python's str(v). */
  function Str(v: Value): string {
    match v
    case IntV(n) => IntToDecimal(n)
    case StrV(s) => s
  }

  lemma {:induction false} NatToDecimalValue(n: nat)
    ensures DigitPartValue(NatToDecimal(n)) == n
  {
    if n >= 10 {
      var d := NatToDecimal(n);
      assert d == NatToDecimal(n / 10) + [DigitChar(n % 10)];
      assert d[..|d| - 1] == NatToDecimal(n / 10);
      NatToDecimalValue(n / 10);
    }
  }

  /** The text str() gives an integer has no white space to strip. */
  lemma StripDecimal(n: int)
    ensures Strip(IntToDecimal(n)) == IntToDecimal(n)
  {
    var s := IntToDecimal(n);
    assert !IsSpace(s[0]) && !IsSpace(s[|s| - 1]);
    assert StripLeft(s) == s;
  }

  lemma DecimalIsDigitPart(n: nat)
    ensures IsDigitPart(NatToDecimal(n))
  {
    var d := NatToDecimal(n);
    assert IsDigit(d[0]) && IsDigit(d[|d| - 1]);
  }

  /** int(str(n)) == n: the text a counter is shown with in a table row reads back
      as the same integer. */
  lemma {:induction false} IntOfStrRoundTrip(n: int)
    ensures IntOf(StrV(Str(IntV(n)))) == Ok(n)
  {
    var s := IntToDecimal(n);
    var m: nat := if n < 0 then -n else n;
    var d := NatToDecimal(m);
    StripDecimal(n);
    DecimalIsDigitPart(m);
    NatToDecimalValue(m);
    if n < 0 {
      assert s[0] == '-' && s[1..] == d;
    } else {
      assert s[0] != '-' && s[0] != '+';
    }
  }

  /** A string with no decimal digit in it, such as "half" or "full", is no integer:
      int() raises ValueError on it. */
  lemma IntOfNeedsDigit(s: string)
    requires !HasDigit(s)
    ensures IntOf(StrV(s)) == Err(ValueError(s))
  {
    var i, k := StripBounds(s);
    forall m | 0 <= m < |s[i..k]|
      ensures !IsDigit(s[i..k][m])
    {
      assert s[i..k][m] == s[i + m];
    }
    StrippedWithoutDigit(s, s[i..k]);
  }

  lemma StrippedWithoutDigit(s: string, t: string)
    requires forall m :: 0 <= m < |t| ==> !IsDigit(t[m])
    ensures ParseStripped(s, t) == Err(ValueError(s))
  {
    if |t| > 1 {
      assert t[1..][0] == t[1];
    }
  }
}
