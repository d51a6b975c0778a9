/** The threshold rules of the interface testcase, stated once generically: which
    field a rule reads, how it compares it, and what it records for a failing
    interface; and, as functions, what one pass of a rule over the learned
    interface dictionary produces. */
module ThresholdRules {
  import opened PyBuiltins

  /** One value of learn("interface").info: the `counters` sub-dictionary when the
      record has that key, and the record's other top-level keys. */
  datatype Record = Record(counters: Option<map<string, Value>>, fields: map<string, Value>)

  /** The learned interface dictionary, in its iteration order. */
  type InterfaceDict = seq<(string, Record)>

  /** Python dict keys are unique. */
  predicate DistinctNames(info: InterfaceDict) {
    forall i, j :: 0 <= i < j < |info| ==> info[i].0 != info[j].0
  }

  /** Where a rule finds its field: in the record's `counters` dict, or at its top level. */
  datatype Location = InCounters | TopLevel

  /** How a rule compares: int(value) > limit fails, or value != expected fails. */
  datatype Comparison = GreaterThan(limit: int) | NotEqualTo(expected: string)

  /** What a failing interface is recorded with: int(value), or the value as read. */
  datatype Storage = AsInt | AsRead

  datatype Rule = Rule(
    field: string,
    location: Location,
    comparison: Comparison,
    storage: Storage,
    failMessage: string,
    passMessage: string)

  const InputErrors := Rule("in_errors", InCounters, GreaterThan(0), AsInt,
    "Some interfaces have input errors", "No interfaces have input errors")
  const InputCrcErrors := Rule("in_crc_errors", InCounters, GreaterThan(0), AsInt,
    "Some interfaces have input CRC errors", "No interfaces have input CRC errors")
  const OutputErrors := Rule("out_errors", InCounters, GreaterThan(0), AsInt,
    "Some interfaces have output lost carrier errors", "No interfaces have output lost carrier errors")
  const FullDuplex := Rule("duplex_mode", TopLevel, NotEqualTo("full"), AsInt,
    "Some interfaces are half duplex", "All interfaces are full duplex")
  const OperStatus := Rule("oper_status", TopLevel, NotEqualTo("up"), AsRead,
    "Some interfaces are operationally down", "All interfaces are operationally up")

  /** The five threshold test sections, in the order the testcase declares them. */
  const Sections := [InputErrors, InputCrcErrors, OutputErrors, FullDuplex, OperStatus]

  predicate IsCounterRule(rule: Rule) {
    rule == InputErrors || rule == InputCrcErrors || rule == OutputErrors
  }

  /** str() of the rule's threshold, as shown in the table's threshold column. */
  function ThresholdText(rule: Rule): string {
    match rule.comparison
    case GreaterThan(limit) => Str(IntV(limit))
    case NotEqualTo(expected) => expected
  }

  datatype Verdict = Passed | Failed

  /** One table row: device alias, interface, threshold, str(value), Passed/Failed. */
  datatype Row = Row(device: string, interface: string, threshold: string, observed: string, verdict: Verdict)

  function MakeRow(rule: Rule, alias: string, name: string, v: Value, verdict: Verdict): Row {
    Row(alias, name, ThresholdText(rule), Str(v), verdict)
  }

  /** The membership test and subscript that find the rule's field: Ok(None) when
      the field is absent; `value['counters']` raises KeyError when a counter rule
      meets a record without counters. */
  function Lookup(rule: Rule, rec: Record): Result<Option<Value>> {
    match rule.location
    case InCounters =>
      if rec.counters.None? then Err(KeyError("counters"))
      else if rule.field in rec.counters.value then Ok(Some(rec.counters.value[rule.field]))
      else Ok(None)
    case TopLevel =>
      if rule.field in rec.fields then Ok(Some(rec.fields[rule.field])) else Ok(None)
  }

  /** The rule's comparison of a found value against its threshold. A string is
      never equal to an integer, so an integer value fails a NotEqualTo rule. */
  function Exceeds(rule: Rule, v: Value): Result<bool> {
    match rule.comparison
    case GreaterThan(limit) =>
      (match IntOf(v)
       case Ok(n) => Ok(n > limit)
       case Err(e) => Err(e))
    case NotEqualTo(expected) => Ok(v != StrV(expected))
  }

  /** The value stored in failed_interfaces for a failing interface. */
  function StoredValue(rule: Rule, v: Value): Result<Value> {
    match rule.storage
    case AsInt =>
      (match IntOf(v)
       case Ok(n) => Ok(IntV(n))
       case Err(e) => Err(e))
    case AsRead => Ok(v)
  }

  /** What a rule does with one interface record. */
  datatype Classification =
    | Skip                                          // the field is absent: no row, no entry
    | Pass(observed: Value)                         // a Passed row
    | Fail(observed: Value, stored: Value)          // a Failed row and an entry
    | Raise(error: Error, failedRow: Option<Value>) // an exception, after a Failed row if failedRow is set

  function Classify(rule: Rule, rec: Record): Classification {
    match Lookup(rule, rec)
    case Err(e) => Raise(e, None)
    case Ok(None) => Skip
    case Ok(Some(v)) =>
      match Exceeds(rule, v)
      case Err(e) => Raise(e, None)
      case Ok(false) => Pass(v)
      case Ok(true) =>
        match StoredValue(rule, v)
        case Err(e) => Raise(e, Some(v))
        case Ok(s) => Fail(v, s)
  }

  predicate IsChecked(rule: Rule, rec: Record) {
    Classify(rule, rec).Pass? || Classify(rule, rec).Fail?
  }

  /** The testcase's instance fields that a rule writes: failed_interfaces, intf,
      interface_name and error_counter (None while Python has not set them). */
  datatype Snapshot = Snapshot(
    failed: map<string, Value>,
    intf: Option<string>,
    interfaceName: Option<string>,
    errorCounter: Option<Value>)

  /** A rule's pass in progress: the instance fields, the table rows so far, and the
      exception once one has been raised. */
  datatype Progress = Progress(snap: Snapshot, rows: seq<Row>, raised: Option<Error>)

  /** The state before the loop: failed_interfaces reset, an empty table. */
  function Start(before: Snapshot): (p: Progress)
    ensures p.snap.failed == map[] && p.rows == [] && p.raised == None
    ensures p.snap.(failed := before.failed) == before
  {
    Progress(before.(failed := map[]), [], None)
  }

  /** One iteration of the loop over the interface dictionary; after an exception
      the loop runs no more. */
  function Step(rule: Rule, alias: string, p: Progress, entry: (string, Record)): Progress {
    if p.raised.Some? then p
    else
      var name := entry.0;
      var q := p.(snap := p.snap.(intf := Some(name)));
      match Classify(rule, entry.1)
      case Skip => q
      case Pass(v) => q.(rows := q.rows + [MakeRow(rule, alias, name, v, Passed)])
      case Fail(v, s) =>
        q.(rows := q.rows + [MakeRow(rule, alias, name, v, Failed)],
           snap := q.snap.(failed := q.snap.failed[name := s], interfaceName := Some(name), errorCounter := Some(s)))
      case Raise(e, row) =>
        q.(rows := q.rows + (if row.Some? then [MakeRow(rule, alias, name, row.value, Failed)] else []),
           raised := Some(e))
  }

  /** The loop over a prefix of the dictionary, from `init`. */
  function Scan(rule: Rule, alias: string, info: InterfaceDict, init: Progress): Progress {
    if info == [] then init
    else Step(rule, alias, Scan(rule, alias, info[..|info| - 1], init), info[|info| - 1])
  }

  /** A whole rule: reset, then the loop over the learned dictionary. */
  function Run(rule: Rule, alias: string, info: InterfaceDict, before: Snapshot): Progress {
    Scan(rule, alias, info, Start(before))
  }

  /** Rules run one after another on the same testcase: each starts from the
      instance fields the one before it left, and ps[i] is the pass of rules[i]. */
  function RunSequence(rules: seq<Rule>, alias: string, info: InterfaceDict, before: Snapshot): (ps: seq<Progress>)
    ensures |ps| == |rules|
    ensures |rules| > 0 ==> ps[0] == Run(rules[0], alias, info, before)
    ensures forall i :: 0 < i < |rules| ==> ps[i] == Run(rules[i], alias, info, ps[i - 1].snap)
    decreases |rules|
  {
    if rules == [] then []
    else
      var p := Run(rules[0], alias, info, before);
      var rest := RunSequence(rules[1..], alias, info, p.snap);
      assert forall i :: 1 < i < |rules| ==> rules[i] == rules[1..][i - 1];
      [p] + rest
  }

  /** The instance fields after a sequence of rules. */
  function FieldsAfter(rules: seq<Rule>, alias: string, info: InterfaceDict, before: Snapshot): Snapshot {
    var ps := RunSequence(rules, alias, info, before);
    if ps == [] then before else ps[|ps| - 1].snap
  }

  /** The pyATS result of a rule: errored on an exception, otherwise failed iff
      failed_interfaces is non-empty, with the rule's message. */
  datatype TestResult = PassedWith(message: string) | FailedWith(message: string) | Errored(error: Error)

  function Conclude(rule: Rule, p: Progress): TestResult {
    if p.raised.Some? then Errored(p.raised.value)
    else if p.snap.failed != map[] then FailedWith(rule.failMessage)
    else PassedWith(rule.passMessage)
  }

  /** The result of a rule on a dataset; it does not depend on the fields left by
      earlier rules (RuleProperties.RunIgnoresEarlierRules). */
  function RuleResult(rule: Rule, alias: string, info: InterfaceDict): TestResult {
    Conclude(rule, Run(rule, alias, info, Snapshot(map[], None, None, None)))
  }
}
