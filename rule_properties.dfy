/** What one pass of a threshold rule produces, stated interface by interface:
    which interfaces end up in failed_interfaces and with what value, which rows
    the table gets and in what order, when the rule raises, which interface the
    fields interface_name and error_counter name afterwards, and the verdict. */
module RuleProperties {
  import opened PyBuiltins
  import opened ThresholdRules

  predicate RaisesAt(rule: Rule, info: InterfaceDict, j: int)
    requires 0 <= j < |info|
  {
    Classify(rule, info[j].1).Raise?
  }

  predicate FailsAt(rule: Rule, info: InterfaceDict, j: int)
    requires 0 <= j < |info|
  {
    Classify(rule, info[j].1).Fail?
  }

  predicate NoneRaises(rule: Rule, info: InterfaceDict) {
    forall j :: 0 <= j < |info| ==> !Classify(rule, info[j].1).Raise?
  }

  /** The positions, in iteration order, of the interfaces that have the rule's
      field and do not raise: the interfaces that get a table row. */
  function CheckedIndices(rule: Rule, info: InterfaceDict): (idx: seq<nat>)
    ensures forall i :: 0 <= i < |idx| ==> idx[i] < |info| && IsChecked(rule, info[idx[i]].1)
    ensures forall i, i' :: 0 <= i < i' < |idx| ==> idx[i] < idx[i']
    ensures forall j :: 0 <= j < |info| && IsChecked(rule, info[j].1) ==> j in idx
  {
    if info == [] then []
    else
      var n := |info| - 1;
      var prev := CheckedIndices(rule, info[..n]);
      assert forall j :: 0 <= j < n ==> info[..n][j] == info[j];
      if IsChecked(rule, info[n].1) then prev + [n] else prev
  }

  /** With no interface checked, the table has no row to come from. */
  lemma {:induction false} NothingChecked(rule: Rule, info: InterfaceDict)
    requires forall j :: 0 <= j < |info| ==> !IsChecked(rule, info[j].1)
    ensures CheckedIndices(rule, info) == []
  {
    if info != [] {
      var n := |info| - 1;
      assert forall j :: 0 <= j < n ==> info[..n][j] == info[j];
      NothingChecked(rule, info[..n]);
    }
  }

  /** The row a checked interface gets: its str(value), Failed iff it fails. */
  function ExpectedRow(rule: Rule, alias: string, entry: (string, Record)): (row: Row)
    requires IsChecked(rule, entry.1)
    ensures row.interface == entry.0
    ensures row.verdict == Failed <==> Classify(rule, entry.1).Fail?
  {
    var c := Classify(rule, entry.1);
    MakeRow(rule, alias, entry.0, c.observed, if c.Fail? then Failed else Passed)
  }

  predicate SameOutcome(p: Progress, q: Progress) {
    p.snap.failed == q.snap.failed && p.rows == q.rows && p.raised == q.raised
  }

  lemma PrefixOfPrefix<T>(s: seq<T>, n: nat)
    requires n < |s|
    ensures s[..n + 1][..n] == s[..n]
  {
  }

  /** One iteration before any exception, in terms of the interface's classification. */
  lemma StepUnraised(rule: Rule, alias: string, q: Progress, entry: (string, Record))
    requires q.raised == None
    ensures var p := Step(rule, alias, q, entry);
      var c := Classify(rule, entry.1);
      && p.snap.intf == Some(entry.0)
      && p.raised == (if c.Raise? then Some(c.error) else None)
      && p.snap.failed == (if c.Fail? then q.snap.failed[entry.0 := c.stored] else q.snap.failed)
      && p.snap.interfaceName == (if c.Fail? then Some(entry.0) else q.snap.interfaceName)
      && p.snap.errorCounter == (if c.Fail? then Some(c.stored) else q.snap.errorCounter)
      && p.rows == q.rows + (if c.Pass? || c.Fail? then [ExpectedRow(rule, alias, entry)]
                             else if c.Raise? && c.failedRow.Some? then [MakeRow(rule, alias, entry.0, c.failedRow.value, Failed)]
                             else [])
  {
  }

  /** Once a rule has raised, the rest of the dictionary changes nothing. */
  lemma {:induction false} ScanAfterRaise(rule: Rule, alias: string, info: InterfaceDict, init: Progress, n: nat)
    requires n <= |info|
    requires Scan(rule, alias, info[..n], init).raised.Some?
    ensures Scan(rule, alias, info, init) == Scan(rule, alias, info[..n], init)
  {
    if n < |info| {
      var m := |info| - 1;
      assert info[..m][..n] == info[..n];
      ScanAfterRaise(rule, alias, info[..m], init, n);
      assert info[..|info|] == info;
    } else {
      assert info[..n] == info;
    }
  }

  /** Rows, entries and exceptions depend only on the state a pass starts with in
      those three components, not on intf, interface_name or error_counter. */
  lemma {:induction false} ScanIgnoresOtherFields(rule: Rule, alias: string, info: InterfaceDict, a: Progress, b: Progress)
    requires SameOutcome(a, b)
    ensures SameOutcome(Scan(rule, alias, info, a), Scan(rule, alias, info, b))
  {
    if info != [] {
      ScanIgnoresOtherFields(rule, alias, info[..|info| - 1], a, b);
    }
  }

  /** failed_interfaces is reset before every rule, so nothing a previous rule left
      in the instance fields changes what the next one records, shows or decides. */
  lemma RunIgnoresEarlierRules(rule: Rule, alias: string, info: InterfaceDict, b1: Snapshot, b2: Snapshot)
    ensures SameOutcome(Run(rule, alias, info, b1), Run(rule, alias, info, b2))
    ensures Conclude(rule, Run(rule, alias, info, b1)) == Conclude(rule, Run(rule, alias, info, b2))
  {
    ScanIgnoresOtherFields(rule, alias, info, Start(b1), Start(b2));
  }

  /** In a sequence of rules on one testcase, each rule records the entries, builds
      the table, raises the exception and reaches the result it would from an unset
      testcase: failed_interfaces is reset, and nothing else an earlier rule leaves
      behind is read. */
  lemma SequenceResults(rules: seq<Rule>, alias: string, info: InterfaceDict, before: Snapshot)
    ensures var ps := RunSequence(rules, alias, info, before);
      forall i :: 0 <= i < |rules| ==>
        && SameOutcome(ps[i], Run(rules[i], alias, info, Snapshot(map[], None, None, None)))
        && Conclude(rules[i], ps[i]) == RuleResult(rules[i], alias, info)
  {
    var ps := RunSequence(rules, alias, info, before);
    forall i | 0 <= i < |rules|
      ensures SameOutcome(ps[i], Run(rules[i], alias, info, Snapshot(map[], None, None, None)))
      ensures Conclude(rules[i], ps[i]) == RuleResult(rules[i], alias, info)
    {
      RunIgnoresEarlierRules(rules[i], alias, info, if i == 0 then before else ps[i - 1].snap, Snapshot(map[], None, None, None));
    }
  }

  /** The testcase's five threshold sections in sequence, one by one. */
  lemma FiveSections(alias: string, info: InterfaceDict, before: Snapshot)
    ensures var ps := RunSequence(Sections, alias, info, before);
      && |ps| == 5
      && ps[0] == Run(InputErrors, alias, info, before)
      && ps[1] == Run(InputCrcErrors, alias, info, ps[0].snap)
      && ps[2] == Run(OutputErrors, alias, info, ps[1].snap)
      && ps[3] == Run(FullDuplex, alias, info, ps[2].snap)
      && ps[4] == Run(OperStatus, alias, info, ps[3].snap)
      && FieldsAfter(Sections, alias, info, before) == ps[4].snap
      && Conclude(InputErrors, ps[0]) == RuleResult(InputErrors, alias, info)
      && Conclude(InputCrcErrors, ps[1]) == RuleResult(InputCrcErrors, alias, info)
      && Conclude(OutputErrors, ps[2]) == RuleResult(OutputErrors, alias, info)
      && Conclude(FullDuplex, ps[3]) == RuleResult(FullDuplex, alias, info)
      && Conclude(OperStatus, ps[4]) == RuleResult(OperStatus, alias, info)
  {
    SequenceResults(Sections, alias, info, before);
  }

  /** interface_name and error_counter are carried from rule to rule: a rule in which
      nothing raises and nothing fails leaves them as the rules before it left them. */
  lemma NamesCarryAcrossSections(rules: seq<Rule>, alias: string, info: InterfaceDict, before: Snapshot, i: nat)
    requires i < |rules|
    requires NoneRaises(rules[i], info)
    requires forall j :: 0 <= j < |info| ==> !FailsAt(rules[i], info, j)
    ensures var ps := RunSequence(rules, alias, info, before);
      var prev := if i == 0 then before else ps[i - 1].snap;
      ps[i].snap.interfaceName == prev.interfaceName && ps[i].snap.errorCounter == prev.errorCounter
  {
    var ps := RunSequence(rules, alias, info, before);
    NamesKeptWithoutFailure(rules[i], alias, info, if i == 0 then before else ps[i - 1].snap);
  }

  /** The names of the interfaces a rule fails. */
  function FailingNames(rule: Rule, info: InterfaceDict): set<string> {
    set j | 0 <= j < |info| && FailsAt(rule, info, j) :: info[j].0
  }

  lemma FailingNamesExtend(rule: Rule, info: InterfaceDict)
    requires info != []
    ensures var n := |info| - 1;
      FailingNames(rule, info) ==
        FailingNames(rule, info[..n]) + (if FailsAt(rule, info, n) then {info[n].0} else {})
  {
    var n := |info| - 1;
    assert forall j :: 0 <= j < n ==> info[..n][j] == info[j];
  }

  /** In a pass where no interface raises, failed_interfaces has exactly the failing
      interfaces as keys. */
  lemma {:induction false} FailedKeysWithoutRaise(rule: Rule, alias: string, info: InterfaceDict, before: Snapshot)
    requires NoneRaises(rule, info)
    ensures Run(rule, alias, info, before).snap.failed.Keys == FailingNames(rule, info)
  {
    if info != [] {
      var n := |info| - 1;
      var pre := info[..n];
      assert forall j :: 0 <= j < n ==> pre[j] == info[j];
      FailedKeysWithoutRaise(rule, alias, pre, before);
      RunCompletes(rule, alias, pre, before);
      var q := Run(rule, alias, pre, before);
      assert Run(rule, alias, info, before) == Step(rule, alias, q, info[n]);
      StepUnraised(rule, alias, q, info[n]);
      FailingNamesExtend(rule, info);
    }
  }

  /** In a pass where no interface raises, each failing interface is stored with the
      value its rule records for it. */
  lemma {:induction false} FailedValuesWithoutRaise(rule: Rule, alias: string, info: InterfaceDict, before: Snapshot)
    requires DistinctNames(info)
    requires NoneRaises(rule, info)
    ensures var p := Run(rule, alias, info, before);
      forall j :: 0 <= j < |info| && FailsAt(rule, info, j) ==>
        info[j].0 in p.snap.failed && p.snap.failed[info[j].0] == Classify(rule, info[j].1).stored
  {
    if info != [] {
      var n := |info| - 1;
      var pre := info[..n];
      assert forall j :: 0 <= j < n ==> pre[j] == info[j];
      FailedValuesWithoutRaise(rule, alias, pre, before);
      RunCompletes(rule, alias, pre, before);
      var q := Run(rule, alias, pre, before);
      assert Run(rule, alias, info, before) == Step(rule, alias, q, info[n]);
      StepUnraised(rule, alias, q, info[n]);
    }
  }

  /** The table of a pass where no interface raises: one row per checked interface,
      in iteration order, Failed exactly for the failing ones. */
  lemma {:induction false} RowsWithoutRaise(rule: Rule, alias: string, info: InterfaceDict, before: Snapshot)
    requires NoneRaises(rule, info)
    ensures var p := Run(rule, alias, info, before);
      var idx := CheckedIndices(rule, info);
      && |p.rows| == |idx|
      && forall i :: 0 <= i < |idx| ==> p.rows[i] == ExpectedRow(rule, alias, info[idx[i]])
  {
    if info != [] {
      var n := |info| - 1;
      var pre := info[..n];
      assert forall j :: 0 <= j < n ==> pre[j] == info[j];
      RowsWithoutRaise(rule, alias, pre, before);
      var q := Run(rule, alias, pre, before);
      RunCompletes(rule, alias, pre, before);
      assert Run(rule, alias, info, before) == Step(rule, alias, q, info[n]);
      StepUnraised(rule, alias, q, info[n]);
      var earlier := CheckedIndices(rule, pre);
      assert CheckedIndices(rule, info) == if IsChecked(rule, info[n].1) then earlier + [n] else earlier;
      assert forall i :: 0 <= i < |earlier| ==> pre[earlier[i]] == info[earlier[i]];
    }
  }

  /** When no interface fails, interface_name and error_counter keep what they held
      before the rule. */
  lemma {:induction false} NamesKeptWithoutFailure(rule: Rule, alias: string, info: InterfaceDict, before: Snapshot)
    requires NoneRaises(rule, info)
    requires forall j :: 0 <= j < |info| ==> !FailsAt(rule, info, j)
    ensures Run(rule, alias, info, before).snap.interfaceName == before.interfaceName
    ensures Run(rule, alias, info, before).snap.errorCounter == before.errorCounter
  {
    if info != [] {
      var n := |info| - 1;
      var pre := info[..n];
      forall j | 0 <= j < n ensures !Classify(rule, pre[j].1).Raise? && !FailsAt(rule, pre, j) {
        assert pre[j] == info[j];
        assert !FailsAt(rule, info, j);
      }
      NamesKeptWithoutFailure(rule, alias, pre, before);
      RunCompletes(rule, alias, pre, before);
      var q := Run(rule, alias, pre, before);
      assert Run(rule, alias, info, before) == Step(rule, alias, q, info[n]);
      StepUnraised(rule, alias, q, info[n]);
      assert !FailsAt(rule, info, n);
    }
  }

  /** With no exception, the last interface sets interface_name and error_counter
      when it fails and otherwise leaves them as the rest of the pass left them. */
  lemma NamesAfterLast(rule: Rule, alias: string, info: InterfaceDict, before: Snapshot)
    requires NoneRaises(rule, info) && info != []
    ensures var n := |info| - 1;
      var q := Run(rule, alias, info[..n], before).snap;
      var p := Run(rule, alias, info, before).snap;
      var c := Classify(rule, info[n].1);
      && p.interfaceName == (if c.Fail? then Some(info[n].0) else q.interfaceName)
      && p.errorCounter == (if c.Fail? then Some(c.stored) else q.errorCounter)
  {
    var n := |info| - 1;
    assert forall j :: 0 <= j < n ==> info[..n][j] == info[j];
    RunCompletes(rule, alias, info[..n], before);
    StepUnraised(rule, alias, Run(rule, alias, info[..n], before), info[n]);
  }

  /** interface_name and error_counter name the last failing interface and the value
      stored for it. */
  lemma {:induction false} LastFailureRecorded(rule: Rule, alias: string, info: InterfaceDict, before: Snapshot, m: nat)
    requires NoneRaises(rule, info)
    requires m < |info| && FailsAt(rule, info, m)
    requires forall j :: m < j < |info| ==> !FailsAt(rule, info, j)
    ensures Run(rule, alias, info, before).snap.interfaceName == Some(info[m].0)
    ensures Run(rule, alias, info, before).snap.errorCounter == Some(Classify(rule, info[m].1).stored)
  {
    var n := |info| - 1;
    NamesAfterLast(rule, alias, info, before);
    if m < n {
      var pre := info[..n];
      forall j | 0 <= j < n ensures !Classify(rule, pre[j].1).Raise? && (m < j ==> !FailsAt(rule, pre, j)) {
        assert pre[j] == info[j];
        if m < j {
          assert !FailsAt(rule, info, j);
        }
      }
      assert pre[m] == info[m];
      assert !FailsAt(rule, info, n);
      LastFailureRecorded(rule, alias, pre, before, m);
    }
  }

  /** The first interface that raises stops the rule: the exception is its, the
      table ends with the Failed row added just before the exception (if any), and
      everything else is what the interfaces before it left. */
  lemma RunWithRaise(rule: Rule, alias: string, info: InterfaceDict, before: Snapshot, k: nat)
    requires k < |info| && RaisesAt(rule, info, k)
    requires NoneRaises(rule, info[..k])
    ensures var p := Run(rule, alias, info, before);
      var q := Run(rule, alias, info[..k], before);
      var c := Classify(rule, info[k].1);
      && p.raised == Some(c.error)
      && p.snap == q.snap.(intf := Some(info[k].0))
      && p.rows == q.rows + (if c.failedRow.Some? then [MakeRow(rule, alias, info[k].0, c.failedRow.value, Failed)] else [])
  {
    RunCompletes(rule, alias, info[..k], before);
    PrefixOfPrefix(info, k);
    ScanAfterRaise(rule, alias, info, Start(before), k + 1);
  }

  /** When the first raising interface raises after its Failed row, the section
      errors with that exception and the table ends with that row. */
  lemma RaiseAfterFailedRow(rule: Rule, alias: string, info: InterfaceDict, before: Snapshot, k: nat)
    requires k < |info| && RaisesAt(rule, info, k) && Classify(rule, info[k].1).failedRow.Some?
    requires NoneRaises(rule, info[..k])
    ensures var p := Run(rule, alias, info, before);
      var c := Classify(rule, info[k].1);
      && Conclude(rule, p) == Errored(c.error)
      && |p.rows| > 0 && p.rows[|p.rows| - 1] == MakeRow(rule, alias, info[k].0, c.failedRow.value, Failed)
  {
    RunWithRaise(rule, alias, info, before, k);
  }

  /** No exception at all in a pass where no interface raises. */
  lemma {:induction false} RunCompletes(rule: Rule, alias: string, info: InterfaceDict, before: Snapshot)
    requires NoneRaises(rule, info)
    ensures Run(rule, alias, info, before).raised == None
    ensures Run(rule, alias, info, before).snap.intf == (if info == [] then before.intf else Some(info[|info| - 1].0))
  {
    if info != [] {
      var n := |info| - 1;
      assert forall j :: 0 <= j < n ==> info[..n][j] == info[j];
      RunCompletes(rule, alias, info[..n], before);
      StepUnraised(rule, alias, Run(rule, alias, info[..n], before), info[n]);
    }
  }

  /** The classification of each interface, in iteration order. */
  function Classes(rule: Rule, info: InterfaceDict): (cs: seq<Classification>)
    ensures |cs| == |info|
    ensures forall j :: 0 <= j < |info| ==> cs[j] == Classify(rule, info[j].1)
  {
    seq(|info|, j requires 0 <= j < |info| => Classify(rule, info[j].1))
  }

  /** The position of the first raising classification at or after `from`, or |cs|
      when none raises. */
  function FirstRaiseFrom(cs: seq<Classification>, from: nat): (k: nat)
    requires from <= |cs|
    ensures from <= k <= |cs|
    ensures forall j :: from <= j < k ==> !cs[j].Raise?
    ensures k < |cs| ==> cs[k].Raise?
    decreases |cs| - from
  {
    if from == |cs| || cs[from].Raise? then from
    else FirstRaiseFrom(cs, from + 1)
  }

  /** The position of the first interface that raises, or |info| when none does. */
  function FirstRaise(rule: Rule, info: InterfaceDict): (k: nat)
    ensures k <= |info|
    ensures forall j :: 0 <= j < k ==> !RaisesAt(rule, info, j)
    ensures k < |info| ==> RaisesAt(rule, info, k)
  {
    FirstRaiseFrom(Classes(rule, info), 0)
  }

  lemma NoneRaisesBeforeFirst(rule: Rule, info: InterfaceDict)
    ensures NoneRaises(rule, info[..FirstRaise(rule, info)])
    ensures FirstRaise(rule, info) == |info| ==> NoneRaises(rule, info)
  {
    var k := FirstRaise(rule, info);
    forall j | 0 <= j < k ensures !Classify(rule, info[..k][j].1).Raise? {
      assert info[..k][j] == info[j];
      assert !RaisesAt(rule, info, j);
    }
    assert info[..|info|] == info;
  }

  /** The verdict of a rule: errored iff some interface raises, and then with the
      first such interface's exception; otherwise failed iff some interface fails,
      passed iff none does. */
  lemma RuleVerdict(rule: Rule, alias: string, info: InterfaceDict, before: Snapshot)
    ensures var r := Conclude(rule, Run(rule, alias, info, before));
      && (r.Errored? <==> exists j :: 0 <= j < |info| && RaisesAt(rule, info, j))
      && (r.Errored? ==> r.error == Classify(rule, info[FirstRaise(rule, info)].1).error)
      && (r == FailedWith(rule.failMessage) <==>
            NoneRaises(rule, info) && exists j :: 0 <= j < |info| && FailsAt(rule, info, j))
      && (r == PassedWith(rule.passMessage) <==>
            NoneRaises(rule, info) && forall j :: 0 <= j < |info| ==> !FailsAt(rule, info, j))
  {
    var k := FirstRaise(rule, info);
    NoneRaisesBeforeFirst(rule, info);
    if k < |info| {
      RunWithRaise(rule, alias, info, before, k);
    } else {
      RunCompletes(rule, alias, info, before);
      FailedKeysWithoutRaise(rule, alias, info, before);
      var p := Run(rule, alias, info, before);
      if exists j :: 0 <= j < |info| && FailsAt(rule, info, j) {
        var j :| 0 <= j < |info| && FailsAt(rule, info, j);
        assert info[j].0 in p.snap.failed.Keys;
      } else {
        assert FailingNames(rule, info) == {};
        assert p.snap.failed.Keys == {};
      }
    }
  }

  /** An empty dictionary, or one where no record has the rule's field, passes. */
  lemma AbsentFieldsPass(rule: Rule, alias: string, info: InterfaceDict, before: Snapshot)
    requires forall j :: 0 <= j < |info| ==> Classify(rule, info[j].1).Skip?
    ensures Conclude(rule, Run(rule, alias, info, before)) == PassedWith(rule.passMessage)
    ensures Run(rule, alias, info, before).rows == []
  {
    RuleVerdict(rule, alias, info, before);
    RowsWithoutRaise(rule, alias, info, before);
    NothingChecked(rule, info);
  }

  /** The table and failed_interfaces agree, interface by interface: a name is in
      failed_interfaces iff its interface fails; a row is Failed iff its interface is
      in failed_interfaces; an interface without the field has neither row nor entry;
      every interface with the field has a row. */
  lemma TableMatchesFailures(rule: Rule, alias: string, info: InterfaceDict, before: Snapshot)
    requires DistinctNames(info)
    requires NoneRaises(rule, info)
    ensures var p := Run(rule, alias, info, before);
      && (forall j :: 0 <= j < |info| ==> (info[j].0 in p.snap.failed <==> FailsAt(rule, info, j)))
      && (forall i :: 0 <= i < |p.rows| ==> (p.rows[i].verdict == Failed <==> p.rows[i].interface in p.snap.failed))
      && (forall j :: 0 <= j < |info| && Classify(rule, info[j].1).Skip? ==>
            info[j].0 !in p.snap.failed && forall i :: 0 <= i < |p.rows| ==> p.rows[i].interface != info[j].0)
      && (forall j :: 0 <= j < |info| && IsChecked(rule, info[j].1) ==>
            exists i :: 0 <= i < |p.rows| && p.rows[i] == ExpectedRow(rule, alias, info[j]))
  {
    var p := Run(rule, alias, info, before);
    var idx := CheckedIndices(rule, info);
    FailedKeysWithoutRaise(rule, alias, info, before);
    RowsWithoutRaise(rule, alias, info, before);
    forall j | 0 <= j < |info|
      ensures info[j].0 in p.snap.failed <==> FailsAt(rule, info, j)
    {
      if info[j].0 in p.snap.failed {
        var j' :| 0 <= j' < |info| && FailsAt(rule, info, j') && info[j'].0 == info[j].0;
        assert j' == j;
      }
    }
    forall i | 0 <= i < |p.rows|
      ensures p.rows[i].verdict == Failed <==> p.rows[i].interface in p.snap.failed
    {
      assert p.rows[i] == ExpectedRow(rule, alias, info[idx[i]]);
    }
    forall j | 0 <= j < |info| && Classify(rule, info[j].1).Skip?
      ensures forall i :: 0 <= i < |p.rows| ==> p.rows[i].interface != info[j].0
    {
      forall i | 0 <= i < |p.rows| ensures p.rows[i].interface != info[j].0 {
        assert p.rows[i] == ExpectedRow(rule, alias, info[idx[i]]);
        assert idx[i] != j;
      }
    }
    forall j | 0 <= j < |info| && IsChecked(rule, info[j].1)
      ensures exists i :: 0 <= i < |p.rows| && p.rows[i] == ExpectedRow(rule, alias, info[j])
    {
      var i :| 0 <= i < |idx| && idx[i] == j;
      assert p.rows[i] == ExpectedRow(rule, alias, info[j]);
    }
  }
}
