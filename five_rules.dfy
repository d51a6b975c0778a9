/** The five rules of the interface testcase, each stated in terms of the learned
    record's own keys: the three counter rules (in_errors, in_crc_errors,
    out_errors), the duplex rule and the operational-status rule. */
module FiveRules {
  import opened PyBuiltins
  import opened ThresholdRules
  import opened RuleProperties

  predicate HasCounter(field: string, rec: Record) {
    rec.counters.Some? && field in rec.counters.value
  }

  function Counter(field: string, rec: Record): Value
    requires HasCounter(field, rec)
  {
    rec.counters.value[field]
  }

  /** A counter rule cannot read this record: it has no counters dict, or the
      counter is not an integer literal. */
  predicate CounterUnreadable(field: string, rec: Record) {
    rec.counters.None? || (HasCounter(field, rec) && IntOf(Counter(field, rec)).Err?)
  }

  /** int(counter) > 0. */
  predicate CounterPositive(field: string, rec: Record) {
    HasCounter(field, rec) && IntOf(Counter(field, rec)).Ok? && IntOf(Counter(field, rec)).value > 0
  }

  lemma CounterClassify(rule: Rule, rec: Record)
    requires IsCounterRule(rule)
    ensures var c := Classify(rule, rec);
      && (c.Raise? <==> CounterUnreadable(rule.field, rec))
      && (c.Raise? ==> c.failedRow == None)
      && (c.Fail? <==> CounterPositive(rule.field, rec))
      && (c.Fail? ==> c.stored == IntV(IntOf(Counter(rule.field, rec)).value))
      && (c.Skip? <==> rec.counters.Some? && rule.field !in rec.counters.value)
  {
    CounterCases(rule, rec);
  }

  /** A counter rule's classification of a record, case by case. */
  lemma CounterCases(rule: Rule, rec: Record)
    requires IsCounterRule(rule)
    ensures Classify(rule, rec) ==
      if rec.counters.None? then Raise(KeyError("counters"), None)
      else if rule.field !in rec.counters.value then Skip
      else match IntOf(rec.counters.value[rule.field])
        case Err(e) => Raise(e, None)
        case Ok(n) => if n > 0 then Fail(rec.counters.value[rule.field], IntV(n)) else Pass(rec.counters.value[rule.field])
  {
    assert rule.location == InCounters && rule.comparison == GreaterThan(0) && rule.storage == AsInt;
  }

  /** A counter rule: it raises iff some record has no counters dict or an unreadable
      counter; otherwise an interface is in failed_interfaces iff int(counter) > 0,
      stored as int(counter), and the rule fails iff there is such an interface. */
  lemma CounterRuleRun(rule: Rule, alias: string, info: InterfaceDict, before: Snapshot)
    requires IsCounterRule(rule)
    requires DistinctNames(info)
    ensures var p := Run(rule, alias, info, before);
      && (p.raised.Some? <==> exists j :: 0 <= j < |info| && CounterUnreadable(rule.field, info[j].1))
      && (p.raised.None? ==> forall j :: 0 <= j < |info| ==>
            (info[j].0 in p.snap.failed <==> CounterPositive(rule.field, info[j].1)))
      && (p.raised.None? ==> forall j :: 0 <= j < |info| && CounterPositive(rule.field, info[j].1) ==>
            p.snap.failed[info[j].0] == IntV(IntOf(Counter(rule.field, info[j].1)).value))
      && (Conclude(rule, p) == FailedWith(rule.failMessage) <==>
            (forall j :: 0 <= j < |info| ==> !CounterUnreadable(rule.field, info[j].1))
            && exists j :: 0 <= j < |info| && CounterPositive(rule.field, info[j].1))
  {
    forall j | 0 <= j < |info| {
      CounterClassify(rule, info[j].1);
    }
    RuleVerdict(rule, alias, info, before);
    if NoneRaises(rule, info) {
      TableMatchesFailures(rule, alias, info, before);
      FailedValuesWithoutRaise(rule, alias, info, before);
    }
  }

  /** The exception of a counter rule is the first unreadable record's: KeyError on
      'counters' when it has no counters dict, ValueError naming the counter's text
      when int() cannot read it. */
  lemma CounterRuleError(rule: Rule, alias: string, info: InterfaceDict, before: Snapshot, k: nat)
    requires IsCounterRule(rule)
    requires k < |info| && CounterUnreadable(rule.field, info[k].1)
    requires forall j :: 0 <= j < k ==> !CounterUnreadable(rule.field, info[j].1)
    ensures Conclude(rule, Run(rule, alias, info, before)) ==
      Errored(if info[k].1.counters.None? then KeyError("counters")
              else ValueError(Str(Counter(rule.field, info[k].1))))
  {
    forall j | 0 <= j <= k {
      CounterClassify(rule, info[j].1);
    }
    assert RaisesAt(rule, info, k);
    assert forall j :: 0 <= j < k ==> !RaisesAt(rule, info, j);
    assert FirstRaise(rule, info) == k;
    RuleVerdict(rule, alias, info, before);
  }

  predicate DuplexNotFull(rec: Record) {
    "duplex_mode" in rec.fields && rec.fields["duplex_mode"] != StrV("full")
  }

  /** The duplex rule stores int(duplex_mode) for a failing interface, so a failing
      value that is no integer literal raises. */
  predicate DuplexUnreadable(rec: Record) {
    DuplexNotFull(rec) && IntOf(rec.fields["duplex_mode"]).Err?
  }

  lemma DuplexClassify(rec: Record)
    ensures var c := Classify(FullDuplex, rec);
      && (c.Raise? <==> DuplexUnreadable(rec))
      && (c.Raise? ==> c.failedRow == Some(rec.fields["duplex_mode"]) && c.error == ValueError(Str(rec.fields["duplex_mode"])))
      && (c.Fail? <==> DuplexNotFull(rec) && !DuplexUnreadable(rec))
      && (c.Fail? ==> c.stored == IntV(IntOf(rec.fields["duplex_mode"]).value))
      && (c.Skip? <==> "duplex_mode" !in rec.fields)
  {
    DuplexCases(rec);
  }

  /** The duplex rule's classification of a record, case by case. */
  lemma DuplexCases(rec: Record)
    ensures Classify(FullDuplex, rec) ==
      if "duplex_mode" !in rec.fields then Skip
      else if rec.fields["duplex_mode"] == StrV("full") then Pass(rec.fields["duplex_mode"])
      else match IntOf(rec.fields["duplex_mode"])
        case Ok(n) => Fail(rec.fields["duplex_mode"], IntV(n))
        case Err(e) => Raise(e, Some(rec.fields["duplex_mode"]))
  {
    assert FullDuplex.location == TopLevel && FullDuplex.field == "duplex_mode";
    assert FullDuplex.comparison == NotEqualTo("full") && FullDuplex.storage == AsInt;
  }

  /** The duplex rule: it raises iff some record's duplex mode is not "full" and no
      integer literal; otherwise an interface is in failed_interfaces iff its duplex
      mode is not "full", stored as int(duplex_mode). A dictionary whose duplex modes
      are all "full" passes. */
  lemma FullDuplexRun(alias: string, info: InterfaceDict, before: Snapshot)
    requires DistinctNames(info)
    ensures var p := Run(FullDuplex, alias, info, before);
      && (p.raised.Some? <==> exists j :: 0 <= j < |info| && DuplexUnreadable(info[j].1))
      && (p.raised.None? ==> forall j :: 0 <= j < |info| ==>
            (info[j].0 in p.snap.failed <==> DuplexNotFull(info[j].1)))
      && (p.raised.None? ==> forall j :: 0 <= j < |info| && DuplexNotFull(info[j].1) ==>
            p.snap.failed[info[j].0] == IntV(IntOf(info[j].1.fields["duplex_mode"]).value))
      && (Conclude(FullDuplex, p) == FailedWith("Some interfaces are half duplex") <==>
            (forall j :: 0 <= j < |info| ==> !DuplexUnreadable(info[j].1))
            && exists j :: 0 <= j < |info| && DuplexNotFull(info[j].1))
      && ((forall j :: 0 <= j < |info| ==> !DuplexNotFull(info[j].1)) ==>
            Conclude(FullDuplex, p) == PassedWith("All interfaces are full duplex"))
  {
    forall j | 0 <= j < |info| {
      DuplexClassify(info[j].1);
    }
    RuleVerdict(FullDuplex, alias, info, before);
    if NoneRaises(FullDuplex, info) {
      TableMatchesFailures(FullDuplex, alias, info, before);
      FailedValuesWithoutRaise(FullDuplex, alias, info, before);
    }
  }

  /** A duplex mode with no digit in it, such as "half", makes the duplex rule raise
      ValueError after it has added the interface's Failed row. */
  lemma NonNumericDuplexRaises(alias: string, info: InterfaceDict, before: Snapshot, k: nat, mode: string)
    requires k < |info| && "duplex_mode" in info[k].1.fields && info[k].1.fields["duplex_mode"] == StrV(mode)
    requires mode != "full" && !HasDigit(mode)
    requires forall j :: 0 <= j < k ==> !DuplexUnreadable(info[j].1)
    ensures var p := Run(FullDuplex, alias, info, before);
      && Conclude(FullDuplex, p) == Errored(ValueError(mode))
      && |p.rows| > 0 && p.rows[|p.rows| - 1] == Row(alias, info[k].0, "full", mode, Failed)
  {
    NonNumericModeRaises(info[k].1, mode);
    DuplexReadableBefore(info, k);
    RaiseAfterFailedRow(FullDuplex, alias, info, before, k);
    assert ThresholdText(FullDuplex) == "full";
  }

  lemma NonNumericModeRaises(rec: Record, mode: string)
    requires "duplex_mode" in rec.fields && rec.fields["duplex_mode"] == StrV(mode)
    requires mode != "full" && !HasDigit(mode)
    ensures Classify(FullDuplex, rec) == Raise(ValueError(mode), Some(StrV(mode)))
  {
    IntOfNeedsDigit(mode);
    DuplexClassify(rec);
  }

  lemma DuplexReadableBefore(info: InterfaceDict, k: nat)
    requires k <= |info|
    requires forall j :: 0 <= j < k ==> !DuplexUnreadable(info[j].1)
    ensures NoneRaises(FullDuplex, info[..k])
  {
    forall j | 0 <= j < k
      ensures !RaisesAt(FullDuplex, info[..k], j)
    {
      DuplexClassify(info[j].1);
      assert info[..k][j] == info[j];
    }
  }

  /** The duplex rule as its messages say it is meant: a duplex mode other than
      "full" is recorded as read, not passed through int(). */
  const FullDuplexAsIntended := FullDuplex.(storage := AsRead)

  /** The intended duplex rule never raises; an interface is in failed_interfaces iff
      its duplex mode is not "full", stored as read, and the rule fails iff there is
      such an interface. */
  lemma FullDuplexAsIntendedRun(alias: string, info: InterfaceDict, before: Snapshot)
    requires DistinctNames(info)
    ensures var p := Run(FullDuplexAsIntended, alias, info, before);
      && p.raised == None
      && (forall j :: 0 <= j < |info| ==> (info[j].0 in p.snap.failed <==> DuplexNotFull(info[j].1)))
      && (forall j :: 0 <= j < |info| && DuplexNotFull(info[j].1) ==>
            p.snap.failed[info[j].0] == info[j].1.fields["duplex_mode"])
      && (Conclude(FullDuplexAsIntended, p) == FailedWith("Some interfaces are half duplex") <==>
            exists j :: 0 <= j < |info| && DuplexNotFull(info[j].1))
  {
    forall j | 0 <= j < |info|
      ensures var c := Classify(FullDuplexAsIntended, info[j].1);
        && !c.Raise? && (c.Fail? <==> DuplexNotFull(info[j].1))
        && (c.Fail? ==> c.stored == info[j].1.fields["duplex_mode"])
    {
      ReadRuleCases(FullDuplexAsIntended, info[j].1);
    }
    RuleVerdict(FullDuplexAsIntended, alias, info, before);
    TableMatchesFailures(FullDuplexAsIntended, alias, info, before);
    FailedValuesWithoutRaise(FullDuplexAsIntended, alias, info, before);
  }

  /** One half-duplex interface: the duplex rule as written errors with ValueError
      on "half"; the intended rule fails the section with its half-duplex message. */
  lemma HalfDuplexExample()
    ensures var info := [("Gi0/1", Record(Some(map[]), map["duplex_mode" := StrV("half")]))];
      && Conclude(FullDuplex, Run(FullDuplex, "R1", info, Unset)) == Errored(ValueError("half"))
      && Conclude(FullDuplexAsIntended, Run(FullDuplexAsIntended, "R1", info, Unset))
           == FailedWith("Some interfaces are half duplex")
  {
    var info := [("Gi0/1", Record(Some(map[]), map["duplex_mode" := StrV("half")]))];
    assert !HasDigit("half");
    NonNumericDuplexRaises("R1", info, Unset, 0, "half");
    FullDuplexAsIntendedRun("R1", info, Unset);
    assert DuplexNotFull(info[0].1);
  }

  /** The classification by a rule that compares a top-level field for inequality
      and stores it as read, case by case; such a rule never raises. */
  lemma ReadRuleCases(rule: Rule, rec: Record)
    requires rule.location == TopLevel && rule.comparison.NotEqualTo? && rule.storage == AsRead
    ensures Classify(rule, rec) ==
      if rule.field !in rec.fields then Skip
      else if rec.fields[rule.field] == StrV(rule.comparison.expected) then Pass(rec.fields[rule.field])
      else Fail(rec.fields[rule.field], rec.fields[rule.field])
  {
  }

  predicate OperNotUp(rec: Record) {
    "oper_status" in rec.fields && rec.fields["oper_status"] != StrV("up")
  }

  lemma OperStatusClassify(rec: Record)
    ensures var c := Classify(OperStatus, rec);
      && !c.Raise?
      && (c.Fail? <==> OperNotUp(rec))
      && (c.Fail? ==> c.stored == rec.fields["oper_status"])
      && (c.Skip? <==> "oper_status" !in rec.fields)
  {
    ReadRuleCases(OperStatus, rec);
  }

  /** The operational-status rule never raises; an interface is in failed_interfaces
      iff its oper_status is not "up", stored as read, and the rule fails iff there
      is such an interface. */
  lemma OperStatusRun(alias: string, info: InterfaceDict, before: Snapshot)
    requires DistinctNames(info)
    ensures var p := Run(OperStatus, alias, info, before);
      && p.raised == None
      && (forall j :: 0 <= j < |info| ==> (info[j].0 in p.snap.failed <==> OperNotUp(info[j].1)))
      && (forall j :: 0 <= j < |info| && OperNotUp(info[j].1) ==>
            p.snap.failed[info[j].0] == info[j].1.fields["oper_status"])
      && (Conclude(OperStatus, p) == FailedWith("Some interfaces are operationally down") <==>
            exists j :: 0 <= j < |info| && OperNotUp(info[j].1))
      && (Conclude(OperStatus, p) == PassedWith("All interfaces are operationally up") <==>
            forall j :: 0 <= j < |info| ==> !OperNotUp(info[j].1))
  {
    forall j | 0 <= j < |info| {
      OperStatusClassify(info[j].1);
    }
    RuleVerdict(OperStatus, alias, info, before);
    TableMatchesFailures(OperStatus, alias, info, before);
    FailedValuesWithoutRaise(OperStatus, alias, info, before);
  }

  const Unset := Snapshot(map[], None, None, None)

  /** Two interfaces with 5 and 0 input errors: the first fails with 5, the second
      passes, the rule fails. */
  lemma InputErrorsExample()
    ensures var info := [("Gi0/1", Record(Some(map["in_errors" := IntV(5)]), map[])),
                         ("Gi0/2", Record(Some(map["in_errors" := IntV(0)]), map[]))];
      var p := Run(InputErrors, "R1", info, Unset);
      && p.snap.failed == map["Gi0/1" := IntV(5)]
      && p.rows == [Row("R1", "Gi0/1", "0", "5", Failed), Row("R1", "Gi0/2", "0", "0", Passed)]
      && p.snap.interfaceName == Some("Gi0/1") && p.snap.errorCounter == Some(IntV(5))
      && Conclude(InputErrors, p) == FailedWith("Some interfaces have input errors")
  {
    var info := [("Gi0/1", Record(Some(map["in_errors" := IntV(5)]), map[])),
                 ("Gi0/2", Record(Some(map["in_errors" := IntV(0)]), map[]))];
    var p0 := Start(Unset);
    assert Str(IntV(5)) == "5" && Str(IntV(0)) == "0";
    assert Classify(InputErrors, info[0].1) == Fail(IntV(5), IntV(5));
    assert Classify(InputErrors, info[1].1) == Pass(IntV(0));
    var first := info[..1];
    assert first == [info[0]] && first[..0] == [] && info[..|info| - 1] == first;
    assert Scan(InputErrors, "R1", first[..0], p0) == p0;
    var p1 := Scan(InputErrors, "R1", first, p0);
    assert p1 == Step(InputErrors, "R1", p0, info[0]);
    assert Scan(InputErrors, "R1", info, p0) == Step(InputErrors, "R1", p1, info[1]);
    var p := Run(InputErrors, "R1", info, Unset);
    assert p.snap.failed == map["Gi0/1" := IntV(5)];
    assert p.rows == [Row("R1", "Gi0/1", "0", "5", Failed), Row("R1", "Gi0/2", "0", "0", Passed)];
    assert "Gi0/1" in p.snap.failed;
  }

  /** An interface that is down fails the operational-status rule with "down". */
  lemma OperStatusExample()
    ensures var info := [("Gi0/1", Record(Some(map[]), map["oper_status" := StrV("down")]))];
      var p := Run(OperStatus, "R1", info, Unset);
      && p.snap.failed == map["Gi0/1" := StrV("down")]
      && p.rows == [Row("R1", "Gi0/1", "up", "down", Failed)]
      && Conclude(OperStatus, p) == FailedWith("Some interfaces are operationally down")
  {
    var info := [("Gi0/1", Record(Some(map[]), map["oper_status" := StrV("down")]))];
    assert info[..0] == [];
    assert Scan(OperStatus, "R1", info[..0], Start(Unset)) == Start(Unset);
    assert Classify(OperStatus, info[0].1) == Fail(StrV("down"), StrV("down"));
    assert Run(OperStatus, "R1", info, Unset) == Step(OperStatus, "R1", Start(Unset), info[0]);
    assert "Gi0/1" in Run(OperStatus, "R1", info, Unset).snap.failed;
  }

  /** A record without counters makes the input-errors rule raise KeyError. */
  lemma MissingCountersExample()
    ensures var info := [("Gi0/1", Record(None, map["oper_status" := StrV("up")]))];
      Conclude(InputErrors, Run(InputErrors, "R1", info, Unset)) == Errored(KeyError("counters"))
  {
  }
}
