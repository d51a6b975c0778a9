/** The Test_Interfaces testcase for one device: the instance fields its test
    sections write, one generic loop that checks a threshold rule the way each
    test section does, and the five test sections themselves. */
module InterfaceTests {
  import opened PyBuiltins
  import opened ThresholdRules
  import RuleProperties

  class TestInterfaces {
    /** self.device.alias */
    const alias: string
    /** self.parsed_interfaces.info, the learned interface dictionary */
    const interfaces: InterfaceDict

    var failedInterfaces: map<string, Value>
    var intf: Option<string>
    var interfaceName: Option<string>
    var errorCounter: Option<Value>

    function Fields(): Snapshot
      reads this
    {
      Snapshot(failedInterfaces, intf, interfaceName, errorCounter)
    }

    /** The testcase after setup and the learn step, before any test section. */
    constructor (alias: string, learned: InterfaceDict)
      ensures this.alias == alias && interfaces == learned
      ensures Fields() == Snapshot(map[], None, None, None)
    {
      this.alias := alias;
      interfaces := learned;
      failedInterfaces := map[];
      intf := None;
      interfaceName := None;
      errorCounter := None;
    }

    /** The body of a test section's loop for one interface: set intf, skip the
        interface when it lacks the rule's field, else add its row and, when it
        fails, record it. `raised` is the exception that ends the loop, if any. */
    method VisitInterface(rule: Rule, entry: (string, Record), table: seq<Row>) returns (table': seq<Row>, raised: Option<Error>)
      modifies this`failedInterfaces, this`intf, this`interfaceName, this`errorCounter
      ensures Progress(Fields(), table', raised) == Step(rule, alias, Progress(old(Fields()), table, None), entry)
    {
      var name := entry.0;
      ghost var c := Classify(rule, entry.1);
      RuleProperties.StepUnraised(rule, alias, Progress(Fields(), table, None), entry);
      table', raised := table, None;
      intf := Some(name);
      var found := Lookup(rule, entry.1);
      if found.Err? {
        assert c == Raise(found.error, None);
        raised := Some(found.error);
        return;
      }
      if found.value.Some? {
        var counter := found.value.value;
        var exceeds := Exceeds(rule, counter);
        if exceeds.Err? {
          assert c == Raise(exceeds.error, None);
          raised := Some(exceeds.error);
          return;
        }
        if exceeds.value {
          table' := table' + [MakeRow(rule, alias, name, counter, Failed)];
          var stored := StoredValue(rule, counter);
          if stored.Err? {
            assert c == Raise(stored.error, Some(counter));
            raised := Some(stored.error);
            return;
          }
          assert c == Fail(counter, stored.value);
          failedInterfaces := failedInterfaces[name := stored.value];
          interfaceName := Some(name);
          errorCounter := Some(failedInterfaces[name]);
        } else {
          assert c == Pass(counter);
          table' := table' + [MakeRow(rule, alias, name, counter, Passed)];
        }
      } else {
        assert c == Skip;
      }
    }

    /** One test section: reset failed_interfaces, walk the interfaces in order,
        then pass or fail on failed_interfaces. An exception stops the walk and
        errors the section; `table` is then the table as far as it was built. */
    method Evaluate(rule: Rule) returns (result: TestResult, table: seq<Row>)
      modifies this`failedInterfaces, this`intf, this`interfaceName, this`errorCounter
      ensures var p := Run(rule, alias, interfaces, old(Fields()));
        Fields() == p.snap && table == p.rows && result == Conclude(rule, p)
    {
      ghost var init := Start(Fields());
      failedInterfaces := map[];
      table := [];
      var i := 0;
      while i < |interfaces|
        invariant 0 <= i <= |interfaces|
        invariant Scan(rule, alias, interfaces[..i], init) == Progress(Fields(), table, None)
      {
        assert interfaces[..i + 1][..i] == interfaces[..i];
        var raised;
        table, raised := VisitInterface(rule, interfaces[i], table);
        if raised.Some? {
          result := Errored(raised.value);
          RuleProperties.ScanAfterRaise(rule, alias, interfaces, init, i + 1);
          return;
        }
        i := i + 1;
      }
      assert interfaces[..i] == interfaces;
      if failedInterfaces != map[] {
        result := FailedWith(rule.failMessage);
      } else {
        result := PassedWith(rule.passMessage);
      }
    }

    method TestInterfaceInputErrors() returns (result: TestResult, table: seq<Row>)
      modifies this`failedInterfaces, this`intf, this`interfaceName, this`errorCounter
      ensures var p := Run(InputErrors, alias, interfaces, old(Fields()));
        Fields() == p.snap && table == p.rows && result == Conclude(InputErrors, p)
    {
      result, table := Evaluate(InputErrors);
    }

    method TestInterfaceInputCrcErrors() returns (result: TestResult, table: seq<Row>)
      modifies this`failedInterfaces, this`intf, this`interfaceName, this`errorCounter
      ensures var p := Run(InputCrcErrors, alias, interfaces, old(Fields()));
        Fields() == p.snap && table == p.rows && result == Conclude(InputCrcErrors, p)
    {
      result, table := Evaluate(InputCrcErrors);
    }

    method TestInterfaceOutputErrors() returns (result: TestResult, table: seq<Row>)
      modifies this`failedInterfaces, this`intf, this`interfaceName, this`errorCounter
      ensures var p := Run(OutputErrors, alias, interfaces, old(Fields()));
        Fields() == p.snap && table == p.rows && result == Conclude(OutputErrors, p)
    {
      result, table := Evaluate(OutputErrors);
    }

    method TestInterfaceFullDuplex() returns (result: TestResult, table: seq<Row>)
      modifies this`failedInterfaces, this`intf, this`interfaceName, this`errorCounter
      ensures var p := Run(FullDuplex, alias, interfaces, old(Fields()));
        Fields() == p.snap && table == p.rows && result == Conclude(FullDuplex, p)
    {
      result, table := Evaluate(FullDuplex);
    }

    method TestInterfaceOperStatus() returns (result: TestResult, table: seq<Row>)
      modifies this`failedInterfaces, this`intf, this`interfaceName, this`errorCounter
      ensures var p := Run(OperStatus, alias, interfaces, old(Fields()));
        Fields() == p.snap && table == p.rows && result == Conclude(OperStatus, p)
    {
      result, table := Evaluate(OperStatus);
    }

    /** The five threshold test sections in the order the testcase declares them,
        on one testcase: each starts from the instance fields the one before it
        left, and `tables[i]` is the table of `Sections[i]`. Each result is the one
        its rule gives on the dataset alone. */
    method RunTestSections() returns (results: seq<TestResult>, tables: seq<seq<Row>>)
      modifies this`failedInterfaces, this`intf, this`interfaceName, this`errorCounter
      ensures var ps := RunSequence(Sections, alias, interfaces, old(Fields()));
        && results == [Conclude(InputErrors, ps[0]), Conclude(InputCrcErrors, ps[1]), Conclude(OutputErrors, ps[2]),
                       Conclude(FullDuplex, ps[3]), Conclude(OperStatus, ps[4])]
        && tables == [ps[0].rows, ps[1].rows, ps[2].rows, ps[3].rows, ps[4].rows]
        && Fields() == FieldsAfter(Sections, alias, interfaces, old(Fields()))
      ensures results == [RuleResult(InputErrors, alias, interfaces), RuleResult(InputCrcErrors, alias, interfaces),
                          RuleResult(OutputErrors, alias, interfaces), RuleResult(FullDuplex, alias, interfaces),
                          RuleResult(OperStatus, alias, interfaces)]
    {
      ghost var ps := RunSequence(Sections, alias, interfaces, Fields());
      RuleProperties.FiveSections(alias, interfaces, Fields());
      var r1, r2, r3, r4, r5, t1, t2, t3, t4, t5;
      r1, t1 := TestInterfaceInputErrors();
      assert Fields() == ps[0].snap;
      r2, t2 := TestInterfaceInputCrcErrors();
      assert Fields() == ps[1].snap;
      r3, t3 := TestInterfaceOutputErrors();
      assert Fields() == ps[2].snap;
      r4, t4 := TestInterfaceFullDuplex();
      assert Fields() == ps[3].snap;
      r5, t5 := TestInterfaceOperStatus();
      results := [r1, r2, r3, r4, r5];
      tables := [t1, t2, t3, t4, t5];
    }
  }
}
