# Interface threshold checks

A Dafny model of the `Test_Interfaces` testcase in `interface_test.py`, a pyATS
script that learns a device's interfaces and checks them. It declares eight test
sections. The first three (`setup`, `get_pre_test_interface_data` and
`create_pre_test_files`, :41-56) connect, learn and dump the data. Each of the other
five checks a single threshold rule:

| test section | field | where | fails when | stores |
|---|---|---|---|---|
| `test_interface_input_errors` | `in_errors` | `counters` | `int(v) > 0` | `int(v)` |
| `test_interface_input_crc_errors` | `in_crc_errors` | `counters` | `int(v) > 0` | `int(v)` |
| `test_interface_output_errors` | `out_errors` | `counters` | `int(v) > 0` | `int(v)` |
| `test_interface_full_duplex` | `duplex_mode` | top level | `v != "full"` | `int(v)` |
| `test_interface_oper_status` | `oper_status` | top level | `v != "up"` | `v` |

Every section follows the same steps:

1. It empties `failed_interfaces`.
2. It walks the learned interface dictionary in iteration order, assigning each name to `intf`.
3. It skips a record that lacks the field.
4. Otherwise it adds a Passed or Failed table row.
5. For a failing interface, it records the interface in `failed_interfaces` and sets `interface_name` and `error_counter`.
6. At the end it passes or fails according to whether `failed_interfaces` is empty.

Modules:

- `PyBuiltins` (`py_builtins.dfy`) covers the Python the sections rely on:
  - record values (`IntV`/`StrV`);
  - the exceptions `KeyError`/`ValueError`;
  - `int()` on integers and on strings (ASCII white space, an optional sign, digits with single underscores);
  - `str()`.
- `ThresholdRules` (`threshold_rules.dfy`) holds the rule logic:
  - the generic `Rule`, parameterised by field, location, comparison, threshold, storage and messages;
  - the five rule constants;
  - `Classify`, which says what a rule does with one record;
  - `Step` and `Scan`, which give, as functions, the loop's effect on the instance fields, the table and the exception;
  - `Conclude`, which gives the section's verdict.
- `InterfaceTests` (`interface_tests.dfy`) has the class `TestInterfaces`. Its mutable fields are `failedInterfaces`, `intf`, `interfaceName` and `errorCounter`.
  - The generic method `Evaluate` is the section body as a `while` loop over the dictionary. It is proved against `Run`.
  - The five test-section methods call `Evaluate`.
  - `RunTestSections` runs the five threshold sections in declaration order on one testcase, so the instance fields carry over from section to section (`RunSequence`).
- `RuleProperties` (`rule_properties.dfy`) proves what one pass produces, for any rule and any dictionary.
- `FiveRules` (`five_rules.dfy`) restates those results for each rule in terms of the record's own keys, and gives concrete examples.

The learned dictionary is a sequence of `(name, record)` pairs. Its names are
distinct (`DistinctNames`) wherever a statement depends on that. A record is its
`counters` dict if it has one, plus its top-level keys.

Two details of the code the model keeps as written:

- For a failing duplex mode the code stores `int(counter)` (:175). The section's
  messages (:188) and the status section (:208) suggest the raw mode was meant.
  The model follows the code: a mode such as `"half"` raises `ValueError` after
  its Failed row has been added (:174), and the section errors.
- The output-errors section's messages say "output lost carrier errors" (:155, :157).

## Model

| member | source | states |
|---|---|---|
| InterfaceTests.TestInterfaces.constructor | interface_test.py:42-50 | the testcase after setup and learn holds the device alias and the learned dictionary, with no instance field set yet |
| InterfaceTests.TestInterfaces.VisitInterface | interface_test.py:69-78 | one loop iteration sets `intf` and then does exactly what `Step` says for the record's classification: skip, Passed row, Failed row plus entry plus `interface_name`/`error_counter`, or an exception (after the Failed row when `int()` of a failing duplex mode fails) |
| InterfaceTests.TestInterfaces.Evaluate | interface_test.py:62-90 | a test section leaves the instance fields, the table and the verdict exactly as `Run`/`Conclude` give them; its loop keeps the state equal to `Scan` of the processed prefix and stops at the first exception |
| InterfaceTests.TestInterfaces.TestInterfaceInputErrors | interface_test.py:58-90 | the input-errors section is the generic section for `in_errors` inside `counters`, threshold 0, storing `int(counter)`, with its two messages |
| InterfaceTests.TestInterfaces.TestInterfaceInputCrcErrors | interface_test.py:92-123 | the same for `in_crc_errors` |
| InterfaceTests.TestInterfaces.TestInterfaceOutputErrors | interface_test.py:125-157 | the same for `out_errors`, with the "output lost carrier errors" messages |
| InterfaceTests.TestInterfaces.TestInterfaceFullDuplex | interface_test.py:159-190 | the duplex section: top-level `duplex_mode`, fails on `!= "full"`, stores `int(counter)` |
| InterfaceTests.TestInterfaces.TestInterfaceOperStatus | interface_test.py:192-224 | the operational-status section: top-level `oper_status`, fails on `!= "up"`, stores the value as read |
| InterfaceTests.TestInterfaces.RunTestSections | interface_test.py:58-224 | the five sections run in order on one testcase: each result and table is that of `RunSequence`, the instance fields end as the last section leaves them (`FieldsAfter`), and each result is the one its rule gives on the dataset alone |
| ThresholdRules.Sections | interface_test.py:58-224 | definition: the five threshold sections in declaration order (:58, :92, :125, :159, :192) |
| ThresholdRules.RunSequence | interface_test.py:58-224 | one pass per rule, the first from the given instance fields and each later one from the fields the pass before it left, since the testcase object is shared and only `failed_interfaces` is reset (:62, :96, :129, :163, :196) |
| ThresholdRules.FieldsAfter | interface_test.py:58-224 | definition: the instance fields after a sequence of sections |
| ThresholdRules.Start | interface_test.py:62 | a section starts with `failed_interfaces` empty, an empty table and no exception, and changes no other instance field |
| ThresholdRules.InputErrors | interface_test.py:61-90 | definition: the input-errors rule. It reads `in_errors` inside `counters`, fails on `int(v) > 0` and stores `int(v)`, with the messages of :88 and :90 |
| ThresholdRules.InputCrcErrors | interface_test.py:95-123 | definition: the same for `in_crc_errors`, with the messages of :121 and :123 |
| ThresholdRules.OutputErrors | interface_test.py:128-157 | definition: the same for `out_errors`, with the messages of :155 and :157 |
| ThresholdRules.FullDuplex | interface_test.py:162-190 | definition: the duplex rule. It reads top-level `duplex_mode`, fails on `!= "full"` and stores `int(v)`, with the messages of :188 and :190 |
| ThresholdRules.OperStatus | interface_test.py:195-224 | definition: the status rule. It reads top-level `oper_status`, fails on `!= "up"` and stores `v` as read, with the messages of :222 and :224 |
| ThresholdRules.ThresholdText | interface_test.py:73 | definition: the threshold column, `str()` of the threshold |
| ThresholdRules.MakeRow | interface_test.py:73 | definition: a table row of alias, interface, threshold text, `str()` of the value and the verdict (also :78 and the equivalent lines of the other sections) |
| ThresholdRules.Lookup | interface_test.py:70-71 | definition: the membership test and subscript that find the field. For a counter rule, `value['counters']` raises KeyError when the record has no `counters`; the lookup gives nothing when the field is absent. Likewise at :104-105, :137-138, :171-172 and :204-205 |
| ThresholdRules.Exceeds | interface_test.py:72 | definition: the comparison with the threshold. `int(v) > limit` may raise ValueError; `v != expected` is true for an integer value. Likewise at :106, :139, :173 and :206 |
| ThresholdRules.StoredValue | interface_test.py:74 | definition: the value stored for a failing interface, either `int(v)` (which may raise, as at :175) or `v` as read (:208) |
| ThresholdRules.Classify | interface_test.py:70-78 | definition: what one record does under a rule. It is skipped, passes, fails with a stored value, or raises (after a Failed row when the store raised) |
| ThresholdRules.Step | interface_test.py:69-78 | definition: one loop iteration on the instance fields, the table and the exception |
| ThresholdRules.Scan | interface_test.py:69-78 | definition: the loop over a prefix of the dictionary, one `Step` per interface in iteration order |
| ThresholdRules.Run | interface_test.py:62-78 | definition: the reset of `failed_interfaces` followed by the loop over the whole dictionary |
| ThresholdRules.Conclude | interface_test.py:86-90 | definition: the verdict. It is errored on an exception, otherwise failed with the rule's message iff `failed_interfaces` is non-empty, else passed |
| ThresholdRules.RuleResult | interface_test.py:62-90 | definition: a rule's verdict on a dataset, taken from an unset state |
| FiveRules.FullDuplexAsIntended | interface_test.py:175 | definition: the duplex rule with the mode stored as read, the evidently intended form of :175 |
| RuleProperties.RunIgnoresEarlierRules | interface_test.py:62 | because of the reset at :62 (also :96, :129, :163 and :196), two runs that start from any two instance states record the same entries, build the same table, raise the same exception and reach the same verdict |
| RuleProperties.SequenceResults | interface_test.py:62 | in a sequence of sections, each records the entries, builds the table, raises the exception and reaches the result it would from an unset testcase; the reset is at :62, :96, :129, :163 and :196 |
| RuleProperties.FiveSections | interface_test.py:58-224 | the five threshold sections in sequence, one by one: each pass starts from the fields the one before left, the fields end as the operational-status pass leaves them, and each result is its rule's result on the dataset alone |
| RuleProperties.NamesCarryAcrossSections | interface_test.py:75-76 | `interface_name` and `error_counter` carry over between sections: one in which nothing raises and nothing fails leaves them as the earlier sections set them (the same assignments are at :109-110, :142-143, :176-177 and :209-210, and no reset touches them) |
| RuleProperties.ScanIgnoresOtherFields | interface_test.py:69-78 | the loop's entries, rows and exception depend only on the entries, rows and exception it starts with, and not on `intf`, `interface_name` or `error_counter` |
| RuleProperties.ScanAfterRaise | interface_test.py:69-78 | once an iteration has raised, the remaining interfaces change nothing |
| RuleProperties.StepUnraised | interface_test.py:69-78 | one iteration before any exception, written per classification: `intf` set, an entry and the two fields only on a failure, one row exactly for a checked interface, and an exception exactly on a raise |
| RuleProperties.CheckedIndices | interface_test.py:70-71 | the positions of the interfaces that get a row are exactly the in-range positions of checked interfaces, in strictly increasing order |
| RuleProperties.ExpectedRow | interface_test.py:72-78 | a checked interface's row names that interface and is Failed exactly when the interface fails |
| RuleProperties.FailedKeysWithoutRaise | interface_test.py:72-74 | with no exception, the keys of `failed_interfaces` are exactly the names of the failing interfaces |
| RuleProperties.FailedValuesWithoutRaise | interface_test.py:74 | with no exception and distinct names, each failing interface is stored with its rule's stored value |
| RuleProperties.RowsWithoutRaise | interface_test.py:72-78 | with no exception, the table has one row per checked interface, in iteration order, each the interface's expected row |
| RuleProperties.TableMatchesFailures | interface_test.py:70-78 | an interface is in `failed_interfaces` iff it fails; a row is Failed iff its interface is in `failed_interfaces`; an interface without the field has no row and no entry; every checked interface has its row |
| RuleProperties.NamesKeptWithoutFailure | interface_test.py:75-76 | when no interface fails, `interface_name` and `error_counter` keep the values they had before the section |
| RuleProperties.LastFailureRecorded | interface_test.py:75-76 | otherwise they name the last failing interface in iteration order and the value stored for it |
| RuleProperties.RaiseAfterFailedRow | interface_test.py:174-175 | when the first raising interface raises after its Failed row, the section errors with that exception and the table's last row is that Failed row |
| RuleProperties.RunCompletes | interface_test.py:69 | with no raising interface the loop ends without exception, and `intf` is the last interface, or unchanged for an empty dictionary |
| RuleProperties.RunWithRaise | interface_test.py:173-175 | the first raising interface ends the section with its exception; the table gains only the Failed row added before that exception, and every other field is as the earlier interfaces left it, apart from `intf` |
| RuleProperties.FirstRaiseFrom | interface_test.py:69 | in a sequence of classifications, the first raising position at or after a start: nothing raises before it, and it raises if it is in range |
| RuleProperties.FirstRaise | interface_test.py:69 | the position of the first interface that raises: none raises before it, and it raises if it is in range |
| RuleProperties.NoneRaisesBeforeFirst | interface_test.py:69 | nothing raises before the first raising position, and nothing raises at all when there is none |
| RuleProperties.RuleVerdict | interface_test.py:86-90 | a section errors iff some interface raises, with the first one's exception; it fails iff none raises and some fails; it passes iff none raises and none fails |
| RuleProperties.AbsentFieldsPass | interface_test.py:87-90 | an empty dictionary, or one where no record has the field, passes with an empty table |
| RuleProperties.NothingChecked | interface_test.py:70-71 | when no interface is checked, no interface gets a row |
| RuleProperties.FailingNamesExtend | interface_test.py:74 | the failing names of a dictionary are those of its prefix, plus the last name if that interface fails |
| PyBuiltins.DigitChar | interface_test.py:73 | a decimal digit's character is a digit that stands for that value |
| PyBuiltins.ParseIntLiteral | interface_test.py:72 | when `int()` of a string raises, the exception is a ValueError naming that string |
| PyBuiltins.IntLiteralParse | interface_test.py:72 | `int()` accepts a string iff it is laid out as a literal: white space, an optional sign, a digit part with single underscores between digits, white space. It then returns the signed value of the digit part; every other string raises |
| PyBuiltins.ParseStripped | interface_test.py:72 | when the parse of the stripped text raises, the exception is a ValueError naming the original string |
| PyBuiltins.IsSpace | interface_test.py:72 | definition: the ASCII white space `int()` ignores around its argument |
| PyBuiltins.Strip | interface_test.py:72 | definition: the argument of `int()` without its leading and trailing white space |
| PyBuiltins.IsDigitPart | interface_test.py:72 | definition: the digit part of a base-10 literal, digits with single underscores between them |
| PyBuiltins.DigitPartValue | interface_test.py:72 | definition: the number a digit part denotes, underscores ignored |
| PyBuiltins.IntOf | interface_test.py:72 | definition: `int()` of a record value; an integer is returned unchanged, a string is parsed as a literal |
| PyBuiltins.Str | interface_test.py:73 | definition: `str()` of a record value; a string is unchanged, an integer is written in decimal |
| PyBuiltins.IntToDecimal | interface_test.py:73 | definition: the decimal text of an integer, with a leading `-` when it is negative |
| PyBuiltins.NatToDecimal | interface_test.py:73 | `str()` of a natural number is a non-empty run of digits with no leading zero |
| PyBuiltins.NatToDecimalValue | interface_test.py:73 | the digits `str()` writes for a natural number denote that number |
| PyBuiltins.IntOfStrRoundTrip | interface_test.py:73-74 | `int(str(n)) == n`: the text of a counter in the table reads back as the stored integer |
| PyBuiltins.IntOfNeedsDigit | interface_test.py:175 | `int()` of a string with no decimal digit, such as `"half"`, raises ValueError naming it |
| PyBuiltins.StripLeft | interface_test.py:72 | the leading white space that `int()` ignores is removed: the result is a suffix of the input that does not start with a space, and every character removed is white space |
| PyBuiltins.StripRight | interface_test.py:72 | the same for trailing white space: the result is a prefix of the input that does not end with a space, and every character removed is white space |
| FiveRules.CounterClassify | interface_test.py:70-78 | a counter rule raises on a record iff the record has no `counters` or the counter is no integer; it fails iff `int(counter) > 0`, storing `int(counter)`; it skips iff `counters` lacks the field |
| FiveRules.CounterCases | interface_test.py:70-78 | a counter rule on a record: KeyError `'counters'` without a `counters` dict, skip without the field, ValueError when `int()` of the counter raises, else fail with `int(counter)` when it is positive and pass otherwise |
| FiveRules.CounterRuleRun | interface_test.py:69-76 | a counter section raises iff some record is unreadable. Otherwise an interface is in `failed_interfaces` iff `int(counter) > 0`, stored as `int(counter)`. The section fails iff nothing is unreadable and some counter is positive |
| FiveRules.CounterRuleError | interface_test.py:70-72 | a counter section's exception is that of the first unreadable record: KeyError on `'counters'` when the record has none, otherwise ValueError naming the counter's text |
| FiveRules.DuplexClassify | interface_test.py:171-179 | the duplex rule raises exactly on a mode other than `"full"` that is no integer literal, after a Failed row for it; it otherwise fails exactly on a mode other than `"full"`, storing `int(mode)` |
| FiveRules.DuplexCases | interface_test.py:171-179 | the duplex rule on a record: skip without `duplex_mode`, pass on `"full"`, else fail with `int(mode)`, or raise `int()`'s exception after the Failed row when it cannot read the mode |
| FiveRules.NonNumericModeRaises | interface_test.py:173-175 | a mode other than `"full"` with no digit raises ValueError naming it, after a Failed row showing it |
| FiveRules.FullDuplexRun | interface_test.py:170-190 | the duplex section raises iff some mode is not `"full"` and no integer. Otherwise the failing interfaces are exactly those whose mode is not `"full"`, stored as `int(mode)`. The section fails iff no mode is unreadable and some mode is not `"full"`; a dictionary whose modes are all `"full"` passes |
| FiveRules.NonNumericDuplexRaises | interface_test.py:173-175 | a first failing duplex mode with no digit in it, such as `"half"`, errors the section with ValueError naming it, and the table ends with that interface's Failed row |
| FiveRules.ReadRuleCases | interface_test.py:204-212 | a rule that compares a top-level field for inequality and stores it as read skips a record without the field, passes on the expected value, fails otherwise with the value as read, and never raises |
| FiveRules.OperStatusClassify | interface_test.py:204-212 | the status rule never raises; it fails exactly on `oper_status != "up"`, storing the value as read, and skips records without the field |
| FiveRules.OperStatusRun | interface_test.py:203-224 | the status section never raises. An interface is in `failed_interfaces` iff its status is not `"up"`, stored as read. The section fails iff there is such an interface and passes iff there is none |
| FiveRules.InputErrorsExample | interface_test.py:69-90 | interfaces with 5 and 0 input errors give the entry `{Gi0/1: 5}`, a Failed row then a Passed row, `interface_name`/`error_counter` naming Gi0/1 and 5, and a failed section |
| FiveRules.OperStatusExample | interface_test.py:203-222 | an interface that is down is recorded with `"down"`, gets a Failed row, and fails the section |
| FiveRules.MissingCountersExample | interface_test.py:70 | a record without `counters` makes the input-errors section error with KeyError `'counters'` |
| FiveRules.HalfDuplexExample | interface_test.py:173-175 | one half-duplex interface errors the duplex section as written with ValueError `"half"`; the intended rule fails it with "Some interfaces are half duplex" |
| FiveRules.FullDuplexAsIntendedRun | interface_test.py:170-190 | the duplex rule that stores the mode as read never raises. Its failing interfaces are exactly those not in `"full"` mode, stored as read. It fails iff there is such an interface |

## Findings

| source | as written | input that shows it | evidently intended | confidence | as-written member | corrected member |
|---|---|---|---|---|---|---|
| interface_test.py:175 | a failing duplex mode is stored as `int(counter)` | one interface with `duplex_mode == "half"` | store the mode as read, as the status section does at :208, so a half-duplex interface fails the section with "Some interfaces are half duplex" | high (not executed) | FiveRules.HalfDuplexExample | FiveRules.FullDuplexAsIntendedRun |

`FiveRules.FullDuplexAsIntended` is the corrected rule. The test-section methods
keep the duplex rule as written (`ThresholdRules.FullDuplex`), because they model
what the testcase does.

## Left out

- Connecting to and disconnecting from the devices (`testbed.connect()`/`testbed.disconnect()`, :27, :230) is network I/O and is not modelled.
- The per-device loop (`aetest.loop.mark`, :33) and `aetest.main()` (:234) are framework orchestration. A `TestInterfaces` object is one device's testcase over one given learned dictionary.
- `self.device.learn("interface")` (:50) is a call into Genie's parsers. Its `.info` is the constructor's `learned` argument.
- Writing the JSON dump (:55-56) is file I/O and is not modelled.
- The rich `Table`/`Console` rendering, the column titles, the styles and `log.info` are not modelled. A row is the tuple (device alias, interface, threshold text, value text, Passed/Failed).
- The pyATS `passed`/`failed` calls become the returned `TestResult` and its message. An exception in the loop becomes `Errored` with that exception. In that case the section never renders its table; the model still returns the rows built so far.
- `failed_interfaces` is a Dafny `map`, so its insertion order is not modelled. The testcase never reads that order.
- `counters` is modelled as a dict or absent. A `counters` value of another type, on which the membership test would behave differently, is not modelled.
- PyBuiltins.ParseIntLiteral: covers `int()` of ASCII text only. Unicode digits and white space, the interpreter's limit on digit-string length, and `int()` of bools or floats are not modelled. Learned counters are integers or strings.
- `interface_name` and `error_counter` are `None` until they are first set. The testcase only assigns them and never reads them.
