# VRL assignments and syslog record shaping, in Dafny

This project models two pieces of Vector Remap Language (VRL).

**The assignment expression** (`lib/vrl/compiler/src/expression/assignment.rs`).
The compiler turns `target = expr` and `ok, err = expr` into an assignment.
Before it accepts one, it runs these checks in a fixed order:

- a single assignment must not have a fallible right-hand side;
- a no-op target `_` alone is useless;
- the `ok, err` form needs a right-hand side that can fail;
- the target must be a variable, the event record or `_`;
- the target must not lie in a read-only part of the event;
- every segment of the target path must have a parent that could be an object (for a field or coalesce segment) or an array (for an index segment).

The last check walks the path from its end back to the root. It reports the deepest offending segment, with the spans of the parent and the segment, and a two-line remediation.

On success, the compiler records the written type in the variable table or in the record's type, whichever owns the target. At run time, a single assignment propagates the expression's failure. The `ok, err` form never fails: `ok` gets the value or a default, and `err` gets null or the error message.

**Syslog record shaping** (`lib/vrl/stdlib/src/parse_syslog.rs`). This maps an already parsed syslog message to an object:

- a fixed set of header fields;
- then one object per structured-data element (section 6.3 of RFC 5424), keyed by its SD-ID.

It also covers the rule that picks the year of a date without one, and the statically declared result type of `parse_syslog`.

The crates these files depend on (`Kind`, `TypeDef`, `LookupBuf`, `Value`, the type environments and the runtime context) are not part of this model. Each is given a small, concrete stand-in, in `kind.dfy`, `typedef.dfy`, `lookup.dfy`, `value.dfy` and `state.dfy`:

- **Kind** is either "any", or a set of scalar kinds plus optional known object fields and array elements.
- **Paths** are sequences of field, coalesce and index segments. They render as `.name`, `.(a | b)` and `[i]`.
- **Values** are written and read through paths. A write creates missing containers and pads arrays with nulls.
- **LocalEnv** is a map from variable names to details. **ExternalEnv** holds the record's details and a set of read-only regions; a path is read-only when one of them is its prefix. **Context** holds the variable store and the record. All three are classes whose methods update their fields.

The main soundness result is `Assignment.TargetInsertSound`. Suppose the runtime state agrees with the environments, and the written value has the type recorded for it. Then the state after `Target::insert` still agrees with the environments after `Target::insert_type_def`. `Assignment.InfallibleResolveSound` lifts this to a whole `ok, err` assignment.

## Model

| member | source | states |
|---|---|---|
| Assignment.Code | lib/vrl/compiler/src/expression/assignment.rs:617-630 | Each error variant has its own code, in both directions: 640 no-op, 103 fallible, 104 infallible, 641 invalid target, 642 invalid parent segment, 315 read-only. |
| Assignment.Notes | lib/vrl/compiler/src/expression/assignment.rs:688-723 | The two right-hand-side errors point to the error docs. A parent-segment error gets a solution whose first line makes the parent an empty object or array, and whose second line repeats the assignment; then the docs. Every other error has no notes. |
| Assignment.LookupBuf | lib/vrl/compiler/src/expression/assignment.rs:406-412 | The no-op target writes through the root path. |
| Assignment.TargetText | lib/vrl/compiler/src/expression/assignment.rs:415-427 | `_` renders as `_`. A record target starts with `.`. A variable target starts with the variable's name, followed by a `.` before a field or coalesce and a `[` before an index. |
| Assignment.TryFromAst | lib/vrl/compiler/src/expression/assignment.rs:443-479 | Conversion fails exactly for a query on something other than a variable or the record, with code 641 over the query's span. Otherwise the path is kept, `_` stays the no-op, and variable and record targets keep their kind and name. |
| Assignment.VerifyMutable | lib/vrl/compiler/src/expression/assignment.rs:189-209 | Fails exactly when the target is a record path inside a read-only region. The error is `ReadOnly` (315) over the given spans. |
| Assignment.DeepestOffenderSpec | lib/vrl/compiler/src/expression/assignment.rs:240-266 | The back-to-front search finds no offender exactly when every segment fits its parent kind. Otherwise it finds an unfit segment after which all segments fit. |
| Assignment.DeepestIs | lib/vrl/compiler/src/expression/assignment.rs:240-266 | An unfit segment followed only by fitting ones is the deepest offender: the back-to-front walk stops at it. |
| Assignment.OverwriteFailure | lib/vrl/compiler/src/expression/assignment.rs:242-291 | For every target and segment, the diagnostic is an invalid-parent error whose parent span starts at the target's start and ends no later than the segment span starts, and whose segment span ends within the target span. When the target span is well formed (start before end), the segment span also starts within it and the parent span's start is not after its end. |
| Assignment.OverwriteSpansExact | lib/vrl/compiler/src/expression/assignment.rs:242-258 | When the text from the failing segment on fits in the target's span, the spans are exact UTF-8 byte offsets: the segment ends where the rest of the path's text begins, it is as long as its label in bytes, and the parent ends where the text from the segment on begins. |
| Assignment.PathTextBytes | lib/vrl/compiler/src/expression/assignment.rs:242-258 | The byte length of the text from segment `k` on is the `.` of a field or coalesce, plus the label's bytes, plus the bytes of the rest. |
| Assignment.ParentText | lib/vrl/compiler/src/expression/assignment.rs:269-278 | A variable's parent text is its name followed by the prefix's text. A record's parent text starts with `.`. |
| Assignment.OverwriteCheckVerdict | lib/vrl/compiler/src/expression/assignment.rs:215-297 | A root path passes. Any path passes exactly when every segment's prefix kind may be an object (field, coalesce) or an array (index). |
| Assignment.OverwriteCheckDiagnostic | lib/vrl/compiler/src/expression/assignment.rs:240-296 | On failure the code is 642 and the reported segment is the deepest unfit one. The variant names the container that segment needs, and the parent kind is the kind at its prefix. |
| Assignment.PopSegment | lib/vrl/compiler/src/expression/assignment.rs:240-262 | Popping segment `k` prepends its text to the remainder, so the remainder is the path's text from `k` on. The parent span then ends that many UTF-8 bytes before the target's end, but not before its start. The segment span covers the name (after its `.`) or the bracketed index, measured in bytes. The variant is "array" for an index and "object" otherwise, and `valid` says whether the segment fits. |
| Assignment.ParentFailure | lib/vrl/compiler/src/expression/assignment.rs:269-291 | The diagnostic built after a segment fails is exactly `OverwriteFailure` for that segment. That includes the parent text and, for a record whose parent is the root, the remainder without its leading `.`. |
| Assignment.VerifyOverwriteable | lib/vrl/compiler/src/expression/assignment.rs:215-297 | The loop that pops segments, shrinks the parent span and prepends to the remainder text returns exactly `OverwriteCheck`, starting from the variable's kind, `any` for an unseen variable, or the record's kind. |
| Assignment.InsertedDetails | lib/vrl/compiler/src/expression/assignment.rs:350-357 | Reading the new type back at the written path gives the written type. The result is fallible iff the written or prior type was. A root write replaces the kind. The constant is the written one. An unseen variable starts from null by definition; the fallibility clause then says the result is fallible iff the written type is. |
| Assignment.LocalAfter | lib/vrl/compiler/src/expression/assignment.rs:343-360 | Only a variable target changes the table. Its variable is added or updated, every other variable keeps its details, and the written type reads back at the path. |
| Assignment.ExternalAfter | lib/vrl/compiler/src/expression/assignment.rs:362-372 | Only a record target changes the record's details. Its type then has the written type at the path, and its constant is the written one. |
| Assignment.InsertTypeDef | lib/vrl/compiler/src/expression/assignment.rs:343-375 | The variable table becomes `LocalAfter` and the record details become `ExternalAfter`. |
| Assignment.AssignmentSpan | lib/vrl/compiler/src/expression/assignment.rs:37-88 | The assignment span starts at the (first) target. For a single assignment it ends one byte before the right-hand side starts. For an `ok, err` assignment it ends where `err` ends. |
| Assignment.Precheck | lib/vrl/compiler/src/expression/assignment.rs:41-115 | A single assignment is refused iff its right-hand side is flagged fallible (103, whatever the target) or its target is `_` (640). An `ok, err` assignment is refused iff its right-hand side is infallible (104) or both targets are `_` (640), with 104 taking precedence. |
| Assignment.CheckTarget | lib/vrl/compiler/src/expression/assignment.rs:62-74 | `_` always passes. A target passes iff it converts, is not read-only and every segment fits; it is then the converted target. Errors come in order: 641, then 315, then 642. A 315 error carries the mutability span. |
| Assignment.CheckedTarget | lib/vrl/compiler/src/expression/assignment.rs:62-74 | Converting, then `verify_mutable`, then `verify_overwriteable`, stopping at the first error, gives exactly `CheckTarget`. |
| Assignment.New | lib/vrl/compiler/src/expression/assignment.rs:25-172 | A precheck error returns it and leaves both environments alone; so does a target error. A single assignment records the expression's type at its target. An `ok, err` assignment records the infallible type at `ok` and then checks `err` against the updated environments. An `err` error leaves the `ok` update in place. On success `err` is recorded as bytes-or-null with no constant, and the default is the infallible type's default value. |
| Assignment.NewSingle | lib/vrl/compiler/src/expression/assignment.rs:34-83 | The `target = expr` arm: refused by the precheck or by the target check with the environments untouched. Otherwise the expression's type is recorded at the target. |
| Assignment.NewInfallible | lib/vrl/compiler/src/expression/assignment.rs:84-165 | The `ok, err = expr` arm: the infallible type is recorded at `ok` before `err` is checked. `err` is recorded as bytes-or-null with no constant. |
| Assignment.Targets | lib/vrl/compiler/src/expression/assignment.rs:174-186 | Lists the single target, or `ok` then `err`. |
| Assignment.StoreAfter | lib/vrl/compiler/src/expression/assignment.rs:381-398 | Only a variable target changes the store. Its variable is added or updated, other variables are unchanged, and the written value reads back at the path. |
| Assignment.RecordAfter | lib/vrl/compiler/src/expression/assignment.rs:400-402 | Only a record target changes the record, and the written value reads back at the path. |
| Assignment.Insert | lib/vrl/compiler/src/expression/assignment.rs:377-404 | The store becomes `StoreAfter` and the record becomes `RecordAfter`. |
| Assignment.Resolve | lib/vrl/compiler/src/expression/assignment.rs:503-533 | A single assignment returns the expression's result. On failure it changes nothing; on success it inserts the value. An `ok, err` assignment never fails. On success `ok` gets the value and `err` gets null, and the value is returned. On failure `ok` gets the default and `err` gets the error text, and that text is returned. |
| Assignment.AssignmentTypeDef | lib/vrl/compiler/src/expression/assignment.rs:535-546 | A single assignment has the expression's type. An `ok, err` assignment's type is infallible and includes bytes: every value of the expression's type and every string conform to it. |
| Assignment.TargetInsertSound | lib/vrl/compiler/src/expression/assignment.rs:343-404 | If the store agrees with the variable table, the record conforms to its kind and the written value has the written type, the same holds after `insert` and `insert_type_def` of one target. |
| Assignment.InfallibleResolveSound | lib/vrl/compiler/src/expression/assignment.rs:122-156 | After resolving an `ok, err` assignment, on success or on failure, the store and record agree with the environments as compilation left them. |
| Assignment.FailureTexts | lib/vrl/compiler/src/expression/assignment.rs:248-277 | For a variable, the parent text is the name plus the prefix's text. For the record, it is `.` plus the prefix's display. The remainder is the path's text from the failing segment on, without its leading `.` when the record's parent is the root. |
| Assignment.RemediationRestatesTarget | lib/vrl/compiler/src/expression/assignment.rs:702-715 | For every target, parent text followed by remainder text is the target's own rendering, so the remediation's second line repeats the original assignment. |
| Assignment.InternalTextSplits | lib/vrl/compiler/src/expression/assignment.rs:269-270 | A variable target's text splits at any segment into the parent text and the text from that segment on. |
| Assignment.ParentNotObjectExample | lib/vrl/compiler/src/expression/assignment.rs:215-297 | Compiling `.a.b = 2` against a record of kind `{a: integer}` fails with 642. The parent span is `.a` and the segment span is `b`. The parent text is `.a` and the remainder is `.b`, so the remediation reads `.a = {}` then `.a.b = 2`. |
| Assignment.VariableParentExample | lib/vrl/compiler/src/expression/assignment.rs:240-291 | With variable `v` of kind `{a: integer}`, compiling `v.a.b = 2` fails with 642. The parent span is bytes 0 to 3 with text `v.a`, the segment span is `b` at byte 4, and the remainder is `.b`. |
| Assignment.IntegerParentExamples | lib/vrl/compiler/src/expression/assignment.rs:240-262 | With variable `v` an integer, `v.b = 2` is refused as needing an object and `v[3] = 2` as needing an array, both with parent kind integer. |
| Assignment.SegmentStartAsWritten | lib/vrl/compiler/src/expression/assignment.rs:245 | The source's segment start is below zero exactly when the segment's byte length exceeds the parent span's end. Otherwise it equals the saturating subtraction. |
| Assignment.SpacelessCoalesceUnderflows | lib/vrl/compiler/src/expression/assignment.rs:244-248 | For `.(a|b) = 1` at byte 0, the target takes 6 bytes but the coalesce displays as `(a \| b)`, 7 bytes, so the source's segment start is -1. At bytes 10 to 16 it is 9, one byte before the target. |
| Assignment.CoalesceSegmentStaysInTarget | lib/vrl/compiler/src/expression/assignment.rs:242-258 | For the same target at bytes 10 to 16, the corrected diagnostic's segment span is bytes 10 to 16 and its parent span is empty at byte 10. |
| Assignment.ParentTextAsWritten | lib/vrl/compiler/src/expression/assignment.rs:269-270 | The source's parent text for a variable is the name followed by the prefix's display, with no `.` between. |
| Assignment.VariableParentLosesSeparator | lib/vrl/compiler/src/expression/assignment.rs:269-270 | For `v.a.b`, the source's parent text is `va`, where `v.a` is meant. |
| Assignment.TargetTextAsWritten | lib/vrl/compiler/src/expression/assignment.rs:415-427 | The source's rendering of a variable target is the name followed by the path's display, with no `.` between. |
| Assignment.VariableTargetLosesSeparator | lib/vrl/compiler/src/expression/assignment.rs:422 | The source renders `v.b` as `vb`. |
| Kinds.InsertedAt | lib/vrl/compiler/src/expression/assignment.rs:354-356 | The kind stand-in's `with_type_inserted` followed by `at_path` at a coalesce-free path gives back the inserted kind. |
| Kinds.NullBaseIsAnyBase | lib/vrl/compiler/src/expression/assignment.rs:350-357 | Writing into the `null` kind an unseen variable starts from gives the same kind as writing into `any`, unless the first segment is an empty coalesce. |
| Kinds.InsertConforms | lib/vrl/compiler/src/expression/assignment.rs:390-402 | Writing a conforming value at a path keeps the record conforming to the kind with the type inserted at that path. |
| Kinds.DefaultValue | lib/vrl/compiler/src/expression/assignment.rs:133-134 | The default value of an inhabited kind conforms to it. |
| Kinds.AddBytesWidens | lib/vrl/compiler/src/expression/assignment.rs:541-543 | Adding bytes to a kind keeps every value that conformed. |
| Values.ValueAtPath | lib/vrl/compiler/src/expression/assignment.rs:393-396 | A fresh value built from a path reads back at that path. |
| Values.InsertThenGet | lib/vrl/compiler/src/expression/assignment.rs:393-394 | Writing by path and reading the same path gives the written value. |
| ParseSyslog.FixedFields | lib/vrl/stdlib/src/parse_syslog.rs:101-140 | Only fixed keys appear, and `message` is always there with the message text. |
| ParseSyslog.ProcIdValue | lib/vrl/stdlib/src/parse_syslog.rs:134-139 | A numeric PID becomes an integer, and a named process id becomes a string. |
| ParseSyslog.FixedFieldsPresence | lib/vrl/stdlib/src/parse_syslog.rs:105-140 | `hostname`, `severity`, `facility`, `appname`, `msgid`, `timestamp` and `procid` are each present iff the parsed field is. `version` is present iff the protocol is RFC 5424. |
| ParseSyslog.FixedFieldsHeader | lib/vrl/stdlib/src/parse_syslog.rs:105-119 | Hostname is the string given. Severity and facility are their keyword names. Version is an integer. |
| ParseSyslog.FixedFieldsApplication | lib/vrl/stdlib/src/parse_syslog.rs:121-140 | Appname and msgid are the strings given, the timestamp is a timestamp value, and procid is its value. |
| ParseSyslog.ParamsMapSpec | lib/vrl/stdlib/src/parse_syslog.rs:143-146 | An element's object has a key exactly for each param name. A later param with the same name wins. |
| ParseSyslog.WithStructuredDataSpec | lib/vrl/stdlib/src/parse_syslog.rs:142-148 | Keys are the base keys plus every SD-ID. A base key no SD-ID names keeps its value. The last element with a given SD-ID supplies its object. |
| ParseSyslog.MessageFieldsKeys | lib/vrl/stdlib/src/parse_syslog.rs:100-151 | `message` is always a key, every fixed field's key is kept, and every other key is an SD-ID. |
| ParseSyslog.FixedFieldsKept | lib/vrl/stdlib/src/parse_syslog.rs:142-150 | When no SD-ID is a fixed key, the fixed fields are exactly as `FixedFields` made them, and `message` is the message text. |
| ParseSyslog.InsertFixedFields | lib/vrl/stdlib/src/parse_syslog.rs:101-140 | The series of conditional inserts builds exactly `FixedFields`. |
| ParseSyslog.ParamsObject | lib/vrl/stdlib/src/parse_syslog.rs:143-146 | The loop over an element's params builds exactly `ParamsMap`. |
| ParseSyslog.MessageToValue | lib/vrl/stdlib/src/parse_syslog.rs:100-151 | The conditional inserts and the nested loop over elements and params build exactly the object `MessageFields` describes. |
| ParseSyslog.ResolveYear | lib/vrl/stdlib/src/parse_syslog.rs:87-97 | The result is the previous year iff the current month is January and the message month is December. Otherwise it is the current year. |
| ParseSyslog.InnerKindAt | lib/vrl/stdlib/src/parse_syslog.rs:153-165 | `message` is declared bytes. Hostname, severity, facility, appname and msgid are bytes or null. Timestamp is a timestamp or null, version is an integer or null, and procid is bytes, an integer or null. |
| ParseSyslog.InnerKindShape | lib/vrl/stdlib/src/parse_syslog.rs:153-165 | The declared fields are exactly the fixed keys. Every field except `message` may be null. |
| ParseSyslog.ParseSyslogTypeDef | lib/vrl/stdlib/src/parse_syslog.rs:82-84 | Whatever the argument, the type is a fallible object of the inner kind. |
| ParseSyslog.FixedFieldsConform | lib/vrl/stdlib/src/parse_syslog.rs:100-140 | Every fixed field's value conforms to its declared kind. |
| ParseSyslog.UndeclaredStructuredKeys | lib/vrl/stdlib/src/parse_syslog.rs:142-165 | The object's keys are all declared in the inner kind iff every SD-ID is a fixed key. |
| ParseSyslog.PlainMessageConformsClosed | lib/vrl/stdlib/src/parse_syslog.rs:100-165 | A message without structured data gives an object with `message`, only declared keys, and every field conforming to its declared kind. |
| ParseSyslog.MessageConforms | lib/vrl/stdlib/src/parse_syslog.rs:82-84 | When no SD-ID is a fixed key, the produced object conforms to the declared return type. |
| ParseSyslog.ShadowingLeavesDeclaredType | lib/vrl/stdlib/src/parse_syslog.rs:142-148 | An element whose SD-ID is `message` replaces the message text with an object. The result then does not conform to the declared type. |

## Left out

- The syslog text parser, timezone lookup, date conversion and the clock (`lib/vrl/stdlib/src/parse_syslog.rs:9-17, 91, 129-131`) are foreign code. The parsed message is an input, a timestamp is an integer, and "now" is passed to `ResolveYear` as a year and a month.
- The `parse_syslog` function wrapper (identifier, parameters, examples, compile and resolve plumbing) is not part of this model.
- The severity and facility names come from the syslog parser crate, which is not part of this model. They are taken to be the RFC 5424 keywords `emerg` … `debug` and `kern` … `local7`.
- Diagnostic labels, messages and the `Display`/`Debug` renderings of `Assignment`, `Variant` and `Error` are wording only and are not modelled. `Code` and `Notes` are, with the `Note` stand-in below.
- Notes: `Note` is a stand-in for the diagnostic crate's type, which is not part of this model. The list of notes that `Note::solution` returns is folded into a single `Solution` note holding the title and the two lines.
- `Kind`, `TypeDef`, `LookupBuf`, `Value`, `Note`, `LocalEnv`, `ExternalEnv` and `Context` live in crates that are not part of this model. Each is a concrete stand-in, and no claim is made that it matches the crate's internals. In particular, narrowing a kind through a coalesce segment gives `any`. Writing into `null` and writing into `any` give the same kind in the stand-in (`NullBaseIsAnyBase`), so the `null` base that `insert_type_def` gives an unseen variable (`assignment.rs:350`) yields the same kind an `any` base would, as the overwrite check assumes for such a variable (`assignment.rs:228-230`). The `null` base is visible in the model only through fallibility. Also, the rendering of a path without its leading `.` stands in for `LookupBuf`'s `Display`.
- The parent text and the rendering of a variable target use the path's text with its leading `.`, so `v.a.b` gives `v.a` and `v.b` gives `v.b`. The source writes the name directly before `LookupBuf`'s `Display`, which has no leading `.`; see Findings.
- `Kinds.InsertedAt` and `Assignment.InsertedDetails` give the read-back round trip only for coalesce-free paths, because of the coalesce narrowing above.
- Whether the right-hand side is fallible (`fallible_rhs`) is an input flag. The expression itself is a rendered text, a type and an optional constant.
- Resolve does not evaluate the right-hand side. Its result is an input, so the expression's own side effects on the context are not modelled.
- Insert ignores the failure `target_insert` may report (`assignment.rs:401`). The stand-in's write into the record always succeeds.
- Insert models the in-place update through `variable_mut` as replacing the map entry. Aliasing of stored values is not modelled.
- Spans are natural numbers counting UTF-8 bytes, not `usize`. Where the source subtracts and could underflow (the segment start, the parent end, the end of a single assignment's span), the model never moves an offset before the target's start (`StepBack`) or below zero (`SpanSub`); see Findings. A single assignment's right-hand side never starts at byte 0, because a target precedes it, so there the subtraction is exact. A process id and a version are unbounded integers, not `i32`/`u32`.
- InfallibleResolveSound requires the expression's kind to be inhabited. An uninhabited kind has no default value that conforms to it.
- MessageConforms: object kinds in the `Kind` stand-in are open. A key the kind does not declare is not constrained, and a declared key may be missing. The SD-ID keys that structured data adds are not declared in the inner kind (see `UndeclaredStructuredKeys`), so conformance says nothing about them. Whether the crate's object kinds are closed is not part of this model. `PlainMessageConformsClosed` states the closed form for a message without structured data.
- MessageConforms is stated only when no SD-ID equals a fixed key. An SD-ID that does replaces the fixed field with an object, and the result can then leave the declared type (see `ShadowingLeavesDeclaredType`).
- FixedFieldsKept is stated under the same no-shadowing condition, for the same reason.

## Findings

| source | as written | input that shows it | evidently intended | confidence | as-written member | corrected member |
|---|---|---|---|---|---|---|
| lib/vrl/compiler/src/expression/assignment.rs:245 | The segment start is the parent span's end minus the segment's displayed byte length, a `usize` subtraction. | `.(a\|b) = 1` at any offset: the target is 6 bytes, but the coalesce displays as `(a \| b)`, 7 bytes. At byte 0 the subtraction underflows; at bytes 10 to 16 the segment span starts at byte 9, before the target. | The segment span lies within the target span, and the parent span's start is not after its end. | not executed; the display of a coalesce comes from a crate that is not part of this model | Assignment.SpacelessCoalesceUnderflows | Assignment.OverwriteFailure |
| lib/vrl/compiler/src/expression/assignment.rs:270 | A variable's parent text is the name followed directly by the prefix's `Display`. | `v.a.b = 2` with `v.a` an integer gives the parent text `va` and the remediation `va = {}`. | The parent text is `v.a`, and the remediation's second line repeats `v.a.b = 2`. | not executed; `LookupBuf`'s `Display` is taken to have no leading `.`, as the record arm's `format!(".{}", path)` implies | Assignment.VariableParentLosesSeparator | Assignment.RemediationRestatesTarget |
| lib/vrl/compiler/src/expression/assignment.rs:422 | A variable target renders as the name followed directly by the path's `Display`. | `v.b` renders as `vb`. | `v.b`. | not executed; same assumption about `LookupBuf`'s `Display` | Assignment.VariableTargetLosesSeparator | Assignment.TargetText |
