# Rule composition of react-custom-validation

This project models the core of `lib/Validate.jsx` of react-custom-validation:
the function `and`, which composes an ordered list of asynchronous validation
rules into one pass, and the pure parts of the `Validate` component around it.

`and(rules)(value)` starts every rule against the value at once and keeps one
evaluation handle per rule. Whenever any handle is fulfilled, it scans the
handles from index 0, stepping over those fulfilled with a value loosely equal
to `null` (`null` or `undefined`). The handle where the scan stops — or the
last handle when every rule passed — is the first relevant one. If it is
fulfilled, the pass resolves with its value; otherwise the pass keeps waiting.
`validate` maps that value to a `{valid, error, showValidation}` record.

Modules:

- `Options` (`options.dfy`): the optional value used for a result not yet known and an absent child.
- `JsValues` (`js_values.dfy`): the values rules are fulfilled with, and loose equality with `null`.
- `Scan` (`scan.dfy`): the states of the evaluation handles (`Pending`, `Fulfilled(v)`, `Rejected`),
  where the scan stops (`ScanIndex`), what one scan decides (`Decision`), a declarative description
  of the reported rule (`Reports`), and the properties of the decision: priority by position,
  the all-pass case, stability under further settlements, and the cases that never resolve.
- `Settlement` (`settlement.dfy`): settlement events, the states a sequence of them leads to
  (`Step`, `Apply`), and order independence.
- `And` (`and_pass.dfy`): the pass itself, a class with an array of handle states and a write-once
  `resolved` field. `Settle` is one settlement event: it updates one handle and, for a fulfilment,
  runs the scan loop (`ScanPassed`) and possibly resolves. Its invariant `Valid()` says that the
  pass has resolved exactly when the current states are decided, and with the decided value.
  `RunPass` drives a whole pass and is proved equal to `Decision(Apply(...))`.
- `Validate` (`validate.dfy`): the validation record, the mapping from a pass's result to it,
  and the split of the component's children into the input element and the rules.

Behaviour a reader might not expect, modelled as the code does it:

- One might expect an empty rule list to validate at once, but with no rules `forEach` registers
  no handler, so the pass never resolves (`Settlement.EmptyPassNeverResolves`).
- One might expect a throwing rule to count as a failure carrying the error, but a rejected handle
  is never `isFulfilled()` and no rejection handler is registered. A rejection at or before the
  first non-passing rule therefore blocks the pass for good (`Scan.RejectionBlocks`,
  `Scan.BlockedForever`).
- One might expect a plain return value of a rule to be wrapped, but the code calls `.then` on
  whatever a rule returns, and the scan calls `isFulfilled()` and `value()` on it, so a rule must
  return an inspectable (Bluebird) promise.

## Model

| member | source | states |
|---|---|---|
| Scan.ScanIndex | lib/Validate.jsx:12-15 | the scan stops at an index at most the number of rules; every handle before it is fulfilled with null or undefined (the loop condition of line 13, `Scan.Passed`); the handle at it, if any, is not |
| Scan.ScanIndexUnique | lib/Validate.jsx:12-15 | those stop conditions determine the stop index uniquely |
| Scan.Decision | lib/Validate.jsx:16-19 | a scan over no handles never resolves; when a scan resolves, it is with the value some handle is fulfilled with |
| Scan.DecisionReports | lib/Validate.jsx:16-19 | a scan resolves with `v` exactly when some handle is fulfilled with `v`, every handle before it passed, and `v` is a failure unless the handle is the last one |
| Scan.ReportsUnique | lib/Validate.jsx:13-19 | at most one handle, with one value, is ever the reported one |
| Scan.NoPreemption | lib/Validate.jsx:13-19 | while a handle is pending or rejected, any decision comes from a strictly earlier handle: a later failure never pre-empts it |
| Scan.ValidExactlyWhenAllPassed | lib/Validate.jsx:13-19 | a scan resolves with a loosely-null value exactly when there is at least one rule and every handle passed, and then with the last handle's value |
| Scan.PendingBlocksAllPass | lib/Validate.jsx:13-19 | while one handle is pending and every other one passed, no scan decides: the all-pass result waits for the last rule |
| Scan.DecisionStable | lib/Validate.jsx:10-19 | handles only leave the pending state, so once a scan can decide, every later scan decides the same value |
| Scan.RejectionNeverDecides | lib/Validate.jsx:11-19 | a rejection never turns an undecided pass into a decided one, so scanning only on fulfilment misses no decision |
| Scan.RejectionBlocks | lib/Validate.jsx:13-17 | a rejected handle with no fulfilled failure before it leaves the pass undecided |
| Scan.BlockedForever | lib/Validate.jsx:11-17 | once a handle is rejected and every handle before it passed, no later state of the pass is decided |
| Settlement.Initial | lib/Validate.jsx:9 | starting the rules gives one pending handle per rule |
| Settlement.Step | lib/Validate.jsx:10-11 | a settlement changes only its own handle, and only if that handle was pending |
| Settlement.Apply | lib/Validate.jsx:10-11 | a run of settlements only moves handles out of the pending state |
| Settlement.ApplyAt | lib/Validate.jsx:10-11 | after a run, each handle holds the first settlement delivered to it if it was pending, and is unchanged otherwise |
| Settlement.SettlementOrderIrrelevant | lib/Validate.jsx:10-19 | two runs that deliver the same first settlement to each handle reach the same states and the same decision, whatever the order |
| Settlement.FirstSettlementOfDistinct | lib/Validate.jsx:10-11 | when each handle settles at most once, the first settlement of a handle is the one delivered to it |
| Settlement.PermutedSettlementsAgree | lib/Validate.jsx:10-19 | any reordering of the same settlements leads to the same states and the same decision |
| Settlement.DecisionNeverChanges | lib/Validate.jsx:16-19 | once decided, no further settlements change the decision |
| Settlement.EmptyPassNeverResolves | lib/Validate.jsx:9-10 | with no rules no settlement ever decides the pass |
| Settlement.EarlierSlowFailureWins | lib/Validate.jsx:12-19 | a fast failure of rule 1 decides nothing while rule 0 is pending; rule 0's later failure is what the pass reports |
| Settlement.AllPassWaitsForSlowest | lib/Validate.jsx:12-19 | with two passing rules, the pass is undecided after the first passes and resolves with the second's value (undefined here) once it passes |
| And.Pass.Start | lib/Validate.jsx:7-9 | a new pass has one pending handle per rule and has not resolved |
| And.Pass.ScanPassed | lib/Validate.jsx:12-15 | the scan loop returns the index where the passed prefix ends |
| And.Pass.Settle | lib/Validate.jsx:11-24 | a settlement updates its pending handle; only a fulfilment scans; the pass resolves at most once, with the current decision; the pass has resolved exactly when its states are decided |
| And.RunPass | lib/Validate.jsx:5-28 | a whole pass resolves with the decision of the states its settlements lead to |
| Validate.ResponseFor | lib/Validate.jsx:77-86 | the final record is shown, is valid exactly when the result is loosely null (with a null error), and otherwise is invalid with the result as its error |
| Validate.ResponseForRoundTrip | lib/Validate.jsx:52-58 | the failure can be read back from the record; only the difference between null and undefined is lost; the final record is never the in-progress record |
| Validate.ResponseForInjective | lib/Validate.jsx:77-86 | two results give the same record exactly when both are loosely null or they are equal |
| Validate.ValidateResponses | lib/Validate.jsx:75-86 | `validate` reports the in-progress record first, and a second, final record exactly when the pass resolves |
| Validate.ValidateReportsFirstFailure | lib/Validate.jsx:77-86 | the final record is `{valid: true, error: null, showValidation: true}` exactly when there are rules and all passed, and invalid with error `v` exactly when `v` is the failure of a rule all of whose predecessors passed |
| Validate.Input | lib/Validate.jsx:66-73 | the input element is the first child, or absent when there are no children |
| Validate.Rules | lib/Validate.jsx:37 | the rules are the children after the first, in order |
| Validate.ChildrenSplit | lib/Validate.jsx:66-73 | the input followed by the rules is exactly the list of children (`Validate.ChildList`, the `children` getter of lines 66-69); a single child is the input and leaves no rules |

## Left out

- The React component around the core (constructor wiring, `render`, `cloneElement`, `componentWillUnmount`): framework glue with no state of its own to verify.
- The Rx pipeline (`debounce(500)`, `startWith`, `flatMapLatest`): timing and stream concurrency inside a library. Of it, the model keeps only that each pass is independent; that only the latest pass's record is forwarded is not modelled.
- `onInputChange` and `mergeFunctions`: they only call opaque callbacks (`onValidation`, the user's `onChange`). The record `onInputChange` sends is `{valid: null, error: null, showValidation: false}`; it is not modelled.
- Promise scheduling: the model runs a settlement and its scan as one atomic step. In the library the fulfilment callback runs later, when other handles may have settled too; a state only becomes decided at a fulfilment (`Scan.RejectionNeverDecides`), whose callback then scans that state or a later one, and by `Scan.DecisionStable` such a later scan decides the same value.
- Repeated calls to `resolve`: modelled as write-once; the promise ignores later calls.
- The rules themselves: opaque functions, modelled only through the outcome their handle settles with.
- A rule that throws or returns something without `.then`: the promise executor throws and the whole pass rejects; the model assumes every rule yields a promise handle.
- Handles without `isFulfilled()`/`value()` (a native Promise, as any `async` rule returns, or another thenable): the model assumes every handle supports them; such a handle gets past `.then`, but every scan that reaches its index throws inside the callback, so it behaves as `Rejected` once the scan reaches it, even when it fulfils with null.
- What happens when a pass rejects or never resolves downstream (an unhandled rejection in the stream): not modelled.
- Error descriptors are modelled as strings; any other non-null value behaves the same in every branch of the code.
