/** The pure parts of the Validate component: the validation record it
    reports, the mapping from a pass's result to that record, and the split
    of its children into the input element and the rules. */
module Validate {
  import opened Options
  import opened JsValues
  import opened Scan

  /** `{valid, error, showValidation}` as built by `buildValidationResponse`;
      `valid == None` stands for JavaScript's null, "not known yet". */
  datatype ValidationResponse = ValidationResponse(valid: Option<bool>, error: JsValue, showValidation: bool)

  /** Reported when `validate` starts a pass, before any rule has answered. */
  const Validating := ValidationResponse(None, Null, true)

  /** The record `validate` maps the pass's result to: valid when the result
      is loosely null, otherwise invalid with the result as the error. */
  function ResponseFor(result: JsValue): (r: ValidationResponse)
    ensures r.showValidation && r.valid.Some?
    ensures r.valid == Some(true) <==> LooselyNull(result)
    ensures r.valid == Some(true) ==> r.error == Null
    ensures r.valid == Some(false) ==> r.error == result
  {
    if LooselyNull(result) then ValidationResponse(Some(true), Null, true)
    else ValidationResponse(Some(false), result, true)
  }

  /** What a consumer of a response can recover of the pass's result. */
  function ReportedError(r: ValidationResponse): JsValue
  {
    if r.valid == Some(false) then r.error else Null
  }

  /** The mapping keeps every failure and forgets only the difference
      between null and undefined. */
  lemma ResponseForRoundTrip(result: JsValue)
    ensures ReportedError(ResponseFor(result)) == if LooselyNull(result) then Null else result
    ensures ResponseFor(result) != Validating
  {
  }

  lemma ResponseForInjective(a: JsValue, b: JsValue)
    ensures ResponseFor(a) == ResponseFor(b) <==> (LooselyNull(a) && LooselyNull(b)) || a == b
  {
    ResponseForRoundTrip(a);
    ResponseForRoundTrip(b);
  }

  /** The records `validate` hands to `onValidation` and to its caller for
      one pass: `Validating` at once, then the final record if the pass resolves. */
  function ValidateResponses(decision: Option<JsValue>): (rs: seq<ValidationResponse>)
    ensures 1 <= |rs| <= 2 && rs[0] == Validating
    ensures |rs| == 2 <==> decision.Some?
    ensures |rs| == 2 ==> rs[1].showValidation && rs[1].valid.Some?
  {
    match decision
    case None => [Validating]
    case Some(v) => [Validating, ResponseFor(v)]
  }

  /** End to end over the evaluation states of a pass: the final record says
      valid exactly when there are rules and every one of them passed, and
      says invalid with error `v` exactly when `v` is the outcome of a failed
      rule every earlier rule of which passed. */
  lemma ValidateReportsFirstFailure(s: seq<Evaluation>, v: JsValue)
    ensures (|ValidateResponses(Decision(s))| == 2
             && ValidateResponses(Decision(s))[1] == ValidationResponse(Some(true), Null, true))
            <==> (|s| > 0 && AllPassed(s))
    ensures (|ValidateResponses(Decision(s))| == 2
             && ValidateResponses(Decision(s))[1] == ValidationResponse(Some(false), v, true))
            <==> (!LooselyNull(v) && exists j :: Reports(s, j, v))
  {
    ValidExactlyWhenAllPassed(s);
    DecisionReports(s, v);
  }

  /** The `children` prop: React passes a single child as itself, several as an array. */
  datatype Children<T> = Many(items: seq<T>) | One(item: T)

  /** The `children` getter: a single child becomes a one-element list. */
  function ChildList<T>(c: Children<T>): seq<T>
  {
    match c
    case Many(items) => items
    case One(item) => [item]
  }

  /** The `input` getter: the first child; JavaScript's `undefined` when there are none. */
  function Input<T>(c: Children<T>): (input: Option<T>)
    ensures input.None? <==> ChildList(c) == []
    ensures input.Some? ==> input.value == ChildList(c)[0]
  {
    var cs := ChildList(c);
    if |cs| == 0 then None else Some(cs[0])
  }

  /** The rules: every child after the first, in order (`slice(1)`). */
  function Rules<T>(c: Children<T>): (rules: seq<T>)
    ensures |rules| == if ChildList(c) == [] then 0 else |ChildList(c)| - 1
    ensures forall i :: 0 <= i < |rules| ==> rules[i] == ChildList(c)[i + 1]
  {
    var cs := ChildList(c);
    if |cs| == 0 then [] else cs[1..]
  }

  /** The input and the rules together are exactly the children, in order;
      a single child is the input and leaves no rules. */
  lemma ChildrenSplit<T>(c: Children<T>)
    ensures Input(c).Some? ==> ChildList(c) == [Input(c).value] + Rules(c)
    ensures Input(c).None? ==> Rules(c) == []
    ensures c.One? ==> Input(c) == Some(c.item) && Rules(c) == []
  {
    if Input(c).Some? {
      assert ChildList(c) == [ChildList(c)[0]] + ChildList(c)[1..];
    }
  }
}
