/** One pass of `and(rules)(value)`: the evaluation handles of every rule,
    started together, and the promise that the pass resolves once a scan
    over them can decide. */
module And {
  import opened Options
  import opened JsValues
  import opened Scan
  import opened Settlement

  class Pass {
    /** The evaluation handle of each rule, in rule order. */
    var evaluations: array<Evaluation>
    /** The value given to `resolve`; the first call wins, later calls are ignored. */
    var resolved: Option<JsValue>

    /** The pass has resolved exactly when the current states are decided,
        and then with the decided value. */
    ghost predicate Valid()
      reads this, evaluations
    {
      resolved == Decision(evaluations[..])
    }

    /** Starts every rule at once against the same value: one pending handle per rule. */
    constructor Start(ruleCount: nat)
      ensures Valid() && fresh(evaluations)
      ensures evaluations[..] == Initial(ruleCount) && resolved == None
    {
      var handles := new Evaluation[ruleCount](_ => Pending);
      assert ruleCount > 0 ==> ScanIndex(handles[..]) == 0;
      evaluations := handles;
      resolved := None;
    }

    /** The scan loop: steps over the handles that are fulfilled with a value
        loosely equal to null, from index 0. */
    method ScanPassed() returns (index: nat)
      ensures index <= evaluations.Length
      ensures forall j :: 0 <= j < index ==> Passed(evaluations[j])
      ensures index < evaluations.Length ==> !Passed(evaluations[index])
      ensures index == ScanIndex(evaluations[..])
    {
      index := 0;
      while index < evaluations.Length && evaluations[index].Fulfilled? && LooselyNull(evaluations[index].value)
        invariant index <= evaluations.Length
        invariant forall j :: 0 <= j < index ==> Passed(evaluations[j])
      {
        index := index + 1;
      }
      ScanIndexUnique(evaluations[..], index);
    }

    /** Handle `k` settles with `outcome`. Only a fulfilment runs the scan
        (no rejection handler is registered); the scan resolves the pass with
        the first relevant handle's value when that handle is fulfilled. */
    method Settle(k: nat, outcome: Outcome)
      requires Valid() && k < evaluations.Length
      modifies evaluations, this`resolved
      ensures Valid()
      ensures evaluations[..] == Step(old(evaluations[..]), Event(k, outcome))
      ensures old(resolved).Some? ==> resolved == old(resolved)
      ensures old(resolved).None? && outcome.Fulfil? && old(evaluations[k]).Pending? ==>
                resolved == Decision(evaluations[..])
      ensures !(outcome.Fulfil? && old(evaluations[k]).Pending?) ==> resolved == old(resolved)
    {
      if !evaluations[k].Pending? {
        return;
      }
      ghost var before := evaluations[..];
      match outcome
      case Reject =>
        evaluations[k] := Rejected;
        assert evaluations[..] == before[k := Rejected];
        if resolved.None? {
          RejectionNeverDecides(before, k);
        } else {
          DecisionStable(before, evaluations[..]);
        }
      case Fulfil(v) =>
        evaluations[k] := Fulfilled(v);
        assert evaluations[..] == before[k := Fulfilled(v)];
        var index := ScanPassed();
        var firstRelevant := if index < evaluations.Length then evaluations[index]
                             else evaluations[evaluations.Length - 1];
        if firstRelevant.Fulfilled? && resolved.None? {
          resolved := Some(firstRelevant.value);
        }
        if old(resolved).Some? {
          DecisionStable(before, evaluations[..]);
        }
    }
  }

  /** A whole pass over `ruleCount` rules, with the settlements delivered in
      the given order; the result is what the pass has resolved with, if anything. */
  method RunPass(ruleCount: nat, settlements: seq<Event>) returns (result: Option<JsValue>)
    requires forall e :: e in settlements ==> e.index < ruleCount
    ensures result == Decision(Apply(Initial(ruleCount), settlements))
  {
    var pass := new Pass.Start(ruleCount);
    for i := 0 to |settlements|
      invariant fresh(pass.evaluations)
      invariant pass.Valid() && pass.evaluations.Length == ruleCount
      invariant pass.evaluations[..] == Apply(Initial(ruleCount), settlements[..i])
    {
      ApplyAppend(Initial(ruleCount), settlements[..i], settlements[i]);
      assert settlements[..i + 1] == settlements[..i] + [settlements[i]];
      pass.Settle(settlements[i].index, settlements[i].outcome);
    }
    assert settlements[..|settlements|] == settlements;
    result := pass.resolved;
  }
}
