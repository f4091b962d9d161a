/** Settlement events and the states they lead to. Every evaluation handle
    settles at most once; a sequence of events, delivered in any order,
    drives the evaluation states of one pass. */
module Settlement {
  import opened Options
  import opened JsValues
  import opened Scan

  /** How an evaluation handle settles. */
  datatype Outcome = Fulfil(value: JsValue) | Reject

  /** Evaluation `index` settles with `outcome`. */
  datatype Event = Event(index: nat, outcome: Outcome)

  function Settled(o: Outcome): (e: Evaluation)
    ensures !e.Pending?
  {
    match o
    case Fulfil(v) => Fulfilled(v)
    case Reject => Rejected
  }

  /** The states right after `and` has started every rule: all pending. */
  function Initial(ruleCount: nat): (s: seq<Evaluation>)
    ensures |s| == ruleCount && forall i :: 0 <= i < ruleCount ==> s[i].Pending?
  {
    seq(ruleCount, _ => Pending)
  }

  /** One event: a pending handle takes its outcome; a handle that has
      already settled ignores any later settlement. */
  function Step(s: seq<Evaluation>, e: Event): (t: seq<Evaluation>)
    ensures Refines(s, t)
    ensures e.index < |s| && s[e.index].Pending? ==> t[e.index] == Settled(e.outcome)
    ensures forall i :: 0 <= i < |s| && i != e.index ==> t[i] == s[i]
  {
    if e.index < |s| && s[e.index].Pending? then s[e.index := Settled(e.outcome)] else s
  }

  /** The events delivered in the given order. */
  function Apply(s: seq<Evaluation>, events: seq<Event>): (t: seq<Evaluation>)
    ensures Refines(s, t)
    decreases |events|
  {
    if events == [] then s
    else
      var t := Apply(Step(s, events[0]), events[1..]);
      RefinesTransitive(s, Step(s, events[0]), t);
      t
  }

  /** Delivering one more event extends the run by one step. */
  lemma {:induction false} ApplyAppend(s: seq<Evaluation>, events: seq<Event>, e: Event)
    ensures Apply(s, events + [e]) == Step(Apply(s, events), e)
    decreases |events|
  {
    if events == [] {
      assert [] + [e] == [e];
      assert Apply(s, [e]) == Apply(Step(s, e), []);
    } else {
      assert (events + [e])[1..] == events[1..] + [e];
      ApplyAppend(Step(s, events[0]), events[1..], e);
    }
  }

  /** The first settlement delivered for evaluation `k`, if any. */
  function FirstSettlement(events: seq<Event>, k: nat): (o: Option<Outcome>)
    ensures o.Some? ==> Event(k, o.value) in events
  {
    if events == [] then None
    else if events[0].index == k then Some(events[0].outcome)
    else FirstSettlement(events[1..], k)
  }

  /** After a run, each entry is the first settlement delivered for it if it
      was pending, and unchanged otherwise: later settlements are ignored. */
  lemma {:induction false} ApplyAt(s: seq<Evaluation>, events: seq<Event>, k: nat)
    requires k < |s|
    ensures Apply(s, events)[k] ==
      if s[k].Pending? && FirstSettlement(events, k).Some?
      then Settled(FirstSettlement(events, k).value)
      else s[k]
    decreases |events|
  {
    if events != [] {
      ApplyAt(Step(s, events[0]), events[1..], k);
    }
  }

  /** Order independence: two runs that deliver the same first settlement to
      every evaluation reach the same states, hence the same decision. */
  lemma SettlementOrderIrrelevant(s: seq<Evaluation>, e1: seq<Event>, e2: seq<Event>)
    requires forall k: nat :: FirstSettlement(e1, k) == FirstSettlement(e2, k)
    ensures Apply(s, e1) == Apply(s, e2)
    ensures Decision(Apply(s, e1)) == Decision(Apply(s, e2))
  {
    forall k | 0 <= k < |s| ensures Apply(s, e1)[k] == Apply(s, e2)[k] {
      ApplyAt(s, e1, k);
      ApplyAt(s, e2, k);
    }
  }

  /** Each evaluation settles at most once. */
  predicate DistinctIndices(events: seq<Event>)
  {
    forall i, j :: 0 <= i < j < |events| ==> events[i].index != events[j].index
  }

  /** Without repeated settlements, the first settlement for `k` is simply
      the one delivered for `k`. */
  lemma {:induction false} FirstSettlementOfDistinct(events: seq<Event>, k: nat, o: Outcome)
    requires DistinctIndices(events)
    ensures FirstSettlement(events, k) == Some(o) <==> Event(k, o) in events
    decreases |events|
  {
    if events != [] && Event(k, o) in events && events[0] != Event(k, o) {
      var i :| 0 <= i < |events| && events[i] == Event(k, o);
      assert i != 0;
      assert events[1..][i - 1] == Event(k, o);
      FirstSettlementOfDistinct(events[1..], k, o);
    }
  }

  /** Any permutation of the same settlements leads to the same states and
      the same decision. */
  lemma PermutedSettlementsAgree(s: seq<Evaluation>, e1: seq<Event>, e2: seq<Event>)
    requires DistinctIndices(e1) && DistinctIndices(e2)
    requires multiset(e1) == multiset(e2)
    ensures Apply(s, e1) == Apply(s, e2)
    ensures Decision(Apply(s, e1)) == Decision(Apply(s, e2))
  {
    forall k: nat ensures FirstSettlement(e1, k) == FirstSettlement(e2, k) {
      var f1, f2 := FirstSettlement(e1, k), FirstSettlement(e2, k);
      if f1.Some? {
        assert Event(k, f1.value) in multiset(e1);
        FirstSettlementOfDistinct(e2, k, f1.value);
      }
      if f2.Some? {
        assert Event(k, f2.value) in multiset(e2);
        FirstSettlementOfDistinct(e1, k, f2.value);
      }
    }
    SettlementOrderIrrelevant(s, e1, e2);
  }

  /** Write-once decision: once the states of a pass are decided, no further
      settlement changes the outcome. */
  lemma DecisionNeverChanges(s: seq<Evaluation>, events: seq<Event>)
    requires Decision(s).Some?
    ensures Decision(Apply(s, events)) == Decision(s)
  {
    DecisionStable(s, Apply(s, events));
  }

  /** Empty rule list: no event can decide a pass that has no evaluations. */
  lemma EmptyPassNeverResolves(events: seq<Event>)
    ensures Decision(Apply([], events)).None?
  {
    assert |Apply([], events)| == 0;
  }

  /** A slow failure of rule 0 wins over a fast failure of rule 1: the
      fast one alone decides nothing. */
  lemma EarlierSlowFailureWins()
    ensures Decision(Apply(Initial(2), [Event(1, Fulfil(Descriptor("fast")))])).None?
    ensures Decision(Apply(Initial(2), [Event(1, Fulfil(Descriptor("fast"))), Event(0, Fulfil(Descriptor("slow")))]))
            == Some(Descriptor("slow"))
  {
    var fast, slow := Event(1, Fulfil(Descriptor("fast"))), Event(0, Fulfil(Descriptor("slow")));
    var afterFast := [Pending, Fulfilled(Descriptor("fast"))];
    assert Apply(Initial(2), [fast]) == afterFast by {
      assert Step(Initial(2), fast) == afterFast;
    }
    ApplyAppend(Initial(2), [fast], slow);
    assert [fast] + [slow] == [fast, slow];
    assert ScanIndex(afterFast) == 0;
    var both := [Fulfilled(Descriptor("slow")), Fulfilled(Descriptor("fast"))];
    assert Step(afterFast, slow) == both;
    assert ScanIndex(both) == 0;
  }

  /** Two rules that both pass: after the first one passes the pass is still
      undecided; once the second passes it resolves with the second's value. */
  lemma AllPassWaitsForSlowest()
    ensures Decision(Apply(Initial(2), [Event(0, Fulfil(Null))])).None?
    ensures Decision(Apply(Initial(2), [Event(0, Fulfil(Null)), Event(1, Fulfil(Undefined))])) == Some(Undefined)
  {
    var quick, slow := Event(0, Fulfil(Null)), Event(1, Fulfil(Undefined));
    var afterQuick := [Fulfilled(Null), Pending];
    assert Apply(Initial(2), [quick]) == afterQuick by {
      assert Step(Initial(2), quick) == afterQuick;
    }
    ApplyAppend(Initial(2), [quick], slow);
    assert [quick] + [slow] == [quick, slow];
    assert ScanIndex(afterQuick) == 1 by {
      assert ScanIndex(afterQuick[1..]) == 0;
    }
    var both := [Fulfilled(Null), Fulfilled(Undefined)];
    assert Step(afterQuick, slow) == both;
    ScanIndexUnique(both, 2);
  }
}
