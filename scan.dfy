/** The scan-and-decide step of `and`: which evaluation a scan over the
    current states reports, stated once as the code computes it (ScanIndex,
    Decision) and once declaratively (Reports), with the properties that
    make the composition safe: priority by position, stability, and the
    cases that never resolve. */
module Scan {
  import opened Options
  import opened JsValues

  /** The observable state of one rule's evaluation handle, as far as
      `isFulfilled()` and `value()` reveal it. */
  datatype Evaluation = Pending | Fulfilled(value: JsValue) | Rejected

  /** The scan may step over this entry: fulfilled, with a value loosely equal to null. */
  predicate Passed(e: Evaluation)
  {
    e.Fulfilled? && LooselyNull(e.value)
  }

  predicate AllPassed(s: seq<Evaluation>)
  {
    forall i :: 0 <= i < |s| ==> Passed(s[i])
  }

  /** Where the scan loop stops: it has stepped over exactly the passed prefix. */
  function ScanIndex(s: seq<Evaluation>): (i: nat)
    ensures i <= |s|
    ensures forall j :: 0 <= j < i ==> Passed(s[j])
    ensures i < |s| ==> !Passed(s[i])
  {
    if |s| == 0 || !Passed(s[0]) then 0 else 1 + ScanIndex(s[1..])
  }

  /** The stop conditions of the scan pin down a single index. */
  lemma ScanIndexUnique(s: seq<Evaluation>, i: nat)
    requires i <= |s|
    requires forall j :: 0 <= j < i ==> Passed(s[j])
    requires i < |s| ==> !Passed(s[i])
    ensures i == ScanIndex(s)
  {
  }

  /** What one scan concludes: `Some(v)` when it calls `resolve(v)`, `None`
      when it keeps waiting. With no evaluations no scan ever runs. */
  function Decision(s: seq<Evaluation>): (d: Option<JsValue>)
    ensures |s| == 0 ==> d.None?
    ensures d.Some? ==> exists j :: 0 <= j < |s| && s[j] == Fulfilled(d.value)
  {
    if |s| == 0 then None
    else
      var i := ScanIndex(s);
      var firstRelevant := if i < |s| then s[i] else s[|s| - 1];
      if firstRelevant.Fulfilled? then Some(firstRelevant.value) else None
  }

  /** Declarative reading of the outcome: entry `j` is reported with `v` when
      every entry before it passed, it is fulfilled with `v`, and `v` is a
      failure unless `j` is the last entry. */
  ghost predicate Reports(s: seq<Evaluation>, j: int, v: JsValue)
  {
    && 0 <= j < |s|
    && (forall i :: 0 <= i < j ==> Passed(s[i]))
    && s[j] == Fulfilled(v)
    && (j == |s| - 1 || !LooselyNull(v))
  }

  /** A scan resolves with `v` exactly when some entry is reported with `v`. */
  lemma DecisionReports(s: seq<Evaluation>, v: JsValue)
    ensures Decision(s) == Some(v) <==> exists j :: Reports(s, j, v)
  {
    if Decision(s) == Some(v) {
      var i := ScanIndex(s);
      var j := if i < |s| then i else |s| - 1;
      assert Reports(s, j, v);
    }
    if j :| Reports(s, j, v) {
      if LooselyNull(v) {
        assert j == |s| - 1;
        ScanIndexUnique(s, |s|);
      } else {
        ScanIndexUnique(s, j);
      }
    }
  }

  /** At most one entry is ever reported, with one value. */
  lemma ReportsUnique(s: seq<Evaluation>, j: int, v: JsValue, j': int, v': JsValue)
    requires Reports(s, j, v) && Reports(s, j', v')
    ensures j == j' && v == v'
  {
  }

  /** Priority: while entry `p` is pending (or rejected), no entry at or after
      `p` is reported; whatever is decided comes from an earlier entry. */
  lemma NoPreemption(s: seq<Evaluation>, p: nat)
    requires p < |s| && !s[p].Fulfilled?
    ensures Decision(s).Some? ==> exists j :: 0 <= j < p && Reports(s, j, Decision(s).value)
  {
    if Decision(s).Some? {
      DecisionReports(s, Decision(s).value);
      var j :| Reports(s, j, Decision(s).value);
    }
  }

  /** All pass: a pass resolves with a value loosely equal to null exactly
      when there is at least one rule and every evaluation passed; the value
      is then that of the last evaluation. */
  lemma ValidExactlyWhenAllPassed(s: seq<Evaluation>)
    ensures (Decision(s).Some? && LooselyNull(Decision(s).value)) <==> (|s| > 0 && AllPassed(s))
    ensures |s| > 0 && AllPassed(s) ==> Decision(s) == Some(s[|s| - 1].value)
  {
    if |s| > 0 && AllPassed(s) {
      ScanIndexUnique(s, |s|);
    }
    if Decision(s).Some? && LooselyNull(Decision(s).value) {
      DecisionReports(s, Decision(s).value);
      var j :| Reports(s, j, Decision(s).value);
      assert j == |s| - 1;
    }
  }

  /** All pass, still waiting: while one handle is pending and every other
      one has passed, no scan decides. */
  lemma PendingBlocksAllPass(s: seq<Evaluation>, p: nat)
    requires p < |s| && s[p].Pending?
    requires forall i :: 0 <= i < |s| && i != p ==> Passed(s[i])
    ensures Decision(s).None?
  {
    NoPreemption(s, p);
  }

  /** `t` is a later state of the same evaluations: entries only leave Pending. */
  predicate Refines(s: seq<Evaluation>, t: seq<Evaluation>)
  {
    |s| == |t| && forall i :: 0 <= i < |s| ==> s[i].Pending? || t[i] == s[i]
  }

  lemma RefinesTransitive(s: seq<Evaluation>, t: seq<Evaluation>, u: seq<Evaluation>)
    requires Refines(s, t) && Refines(t, u)
    ensures Refines(s, u)
  {
  }

  /** Stability: once a scan can decide, every later scan decides the same. */
  lemma DecisionStable(s: seq<Evaluation>, t: seq<Evaluation>)
    requires Refines(s, t) && Decision(s).Some?
    ensures Decision(t) == Decision(s)
  {
    var v := Decision(s).value;
    DecisionReports(s, v);
    var j :| Reports(s, j, v);
    assert Reports(t, j, v) by {
      forall i | 0 <= i < j ensures Passed(t[i]) {
        assert Passed(s[i]);
      }
    }
    DecisionReports(t, v);
  }

  /** A rejection never makes an undecided state decided, which is why only
      fulfilments need to trigger a scan. */
  lemma RejectionNeverDecides(s: seq<Evaluation>, k: nat)
    requires k < |s| && s[k].Pending? && Decision(s).None?
    ensures Decision(s[k := Rejected]).None?
  {
    var t := s[k := Rejected];
    if Decision(t).Some? {
      var v := Decision(t).value;
      DecisionReports(t, v);
      var j :| Reports(t, j, v);
      forall i | 0 <= i < j ensures Passed(s[i]) {
        assert Passed(t[i]);
      }
      assert Reports(s, j, v);
      DecisionReports(s, v);
    }
  }

  /** A rejected entry with no fulfilled failure before it blocks every scan. */
  lemma RejectionBlocks(s: seq<Evaluation>, k: nat)
    requires k < |s| && s[k].Rejected?
    requires forall i :: 0 <= i < k ==> !(s[i].Fulfilled? && !LooselyNull(s[i].value))
    ensures Decision(s).None?
  {
    if Decision(s).Some? {
      var v := Decision(s).value;
      DecisionReports(s, v);
    }
  }

  /** Non-resolution: once an entry is rejected and every entry before it has
      passed, no later state of the pass is ever decided. */
  lemma BlockedForever(s: seq<Evaluation>, k: nat, t: seq<Evaluation>)
    requires k < |s| && s[k].Rejected?
    requires forall i :: 0 <= i < k ==> Passed(s[i])
    requires Refines(s, t)
    ensures Decision(t).None?
  {
    RejectionBlocks(t, k);
  }
}
