/** The reuse decisions of the keyed list update (src/core.ts:193-214), apart from their
    effects: for each new vnode in order, the first remaining old entry with the same
    `(key, type)`, which then leaves the pool. The pool holds positions in the old list,
    so it is exactly the source's spliced copy of `refList`. */
module ListMatch {
  import opened Options
  import opened Vnodes

  predicate PoolOk(pool: seq<nat>, n: nat) {
    forall i :: 0 <= i < |pool| ==> pool[i] < n
  }

  predicate Increasing(s: seq<nat>) {
    forall i, j :: 0 <= i < j < |s| ==> s[i] < s[j]
  }

  /** `refList.find(...)`: the position in the pool of the first old vnode matching `v`,
      or `|pool|` when none does. */
  function FirstMatch(olds: seq<Vnode>, pool: seq<nat>, v: Vnode): (k: nat)
    requires PoolOk(pool, |olds|)
    ensures k <= |pool|
    ensures k < |pool| ==> SameKeyType(v, olds[pool[k]])
    ensures forall k' :: 0 <= k' < k ==> !SameKeyType(v, olds[pool[k']])
  {
    if |pool| == 0 then 0
    else if SameKeyType(v, olds[pool[0]]) then 0
    else 1 + FirstMatch(olds, pool[1..], v)
  }

  /** `refList.splice(k, 1)`. */
  function Drop(pool: seq<nat>, k: nat): (r: seq<nat>)
    requires k < |pool|
    ensures |r| == |pool| - 1
  {
    pool[..k] + pool[k + 1..]
  }

  /** For each new vnode, the old position it reuses (or `None`: mounted fresh), and the
      old positions nobody reused, in old order. */
  datatype Plan = Plan(picks: seq<Option<nat>>, leftover: seq<nat>)

  /** The old position the vnode `v` reuses out of `pool`. */
  function Pick(olds: seq<Vnode>, pool: seq<nat>, v: Vnode): (o: Option<nat>)
    requires PoolOk(pool, |olds|)
    ensures o.Some? ==> o.value in pool && o.value < |olds| && SameKeyType(v, olds[o.value])
  {
    var k := FirstMatch(olds, pool, v);
    if k < |pool| then Some(pool[k]) else None
  }

  /** The pool left for the vnodes after `v`. */
  function Remaining(olds: seq<Vnode>, pool: seq<nat>, v: Vnode): (r: seq<nat>)
    requires PoolOk(pool, |olds|)
    ensures PoolOk(r, |olds|)
  {
    var k := FirstMatch(olds, pool, v);
    if k < |pool| then Drop(pool, k) else pool
  }

  function PlanFrom(olds: seq<Vnode>, pool: seq<nat>, news: seq<Vnode>): (pl: Plan)
    requires PoolOk(pool, |olds|)
    ensures |pl.picks| == |news|
    decreases |news|
  {
    if |news| == 0 then Plan([], pool)
    else
      var rest := PlanFrom(olds, Remaining(olds, pool, news[0]), news[1..]);
      Plan([Pick(olds, pool, news[0])] + rest.picks, rest.leftover)
  }

  /** The plan for a non-empty run of new vnodes: the first one's pick, then the plan of
      the rest out of what the first one leaves. */
  lemma PlanFromCons(olds: seq<Vnode>, pool: seq<nat>, news: seq<Vnode>)
    requires PoolOk(pool, |olds|) && |news| > 0
    ensures var pl := PlanFrom(olds, pool, news);
      var rest := PlanFrom(olds, Remaining(olds, pool, news[0]), news[1..]);
      && pl.picks[0] == Pick(olds, pool, news[0]) && pl.leftover == rest.leftover
      && forall i :: 1 <= i < |news| ==> pl.picks[i] == rest.picks[i - 1]
  {
  }

  function Iota(n: nat): (r: seq<nat>)
    ensures |r| == n && forall i :: 0 <= i < n ==> r[i] == i
  {
    if n == 0 then [] else Iota(n - 1) + [n - 1]
  }

  /** The whole plan for an old list and a new one. */
  function MatchPlan(olds: seq<Vnode>, news: seq<Vnode>): Plan {
    PlanFrom(olds, Iota(|olds|), news)
  }

  /** Old position `j` has been reused by one of the first `i` new vnodes. */
  predicate UsedBefore(picks: seq<Option<nat>>, i: nat, j: nat)
    requires i <= |picks|
  {
    Some(j) in picks[..i]
  }

  lemma DropFacts(pool: seq<nat>, k: nat)
    requires k < |pool| && Increasing(pool)
    ensures Increasing(Drop(pool, k))
    ensures forall x :: x in Drop(pool, k) <==> x in pool && x != pool[k]
  {
    var d := Drop(pool, k);
    forall x | x in pool && x != pool[k] ensures x in d {
      var i :| 0 <= i < |pool| && pool[i] == x;
      if i < k {
        assert d[i] == x;
      } else {
        assert d[i - 1] == x;
      }
    }
    forall i, j | 0 <= i < j < |d| ensures d[i] < d[j] {
      var i' := if i < k then i else i + 1;
      var j' := if j < k then j else j + 1;
      assert d[i] == pool[i'] && d[j] == pool[j'];
    }
  }

  /** One step of the plan: the pick leaves the pool and nothing else does; a pool entry
      below the pick, or any entry when there is no pick, does not match. */
  lemma StepFacts(olds: seq<Vnode>, pool: seq<nat>, v: Vnode)
    requires PoolOk(pool, |olds|) && Increasing(pool)
    ensures var o, r := Pick(olds, pool, v), Remaining(olds, pool, v);
      && Increasing(r)
      && (forall x :: x in r <==> x in pool && o != Some(x))
      && (forall x :: x in pool && (o.None? || x < o.value) ==> !SameKeyType(v, olds[x]))
  {
    var k := FirstMatch(olds, pool, v);
    if k < |pool| {
      DropFacts(pool, k);
    }
    forall x | x in pool && (Pick(olds, pool, v).None? || x < Pick(olds, pool, v).value)
      ensures !SameKeyType(v, olds[x])
    {
      var t :| 0 <= t < |pool| && pool[t] == x;
    }
  }

  /** Every reuse takes an entry of the pool with the same `(key, type)`. */
  lemma {:induction false} PlanPicksMatch(olds: seq<Vnode>, pool: seq<nat>, news: seq<Vnode>)
    requires PoolOk(pool, |olds|) && Increasing(pool)
    ensures var pl := PlanFrom(olds, pool, news);
      forall i :: 0 <= i < |news| && pl.picks[i].Some? ==>
        pl.picks[i].value in pool && SameKeyType(news[i], olds[pl.picks[i].value])
    decreases |news|
  {
    if |news| > 0 {
      var pool' := Remaining(olds, pool, news[0]);
      StepFacts(olds, pool, news[0]);
      PlanPicksMatch(olds, pool', news[1..]);
      PlanFromCons(olds, pool, news);
      var pl := PlanFrom(olds, pool, news);
      var rest := PlanFrom(olds, pool', news[1..]);
      forall i | 0 <= i < |news| && pl.picks[i].Some?
        ensures pl.picks[i].value in pool && SameKeyType(news[i], olds[pl.picks[i].value])
      {
        if i > 0 {
          assert pl.picks[i] == rest.picks[i - 1] && news[i] == news[1..][i - 1];
          assert rest.picks[i - 1].value in pool';
        }
      }
    }
  }

  predicate NoRepeats(picks: seq<Option<nat>>) {
    forall i, i' :: 0 <= i < i' < |picks| && picks[i].Some? ==> picks[i'] != picks[i]
  }

  /** No old entry is reused twice. */
  lemma {:induction false} PlanPicksDistinct(olds: seq<Vnode>, pool: seq<nat>, news: seq<Vnode>)
    requires PoolOk(pool, |olds|) && Increasing(pool)
    ensures NoRepeats(PlanFrom(olds, pool, news).picks)
    decreases |news|
  {
    if |news| > 0 {
      var pool' := Remaining(olds, pool, news[0]);
      StepFacts(olds, pool, news[0]);
      PlanPicksDistinct(olds, pool', news[1..]);
      PlanPicksMatch(olds, pool', news[1..]);
      PlanFromCons(olds, pool, news);
      var pl := PlanFrom(olds, pool, news);
      var rest := PlanFrom(olds, pool', news[1..]);
      forall i, i' | 0 <= i < i' < |news| && pl.picks[i].Some?
        ensures pl.picks[i'] != pl.picks[i]
      {
        assert pl.picks[i'] == rest.picks[i' - 1];
        if i > 0 {
          assert pl.picks[i] == rest.picks[i - 1];
        }
      }
    }
  }

  /** The entries nobody reused, in pool order. */
  lemma {:induction false} PlanLeftover(olds: seq<Vnode>, pool: seq<nat>, news: seq<Vnode>)
    requires PoolOk(pool, |olds|) && Increasing(pool)
    ensures var pl := PlanFrom(olds, pool, news);
      Increasing(pl.leftover) && forall j :: j in pl.leftover <==> j in pool && Some(j) !in pl.picks
    decreases |news|
  {
    if |news| > 0 {
      var pool' := Remaining(olds, pool, news[0]);
      StepFacts(olds, pool, news[0]);
      PlanLeftover(olds, pool', news[1..]);
      var pl := PlanFrom(olds, pool, news);
      var rest := PlanFrom(olds, pool', news[1..]);
      var first := Pick(olds, pool, news[0]);
      assert pl.picks == [first] + rest.picks;
      forall j ensures j in pl.leftover <==> j in pool && Some(j) !in pl.picks {
        assert Some(j) in pl.picks <==> first == Some(j) || Some(j) in rest.picks;
      }
    }
  }

  /** Entry `j` is the first match of `news[i]` or below it, and still unreused. */
  predicate Candidate(olds: seq<Vnode>, pl: Plan, news: seq<Vnode>, i: int, j: nat)
    requires |pl.picks| == |news|
  {
    0 <= i < |news| && !UsedBefore(pl.picks, i, j) && (pl.picks[i].None? || j < pl.picks[i].value)
  }

  ghost predicate FirstMatchHolds(olds: seq<Vnode>, pool: seq<nat>, news: seq<Vnode>)
    requires PoolOk(pool, |olds|)
  {
    var pl := PlanFrom(olds, pool, news);
    forall i, j :: 0 <= i < |news| && j in pool && Candidate(olds, pl, news, i, j) ==> !SameKeyType(news[i], olds[j])
  }

  /** The inductive step of `PlanFirstMatch` for one pair `(i, j)`, with `i` past the head. */
  lemma FirstMatchTail(olds: seq<Vnode>, pool: seq<nat>, news: seq<Vnode>, i: nat, j: nat)
    requires PoolOk(pool, |olds|) && Increasing(pool) && |news| > 0 && 1 <= i
    requires FirstMatchHolds(olds, Remaining(olds, pool, news[0]), news[1..])
    requires j in pool && Candidate(olds, PlanFrom(olds, pool, news), news, i, j)
    ensures !SameKeyType(news[i], olds[j])
  {
    var pool' := Remaining(olds, pool, news[0]);
    var first := Pick(olds, pool, news[0]);
    var rest := PlanFrom(olds, pool', news[1..]);
    var pl := PlanFrom(olds, pool, news);
    assert pl.picks == [first] + rest.picks;
    assert pl.picks[..i] == [first] + rest.picks[..i - 1];
    assert first != Some(j) && Some(j) !in rest.picks[..i - 1];
    assert j in pool' by {
      StepFacts(olds, pool, news[0]);
    }
    assert pl.picks[i] == rest.picks[i - 1] && news[i] == news[1..][i - 1];
    assert Candidate(olds, rest, news[1..], i - 1, j);
  }

  /** Each decision takes the first matching entry not reused before it, and a vnode is
      mounted fresh only when no unreused entry matches it. */
  lemma {:induction false} PlanFirstMatch(olds: seq<Vnode>, pool: seq<nat>, news: seq<Vnode>)
    requires PoolOk(pool, |olds|) && Increasing(pool)
    ensures FirstMatchHolds(olds, pool, news)
    decreases |news|
  {
    if |news| > 0 {
      var pool' := Remaining(olds, pool, news[0]);
      StepFacts(olds, pool, news[0]);
      PlanFirstMatch(olds, pool', news[1..]);
      var pl := PlanFrom(olds, pool, news);
      forall i, j | 0 <= i < |news| && j in pool && Candidate(olds, pl, news, i, j)
        ensures !SameKeyType(news[i], olds[j])
      {
        if i == 0 {
          assert pl.picks[0] == Pick(olds, pool, news[0]);
        } else {
          FirstMatchTail(olds, pool, news, i, j);
        }
      }
    }
  }

  /** The keyed list's reuse decisions: one decision per new vnode, in new order; a reused
      old entry has the same `(key, type)` and is reused at most once; it is the first
      matching entry not already reused, and a new vnode is mounted fresh only when no
      unreused entry matches; the entries nobody reused are listed in old order. */
  lemma MatchPlanSpec(olds: seq<Vnode>, news: seq<Vnode>)
    ensures var pl := MatchPlan(olds, news);
      && |pl.picks| == |news|
      && (forall i :: 0 <= i < |news| && pl.picks[i].Some? ==>
            pl.picks[i].value < |olds| && SameKeyType(news[i], olds[pl.picks[i].value]))
      && NoRepeats(pl.picks)
      && (forall i, j: nat :: 0 <= i < |news| && j < |olds| && Candidate(olds, pl, news, i, j) ==>
            !SameKeyType(news[i], olds[j]))
      && Increasing(pl.leftover)
      && (forall j: nat :: j in pl.leftover <==> j < |olds| && Some(j) !in pl.picks)
  {
    var pool := Iota(|olds|);
    var pl := MatchPlan(olds, news);
    assert forall j: nat :: j in pool <==> j < |olds| by {
      forall j: nat | j < |olds| ensures j in pool {
        assert pool[j] == j;
      }
    }
    assert Increasing(pool);
    PlanPicksMatch(olds, pool, news);
    PlanPicksDistinct(olds, pool, news);
    PlanLeftover(olds, pool, news);
    PlanFirstMatch(olds, pool, news);
  }
}
