/** The per-component instance (src/core.ts:30-55): the hook registry with `on` returning an
    unsubscribe, the context that reads through to its parent's, and the dirty flag with the
    two queues behind `update`. */
module Instance {
  import opened Options
  import opened Vnodes

  /** The six lifecycle events (src/core.ts:20-28). */
  datatype Event = Mount | Mounted | Update | Updated | Unmount | Unmounted

  // ---------------------------------------------------------------------------
  // Hook registry
  // ---------------------------------------------------------------------------

  /** For each event that has ever been subscribed to, its subscribers in insertion order
      (a JavaScript `Set`); callbacks are identified by number. */
  type Hooks = map<Event, seq<nat>>

  predicate NoDuplicates(s: seq<nat>) {
    forall i, j :: 0 <= i < j < |s| ==> s[i] != s[j]
  }

  predicate HooksWf(h: Hooks) {
    forall ev :: ev in h ==> NoDuplicates(h[ev])
  }

  /** The callbacks that firing `ev` runs, in order (`hooks[ev]?.forEach`). */
  function Subscribers(h: Hooks, ev: Event): seq<nat> {
    if ev in h then h[ev] else []
  }

  /** `on(ev, fn)`: create the set if missing, then add `fn`; adding a callback that is
      already there keeps its original position. */
  function On(h: Hooks, ev: Event, fn: nat): (h': Hooks)
    requires HooksWf(h)
    ensures HooksWf(h')
    ensures ev in h' && fn in h'[ev]
    ensures fn in Subscribers(h, ev) ==> h' == h
    ensures fn !in Subscribers(h, ev) ==> h'[ev] == Subscribers(h, ev) + [fn]
    ensures forall e :: e != ev ==> (e in h' <==> e in h) && Subscribers(h', e) == Subscribers(h, e)
  {
    var cur := Subscribers(h, ev);
    if fn in cur then h else h[ev := cur + [fn]]
  }

  /** `s` with every occurrence of `x` removed, order kept. */
  function Without(s: seq<nat>, x: nat): (r: seq<nat>)
    ensures x !in r
    ensures forall y :: y != x ==> (y in r <==> y in s)
    ensures NoDuplicates(s) ==> NoDuplicates(r)
  {
    if |s| == 0 then []
    else if s[0] == x then Without(s[1..], x)
    else
      var t := Without(s[1..], x);
      assert NoDuplicates(s) ==> s[0] !in s[1..];
      [s[0]] + t
  }

  /** The function `on` returns: `hooks[ev].delete(fn)`. It is only ever obtained from
      `on(ev, …)`, so the set for `ev` exists. */
  function Unsubscribe(h: Hooks, ev: Event, fn: nat): (h': Hooks)
    requires HooksWf(h) && ev in h
    ensures HooksWf(h')
    ensures ev in h' && fn !in h'[ev]
    ensures forall g :: g != fn ==> (g in h'[ev] <==> g in h[ev])
    ensures forall e :: e != ev ==> (e in h' <==> e in h) && Subscribers(h', e) == Subscribers(h, e)
  {
    h[ev := Without(h[ev], fn)]
  }

  /** Subscribing and then calling the returned unsubscribe leaves `fn` out of the set, and
      when `fn` was not subscribed before, it leaves every event's subscribers as they were. */
  lemma {:induction false} OnThenUnsubscribe(h: Hooks, ev: Event, fn: nat)
    requires HooksWf(h)
    ensures fn !in Subscribers(Unsubscribe(On(h, ev, fn), ev, fn), ev)
    ensures fn !in Subscribers(h, ev) ==>
      forall e :: Subscribers(Unsubscribe(On(h, ev, fn), ev, fn), e) == Subscribers(h, e)
  {
    var h1 := On(h, ev, fn);
    if fn !in Subscribers(h, ev) {
      WithoutAbsent(Subscribers(h, ev) + [fn], fn, Subscribers(h, ev));
    }
  }

  lemma {:induction false} WithoutAbsent(s: seq<nat>, x: nat, t: seq<nat>)
    requires x !in t && s == t + [x]
    ensures Without(s, x) == t
  {
    if |t| == 0 {
      assert s == [x];
      assert s[1..] == [];
    } else {
      assert s[1..] == t[1..] + [x];
      WithoutAbsent(s[1..], x, t[1..]);
      assert t == [t[0]] + t[1..];
    }
  }

  // ---------------------------------------------------------------------------
  // Context: an arena of records, each reading through to its parent
  // ---------------------------------------------------------------------------

  /** One context record: its own properties and the record it was created from
      (`Object.create(ctx)`; `None` for `Object.create(null)`). */
  datatype CtxNode = CtxNode(local: map<string, Value>, parent: Option<nat>)

  /** All context records, addressed by index; a record's parent always has a smaller index. */
  type Ctxs = seq<CtxNode>

  predicate CtxsWf(cs: Ctxs) {
    forall i :: 0 <= i < |cs| && cs[i].parent.Some? ==> cs[i].parent.value < i
  }

  /** A property read: the record's own value, else its parent's, else `undefined`. */
  function CtxLookup(cs: Ctxs, i: nat, k: string): Value
    requires CtxsWf(cs) && i < |cs|
    decreases i
  {
    if k in cs[i].local then cs[i].local[k]
    else if cs[i].parent.Some? then CtxLookup(cs, cs[i].parent.value, k)
    else Undefined
  }

  /** The context `createInstance` gives an instance: a fresh empty record over `parent`. */
  function NewCtx(cs: Ctxs, parent: Option<nat>): (r: (Ctxs, nat))
    requires CtxsWf(cs)
    requires parent.Some? ==> parent.value < |cs|
    ensures |r.0| == |cs| + 1 && r.1 == |cs| && r.0[..|cs|] == cs && CtxsWf(r.0)
    ensures forall k :: CtxLookup(r.0, r.1, k) == if parent.Some? then CtxLookup(r.0, parent.value, k) else Undefined
  {
    (cs + [CtxNode(map[], parent)], |cs|)
  }

  /** `ctx[k] = v` on record `i`. */
  function CtxWrite(cs: Ctxs, i: nat, k: string, v: Value): (cs': Ctxs)
    requires CtxsWf(cs) && i < |cs|
    ensures CtxsWf(cs') && |cs'| == |cs|
    ensures CtxLookup(cs', i, k) == v
  {
    cs[i := cs[i].(local := cs[i].local[k := v])]
  }

  /** Appending records never changes what existing records read. */
  lemma {:induction false} LookupStable(cs: Ctxs, more: Ctxs, i: nat, k: string)
    requires CtxsWf(cs) && CtxsWf(cs + more) && i < |cs|
    ensures CtxLookup(cs + more, i, k) == CtxLookup(cs, i, k)
    decreases i
  {
    assert (cs + more)[i] == cs[i];
    if k !in cs[i].local && cs[i].parent.Some? {
      LookupStable(cs, more, cs[i].parent.value, k);
    }
  }

  /** A child never owns its parent's properties: a write to a record is invisible to every
      record created before it, the parent included. */
  lemma {:induction false} WriteInvisibleToAncestors(cs: Ctxs, i: nat, k: string, v: Value, j: nat, k2: string)
    requires CtxsWf(cs) && i < |cs| && j < i
    ensures CtxLookup(CtxWrite(cs, i, k, v), j, k2) == CtxLookup(cs, j, k2)
    decreases j
  {
    var cs' := CtxWrite(cs, i, k, v);
    assert cs'[j] == cs[j];
    if k2 !in cs[j].local && cs[j].parent.Some? {
      WriteInvisibleToAncestors(cs, i, k, v, cs[j].parent.value, k2);
    }
  }

  /** Read-through: a property written on the parent after the child was created is seen
      through the child, as long as the child has not shadowed it. */
  lemma ReadThroughAfterParentWrite(cs: Ctxs, p: nat, k: string, v: Value)
    requires CtxsWf(cs) && p < |cs|
    ensures var (cs1, c) := NewCtx(cs, Some(p));
            CtxLookup(CtxWrite(cs1, p, k, v), c, k) == v
  {
    var (cs1, c) := NewCtx(cs, Some(p));
    var cs2 := CtxWrite(cs1, p, k, v);
    assert k !in cs2[c].local && cs2[c].parent == Some(p);
  }

  // ---------------------------------------------------------------------------
  // The dirty flag and the two queues behind `update`
  // ---------------------------------------------------------------------------

  /** What an outside observer sees: an effect ran, or an instance re-rendered. */
  datatype Obs = EffectRan(eid: nat) | Rendered(inst: nat)

  /** One `update(fn?)` call: the instance it is made on and its optional effect. */
  datatype UpdateReq = UpdateReq(inst: nat, effect: Option<nat>)

  /** The scheduler: the instances whose dirty flag is set, the immediate (microtask) queue
      of effects, the deferred (macrotask) queue of render-if-dirty tasks, one per `update`
      call and tagged with its instance, and the trace of what has run. */
  datatype Sched = Sched(dirty: set<nat>, immediate: seq<nat>, deferred: seq<nat>, trace: seq<Obs>)

  predicate Idle(s: Sched) {
    s.dirty == {} && s.immediate == [] && s.deferred == []
  }

  /** The effect ids of a run of update calls, in call order. */
  function EffectIds(rs: seq<UpdateReq>): (ids: seq<nat>)
    ensures |ids| <= |rs|
  {
    if |rs| == 0 then []
    else (if rs[0].effect.Some? then [rs[0].effect.value] else []) + EffectIds(rs[1..])
  }

  function EffectObs(ids: seq<nat>): (o: seq<Obs>)
    ensures |o| == |ids|
    ensures forall i :: 0 <= i < |ids| ==> o[i] == EffectRan(ids[i])
  {
    if |ids| == 0 then [] else [EffectRan(ids[0])] + EffectObs(ids[1..])
  }

  function Insts(rs: seq<UpdateReq>): (r: seq<nat>)
    ensures |r| == |rs| && forall i :: 0 <= i < |rs| ==> r[i] == rs[i].inst
  {
    if |rs| == 0 then [] else [rs[0].inst] + Insts(rs[1..])
  }

  /** `update(fn?)`: set dirty, queue the effect on the immediate queue, queue a deferred
      render-if-dirty task. Nothing runs yet. */
  function CallUpdate(s: Sched, r: UpdateReq): (s': Sched)
    ensures r.inst in s'.dirty && s'.dirty == s.dirty + {r.inst}
    ensures s'.immediate == s.immediate + EffectIds([r])
    ensures s'.deferred == s.deferred + [r.inst]
    ensures s'.trace == s.trace
  {
    Sched(s.dirty + {r.inst},
          s.immediate + (if r.effect.Some? then [r.effect.value] else []),
          s.deferred + [r.inst],
          s.trace)
  }

  /** Several `update` calls in one synchronous stretch. */
  function CallUpdates(s: Sched, rs: seq<UpdateReq>): (s': Sched)
    decreases |rs|
  {
    if |rs| == 0 then s else CallUpdates(CallUpdate(s, rs[0]), rs[1..])
  }

  /** Several synchronous `update` calls queue their effects in call order and one
      deferred task each, and run nothing. */
  lemma {:induction false} CallUpdatesQueues(s: Sched, rs: seq<UpdateReq>)
    ensures CallUpdates(s, rs).immediate == s.immediate + EffectIds(rs)
    ensures CallUpdates(s, rs).deferred == s.deferred + Insts(rs)
    ensures CallUpdates(s, rs).trace == s.trace
    decreases |rs|
  {
    if |rs| > 0 {
      var s1 := CallUpdate(s, rs[0]);
      var h := if rs[0].effect.Some? then [rs[0].effect.value] else [];
      assert [rs[0]][1..] == [];
      assert EffectIds([rs[0]]) == h + EffectIds([]);
      CallUpdatesQueues(s1, rs[1..]);
      assert CallUpdates(s, rs) == CallUpdates(s1, rs[1..]);
      calc {
        CallUpdates(s, rs).immediate;
        (s.immediate + h) + EffectIds(rs[1..]);
        s.immediate + (h + EffectIds(rs[1..]));
      }
      calc {
        CallUpdates(s, rs).deferred;
        (s.deferred + [rs[0].inst]) + Insts(rs[1..]);
        s.deferred + ([rs[0].inst] + Insts(rs[1..]));
      }
    }
  }

  /** The same calls mark dirty exactly the instances they are made on. */
  lemma {:induction false} CallUpdatesDirty(s: Sched, rs: seq<UpdateReq>)
    ensures forall i :: i in CallUpdates(s, rs).dirty <==> i in s.dirty || i in Insts(rs)
    decreases |rs|
  {
    if |rs| > 0 {
      var s1 := CallUpdate(s, rs[0]);
      CallUpdatesDirty(s1, rs[1..]);
      assert CallUpdates(s, rs) == CallUpdates(s1, rs[1..]);
      assert Insts(rs) == [rs[0].inst] + Insts(rs[1..]);
    }
  }

  /** The host drains the immediate queue completely before any deferred task. */
  function DrainImmediate(s: Sched): (s': Sched)
    ensures s'.immediate == [] && s'.dirty == s.dirty && s'.deferred == s.deferred
    ensures s'.trace == s.trace + EffectObs(s.immediate)
  {
    s.(immediate := [], trace := s.trace + EffectObs(s.immediate))
  }

  /** Run the first deferred task: re-render only if its instance is dirty (the render may
      itself call `update`, given as `during`), then clear the flag. The clear comes after
      the render, so a re-entrant `update` on the same instance is forgotten. */
  function RunDeferred(s: Sched, during: seq<UpdateReq>): (s': Sched)
    requires |s.deferred| > 0
    ensures s.deferred[0] !in s'.dirty
    ensures s.deferred[0] in s.dirty ==> s'.trace == s.trace + [Rendered(s.deferred[0])]
    ensures s.deferred[0] !in s.dirty ==> s'.trace == s.trace && s'.immediate == s.immediate
  {
    var i := s.deferred[0];
    var s1 := s.(deferred := s.deferred[1..]);
    if i in s.dirty then
      CallUpdatesQueues(s1.(trace := s1.trace + [Rendered(i)]), during);
      CallUpdatesDirty(s1.(trace := s1.trace + [Rendered(i)]), during);
      var s2 := CallUpdates(s1.(trace := s1.trace + [Rendered(i)]), during);
      s2.(dirty := s2.dirty - {i})
    else
      s1.(dirty := s1.dirty - {i})
  }

  /** What the host does until both queues are empty, when renders call no `update`. */
  function Drain(s: Sched): (s': Sched)
    ensures s'.immediate == [] && s'.deferred == []
    decreases |s.deferred|
  {
    var s1 := DrainImmediate(s);
    if |s1.deferred| == 0 then s1 else Drain(RunDeferred(s1, []))
  }

  /** Draining a deferred queue that holds only tasks of `inst` renders it at most once:
      once exactly when it is dirty, after all queued effects. */
  lemma {:induction false} DrainSingleInstance(s: Sched, inst: nat)
    requires |s.deferred| > 0 && s.dirty <= {inst}
    requires forall j :: 0 <= j < |s.deferred| ==> s.deferred[j] == inst
    ensures Idle(Drain(s))
    ensures Drain(s).trace == s.trace + EffectObs(s.immediate) + (if inst in s.dirty then [Rendered(inst)] else [])
    decreases |s.deferred|
  {
    var s1 := DrainImmediate(s);
    var s2 := RunDeferred(s1, []);
    assert CallUpdates(s2, []) == s2;
    if |s2.deferred| == 0 {
      assert Drain(s2) == DrainImmediate(s2);
    } else {
      assert s2.dirty == {};
      DrainSingleInstance(s2, inst);
    }
  }

  /** Coalescing: from an idle scheduler, k >= 1 synchronous `update` calls on one instance
      followed by the host draining both queues run every supplied effect once, in call
      order, and then re-render the instance exactly once. */
  lemma Coalescing(s: Sched, inst: nat, rs: seq<UpdateReq>)
    requires Idle(s) && |rs| >= 1
    requires forall j :: 0 <= j < |rs| ==> rs[j].inst == inst
    ensures Idle(Drain(CallUpdates(s, rs)))
    ensures Drain(CallUpdates(s, rs)).trace == s.trace + EffectObs(EffectIds(rs)) + [Rendered(inst)]
  {
    var s1 := CallUpdates(s, rs);
    CallUpdatesQueues(s, rs);
    assert s1.immediate == EffectIds(rs) && s1.deferred == Insts(rs) && s1.trace == s.trace;
    assert s1.dirty == {inst} by {
      CallUpdatesDirty(s, rs);
      assert Insts(rs)[0] == inst;
      forall i ensures i in s1.dirty <==> i == inst {
        assert i in Insts(rs) <==> i == inst;
      }
    }
    DrainSingleInstance(s1, inst);
  }

  /** A re-entrant `update` is swallowed: when the render of a dirty instance calls
      `update` k more times on itself, those calls' effects still run but no second render
      happens. */
  lemma ReentrantUpdateSwallowed(s: Sched, inst: nat, during: seq<UpdateReq>)
    requires s.dirty == {inst} && s.immediate == [] && s.deferred == [inst]
    requires forall j :: 0 <= j < |during| ==> during[j].inst == inst
    ensures var s' := Drain(RunDeferred(s, during));
            Idle(s') && s'.trace == s.trace + [Rendered(inst)] + EffectObs(EffectIds(during))
  {
    var s2 := RunDeferred(s, during);
    RenderClearsAfter(s, inst, during);
    if |during| == 0 {
      assert Drain(s2) == DrainImmediate(s2);
    } else {
      DrainSingleInstance(s2, inst);
    }
  }

  /** The render's own `update` calls queue their effects and tasks, but the flag they
      set is cleared right after. */
  lemma RenderClearsAfter(s: Sched, inst: nat, during: seq<UpdateReq>)
    requires s.dirty == {inst} && s.deferred == [inst]
    requires forall j :: 0 <= j < |during| ==> during[j].inst == inst
    ensures var s2 := RunDeferred(s, during);
      && s2.dirty == {} && s2.deferred == Insts(during)
      && s2.immediate == s.immediate + EffectIds(during) && s2.trace == s.trace + [Rendered(inst)]
  {
    var s1r := s.(deferred := [], trace := s.trace + [Rendered(inst)]);
    var s3 := CallUpdates(s1r, during);
    CallUpdatesQueues(s1r, during);
    CallUpdatesDirty(s1r, during);
    assert RunDeferred(s, during) == s3.(dirty := s3.dirty - {inst});
    forall i | i in s3.dirty ensures i == inst {
      assert i in Insts(during) ==> i == inst;
    }
  }
}
