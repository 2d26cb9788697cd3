/** The reconciler (src/core.ts:102-281): `mount`, `update`, `update_idx`, `unmount` and
    `refNodeLast`, as pure functions threading the abstract native tree of `Native`.
    The environment's node state is the namespace string of `DomEnv`. Component render
    closures come from a ranked table, so that rendering terminates. */
module Reconciler {
  import opened Options
  import opened Vnodes
  import opened Native
  import Instance
  import DomEnv
  import opened ListMatch

  /** The mirror of a mounted vnode (src/core.ts:73-99). An item owns one native node and,
      for an element with children, the ref of its children; a list owns one ref per
      member; a component owns its instance, the props the instance was created with, and
      the ref of what it rendered. */
  datatype Ref =
    | ItemRef(vnode: Vnode, node: nat, childRef: Option<Ref>, state: string)
    | ListRef(vnode: Vnode, refs: seq<Ref>)
    | ComponentRef(vnode: Vnode, inst: nat, props: Props, rendered: Ref)

  /** A ref mirrors its vnode: the ref kind follows the vnode kind, an item has a child ref
      exactly when its element has children, and a list has one ref per member, in order. */
  predicate Wf(r: Ref) {
    match r
    case ItemRef(v, _, c, _) =>
      && v.IsEnv()
      && (c.Some? <==> v.Element? && v.Kids().Some?)
      && (c.Some? ==> Wf(c.value) && c.value.vnode == v.Kids().value)
    case ListRef(v, rs) =>
      && v.List? && |rs| == |v.Items()|
      && forall i :: 0 <= i < |rs| ==> Wf(rs[i]) && rs[i].vnode == v.Items()[i]
    case ComponentRef(v, _, _, rr) => v.Component? && Wf(rr)
  }

  /** The trace only grows and ids are only handed out. */
  predicate Extends(e: Env, e': Env) {
    e.trace <= e'.trace && e.next <= e'.next
  }

  /** The calls made between `e` and `e'`. */
  function Delta(e: Env, e': Env): seq<Call>
    requires e.trace <= e'.trace
  {
    e'.trace[|e.trace|..]
  }

  function VnodesOf(rs: seq<Ref>): (vs: seq<Vnode>)
    ensures |vs| == |rs| && forall i :: 0 <= i < |rs| ==> vs[i] == rs[i].vnode
  {
    if |rs| == 0 then [] else [rs[0].vnode] + VnodesOf(rs[1..])
  }

  /** The refs at the given old positions, in that order. */
  function Pluck(rs: seq<Ref>, js: seq<nat>): (out: seq<Ref>)
    requires forall k :: 0 <= k < |js| ==> js[k] < |rs|
    ensures |out| == |js| && forall k :: 0 <= k < |js| ==> out[k] == rs[js[k]]
  {
    if |js| == 0 then [] else [rs[js[0]]] + Pluck(rs, js[1..])
  }

  // ---------------------------------------------------------------------------
  // mount (src/core.ts:104-151)
  // ---------------------------------------------------------------------------

  /** `mount(p, r, ps, v)`: build the native nodes of `v` under `p`, before `r`. */
  function Mount(tbl: Table, p: nat, r: Option<nat>, ps: string, v: Vnode, e: Env): (res: (Ref, Env))
    requires Ranked(tbl)
    ensures Wf(res.0) && res.0.vnode == v
    ensures Extends(e, res.1)
    decreases Rank(v), Size(v), 1
  {
    if v.Empty? || v.Leaf? then MountItem(p, r, ps, v, e)
    else if v.Element? then MountElement(tbl, p, r, ps, v, e)
    else if v.List? then
      ItemsMeasure(v);
      var (rs, e1) := MountSeq(tbl, p, r, ps, v.Items(), e);
      (ListRef(v, rs), e1)
    else MountComponent(tbl, p, r, ps, v, e)
  }

  /** An empty or leaf vnode: one node, inserted before `r`. */
  function MountItem(p: nat, r: Option<nat>, ps: string, v: Vnode, e: Env): (res: (Ref, Env))
    requires v.Empty? || v.Leaf?
    ensures Wf(res.0) && res.0.vnode == v
    ensures Extends(e, res.1)
  {
    var (n, e1) := Create(e);
    (ItemRef(v, n, None, DomEnv.CreateState(v, ps)), InsertBeforeOp(e1, p, n, r))
  }

  /** An element: its node inserted before `r`, attributes before, its children mounted
      under it with its own state, attributes after. */
  function MountElement(tbl: Table, p: nat, r: Option<nat>, ps: string, v: Vnode, e: Env): (res: (Ref, Env))
    requires Ranked(tbl) && v.Element?
    ensures Wf(res.0) && res.0.vnode == v
    ensures Extends(e, res.1)
    decreases Rank(v), Size(v), 0
  {
    var (n, e1) := Create(e);
    var st := DomEnv.CreateState(v, ps);
    var e2 := Log(InsertBeforeOp(e1, p, n, r), MountAttrs(BeforeChildren, n));
    if v.Kids().Some? then
      var (cr, e3) := Mount(tbl, n, None, st, v.Kids().value, e2);
      (ItemRef(v, n, Some(cr), st), Log(e3, MountAttrs(AfterChildren, n)))
    else
      (ItemRef(v, n, None, st), Log(e2, MountAttrs(AfterChildren, n)))
  }

  /** A component: a new instance, its `mount` hooks, what it renders mounted in its
      place, its `mounted` hooks. */
  function MountComponent(tbl: Table, p: nat, r: Option<nat>, ps: string, v: Vnode, e: Env): (res: (Ref, Env))
    requires Ranked(tbl) && v.Component?
    ensures Wf(res.0) && res.0.vnode == v
    ensures Extends(e, res.1)
    decreases Rank(v), Size(v), 0
  {
    var (inst, e1) := NewInstance(e);
    var e2 := Log(e1, Hook(inst, Instance.Event.Mount));
    var (rr, e3) := Mount(tbl, p, r, ps, tbl(v.factory, v.cprops), e2);
    (ComponentRef(v, inst, v.cprops, rr), Log(e3, Hook(inst, Instance.Event.Mounted)))
  }

  /** `vnode.map(child => mount(p, r, ps, child))`: every member before the same `r`. */
  function MountSeq(tbl: Table, p: nat, r: Option<nat>, ps: string, vs: seq<Vnode>, e: Env): (res: (seq<Ref>, Env))
    requires Ranked(tbl)
    ensures |res.0| == |vs| && forall i :: 0 <= i < |vs| ==> Wf(res.0[i]) && res.0[i].vnode == vs[i]
    ensures Extends(e, res.1)
    decreases RankSeq(vs), SizeSeq(vs), 5
  {
    if |vs| == 0 then ([], e)
    else
      SizePositive(vs[0]);
      var (r0, e1) := Mount(tbl, p, r, ps, vs[0], e);
      var (rs, e2) := MountSeq(tbl, p, r, ps, vs[1..], e1);
      ([r0] + rs, e2)
  }

  // ---------------------------------------------------------------------------
  // update (src/core.ts:153-230)
  // ---------------------------------------------------------------------------

  /** The update keeps the ref's native node: an item whose vnode stays empty, stays a
      leaf, or stays an element with the same tag. */
  predicate KeepsNode(ref: Ref, v: Vnode) {
    && ref.ItemRef?
    && (|| (ref.vnode.Empty? && v.Empty?)
        || (ref.vnode.Leaf? && v.Leaf?)
        || (ref.vnode.Element? && v.Element? && ref.vnode.tag == v.tag))
  }

  /** The update keeps the component instance: same factory. */
  predicate KeepsInstance(ref: Ref, v: Vnode) {
    ref.ComponentRef? && ref.vnode.Component? && v.Component? && ref.vnode.factory == v.factory
  }

  /** `update(ref, ps, v)`: bring the native nodes of `ref` in line with `v`. The identical
      vnode costs nothing, empty to empty only records the vnode, and a kept node or
      instance stays the same. */
  function Update(tbl: Table, ref: Ref, ps: string, v: Vnode, e: Env): (res: (Ref, Env))
    requires Ranked(tbl) && Wf(ref)
    ensures Wf(res.0) && res.0.vnode == v
    ensures Extends(e, res.1)
    ensures ref.vnode == v ==> res == (ref, e)
    ensures ref.vnode.Empty? && v.Empty? ==> res.1 == e
    ensures KeepsNode(ref, v) ==> res.0.ItemRef? && res.0.node == ref.node && res.0.state == ref.state
    ensures KeepsInstance(ref, v) ==> res.0.ComponentRef? && res.0.inst == ref.inst && res.0.props == ref.props
    decreases Rank(v), Size(v), 3
  {
    if ref.vnode == v then (ref, e)
    else if v.Empty? && ref.vnode.Empty? then (ItemRef(v, ref.node, None, ref.state), e)
    else if v.Leaf? && ref.vnode.Leaf? then
      var e1 := Log(e, UpdateAttrs(BeforeChildren, ref.node));
      (ItemRef(v, ref.node, None, ref.state), Log(e1, UpdateAttrs(AfterChildren, ref.node)))
    else if v.Element? && ref.vnode.Element? && v.tag == ref.vnode.tag then
      UpdateElement(tbl, ref, v, e)
    else if v.List? && ref.vnode.List? then
      UpdateList(tbl, ref, ps, v, e)
    else if v.Component? && ref.vnode.Component? && v.factory == ref.vnode.factory then
      var (rr, e1) := Update(tbl, ref.rendered, ps, tbl(v.factory, v.cprops), e);
      (ComponentRef(v, ref.inst, ref.props, rr), e1)
    else
      Replace(tbl, ref, ps, v, e)
  }

  /** Same-tag element: attributes before, then the children mounted, unmounted or updated
      under the same node and state, then attributes after. */
  function UpdateElement(tbl: Table, ref: Ref, v: Vnode, e: Env): (res: (Ref, Env))
    requires Ranked(tbl) && Wf(ref) && ref.ItemRef? && ref.vnode.Element? && v.Element?
    ensures Wf(res.0) && res.0.vnode == v
    ensures res.0.ItemRef? && res.0.node == ref.node && res.0.state == ref.state
    ensures Extends(e, res.1)
    decreases Rank(v), Size(v), 2
  {
    var n := ref.node;
    var e1 := Log(e, UpdateAttrs(BeforeChildren, n));
    var (c, e2) :=
      if ref.vnode.Kids().None? then
        if v.Kids().Some? then
          var (cr, e') := Mount(tbl, n, None, ref.state, v.Kids().value, e1);
          (Some(cr), e')
        else (None, e1)
      else if v.Kids().None? then (None, Unmount(ref.childRef.value, e1))
      else
        var (cr, e') := Update(tbl, ref.childRef.value, ref.state, v.Kids().value, e1);
        (Some(cr), e');
    (ItemRef(v, n, c, ref.state), Log(e2, UpdateAttrs(AfterChildren, n)))
  }

  /** List to list: the walk over the new members, then the refs nobody reused are
      unmounted as a list, last to first. */
  function UpdateList(tbl: Table, ref: Ref, ps: string, v: Vnode, e: Env): (res: (Ref, Env))
    requires Ranked(tbl) && Wf(ref) && ref.ListRef? && v.List?
    ensures Wf(res.0) && res.0.vnode == v
    ensures Extends(e, res.1)
    decreases Rank(v), Size(v), 2
  {
    var (rs, lo, e1) := ListWalk(tbl, ref, ps, v, e);
    (ListRef(v, rs), UnmountRev(Pluck(ref.refs, lo), e1))
  }

  /** The walk of a list update: the parent and the anchor are read off the last native
      node of the old list, and every new member is reused or mounted before the anchor.
      The refs it returns follow the new members; the old positions left over are those
      of the matching plan. */
  function ListWalk(tbl: Table, ref: Ref, ps: string, v: Vnode, e: Env): (res: (seq<Ref>, seq<nat>, Env))
    requires Ranked(tbl) && Wf(ref) && ref.ListRef? && v.List?
    ensures |res.0| == |v.Items()|
    ensures forall i :: 0 <= i < |res.0| ==> Wf(res.0[i]) && res.0[i].vnode == v.Items()[i]
    ensures res.1 == MatchPlan(VnodesOf(ref.refs), v.Items()).leftover
    ensures forall k :: 0 <= k < |res.1| ==> res.1[k] < |ref.refs|
    ensures RetainsPicks(ref.refs, MatchPlan(VnodesOf(ref.refs), v.Items()).picks, res.0)
    ensures Extends(e, res.2)
    decreases Rank(v), Size(v), 1
  {
    var olds := ref.refs;
    var last := RefNodeLast(olds[|olds| - 1]);
    ItemsMeasure(v);
    LeftoverInRange(VnodesOf(olds), Iota(|olds|), v.Items());
    ListSeqRetains(tbl, olds, Iota(|olds|), ParentOf(e, last), NextSibling(e, last), ps, v.Items(), e);
    UpdateListSeq(tbl, olds, Iota(|olds|), ParentOf(e, last), NextSibling(e, last), ps, v.Items(), e)
  }

  lemma LeftoverInRange(olds: seq<Vnode>, pool: seq<nat>, news: seq<Vnode>)
    requires PoolOk(pool, |olds|)
    ensures PoolOk(PlanFrom(olds, pool, news).leftover, |olds|)
    decreases |news|
  {
    if |news| > 0 {
      LeftoverInRange(olds, Remaining(olds, pool, news[0]), news[1..]);
    }
  }

  /** The old ref reused for a new member is relocated, not recreated: an element keeps its
      native node and a component its instance. */
  predicate Retains(prev: Ref, next: Ref) {
    && (prev.ItemRef? && prev.vnode.Element? ==> next.ItemRef? && next.node == prev.node)
    && (prev.ComponentRef? ==> next.ComponentRef? && next.inst == prev.inst)
  }

  /** One new member: reuse the old ref `o` points at (moved before the anchor, then
      updated) or mount the member before the anchor. */
  function ReuseOrMount(tbl: Table, olds: seq<Ref>, o: Option<nat>, p: nat, anchor: Option<nat>,
                        ps: string, v: Vnode, e: Env): (res: (Ref, Env))
    requires Ranked(tbl) && (o.Some? ==> o.value < |olds| && Wf(olds[o.value]))
    requires o.Some? ==> SameKeyType(v, olds[o.value].vnode)
    ensures Wf(res.0) && res.0.vnode == v
    ensures o.Some? ==> Retains(olds[o.value], res.0)
    ensures Extends(e, res.1)
    decreases Rank(v), Size(v), 4
  {
    if o.Some? then
      var prev := olds[o.value];
      var res := Update(tbl, prev, ps, v, UpdateIdx(prev, p, anchor, e));
      assert prev.ItemRef? && prev.vnode.Element? ==> KeepsNode(prev, v);
      res
    else Mount(tbl, p, anchor, ps, v, e)
  }

  /** The walk over the new members, with the pool of old positions not yet reused. Each
      member reuses the plan's pick or is mounted before the anchor; what remains of the
      pool is the plan's leftover. */
  function UpdateListSeq(tbl: Table, olds: seq<Ref>, pool: seq<nat>, p: nat, anchor: Option<nat>,
                         ps: string, vs: seq<Vnode>, e: Env): (res: (seq<Ref>, seq<nat>, Env))
    requires Ranked(tbl) && PoolOk(pool, |olds|)
    requires forall j :: 0 <= j < |olds| ==> Wf(olds[j])
    ensures |res.0| == |vs| && forall i :: 0 <= i < |vs| ==> Wf(res.0[i]) && res.0[i].vnode == vs[i]
    ensures res.1 == PlanFrom(VnodesOf(olds), pool, vs).leftover
    ensures Extends(e, res.2)
    decreases RankSeq(vs), SizeSeq(vs), 5
  {
    if |vs| == 0 then ([], pool, e)
    else
      SizePositive(vs[0]);
      var o := Pick(VnodesOf(olds), pool, vs[0]);
      var (r0, e1) := ReuseOrMount(tbl, olds, o, p, anchor, ps, vs[0], e);
      var pool' := Remaining(VnodesOf(olds), pool, vs[0]);
      var (rs, lo, e2) := UpdateListSeq(tbl, olds, pool', p, anchor, ps, vs[1..], e1);
      ListSeqShift(r0, rs, vs);
      PlanFromCons(VnodesOf(olds), pool, vs);
      ([r0] + rs, lo, e2)
  }

  /** Every ref at a position the picks match to an old position keeps that old ref's
      node or instance. */
  predicate RetainsPicks(olds: seq<Ref>, picks: seq<Option<nat>>, rs: seq<Ref>) {
    forall i :: 0 <= i < |rs| && i < |picks| && picks[i].Some? ==>
      picks[i].value < |olds| && Retains(olds[picks[i].value], rs[i])
  }

  /** Each member the plan matches to an old position keeps that old ref's node or
      instance. */
  lemma {:induction false} ListSeqRetains(tbl: Table, olds: seq<Ref>, pool: seq<nat>, p: nat, anchor: Option<nat>,
                                          ps: string, vs: seq<Vnode>, e: Env)
    requires Ranked(tbl) && PoolOk(pool, |olds|)
    requires forall j :: 0 <= j < |olds| ==> Wf(olds[j])
    ensures RetainsPicks(olds, PlanFrom(VnodesOf(olds), pool, vs).picks, UpdateListSeq(tbl, olds, pool, p, anchor, ps, vs, e).0)
    decreases RankSeq(vs), SizeSeq(vs), 6
  {
    if |vs| > 0 {
      SizePositive(vs[0]);
      var o := Pick(VnodesOf(olds), pool, vs[0]);
      var (r0, e1) := ReuseOrMount(tbl, olds, o, p, anchor, ps, vs[0], e);
      var pool' := Remaining(VnodesOf(olds), pool, vs[0]);
      var (rs, lo, e2) := UpdateListSeq(tbl, olds, pool', p, anchor, ps, vs[1..], e1);
      assert UpdateListSeq(tbl, olds, pool, p, anchor, ps, vs, e).0 == [r0] + rs;
      ListSeqRetains(tbl, olds, pool', p, anchor, ps, vs[1..], e1);
      PlanFromCons(VnodesOf(olds), pool, vs);
      RetainsPicksCons(olds, PlanFrom(VnodesOf(olds), pool, vs).picks, PlanFrom(VnodesOf(olds), pool', vs[1..]).picks, r0, rs);
    }
  }

  lemma RetainsPicksCons(olds: seq<Ref>, picks: seq<Option<nat>>, rest: seq<Option<nat>>, r0: Ref, rs: seq<Ref>)
    requires |picks| == |rs| + 1 && |rest| == |rs|
    requires forall i :: 1 <= i < |picks| ==> picks[i] == rest[i - 1]
    requires picks[0].Some? ==> picks[0].value < |olds| && Retains(olds[picks[0].value], r0)
    requires RetainsPicks(olds, rest, rs)
    ensures RetainsPicks(olds, picks, [r0] + rs)
  {
    forall i | 0 <= i < |picks| && picks[i].Some?
      ensures picks[i].value < |olds| && Retains(olds[picks[i].value], ([r0] + rs)[i])
    {
      if i > 0 {
        assert picks[i] == rest[i - 1] && ([r0] + rs)[i] == rs[i - 1];
      }
    }
  }

  lemma ListSeqShift(r0: Ref, rs: seq<Ref>, vs: seq<Vnode>)
    requires |vs| == |rs| + 1
    ensures forall i :: 1 <= i < |vs| ==> ([r0] + rs)[i] == rs[i - 1] && vs[i] == vs[1..][i - 1]
  {
  }

  /** Mismatch: mount the new vnode just before the last native node of the old ref,
      under that node's parent, then unmount the old ref. */
  function Replace(tbl: Table, ref: Ref, ps: string, v: Vnode, e: Env): (res: (Ref, Env))
    requires Ranked(tbl) && Wf(ref)
    ensures Wf(res.0) && res.0.vnode == v
    ensures Extends(e, res.1)
    decreases Rank(v), Size(v), 2
  {
    var last := RefNodeLast(ref);
    var (nr, e1) := Mount(tbl, ParentOf(e, last), Some(last), ps, v, e);
    (nr, Unmount(ref, e1))
  }

  // ---------------------------------------------------------------------------
  // an instance's own re-render (src/core.ts:130-135)
  // ---------------------------------------------------------------------------

  /** The re-render an instance's `update()` eventually runs: `update` hooks, the render
      closure applied to the instance's props, the rendered ref updated under the parent
      state the component was mounted with (`ps`), `updated` hooks. The instance's props
      are the ones it was created with: nothing assigns them afterwards, so the ref keeps
      them. */
  function Rerender(tbl: Table, ref: Ref, ps: string, e: Env): (res: (Ref, Env))
    requires Ranked(tbl) && Wf(ref) && ref.ComponentRef?
    ensures Wf(res.0) && res.0.ComponentRef? && res.0.vnode == ref.vnode
    ensures res.0.inst == ref.inst && res.0.props == ref.props
    ensures Extends(e, res.1)
  {
    var e1 := Log(e, Hook(ref.inst, Instance.Event.Update));
    var (rr, e2) := Update(tbl, ref.rendered, ps, tbl(ref.vnode.factory, ref.props), e1);
    (ComponentRef(ref.vnode, ref.inst, ref.props, rr), Log(e2, Hook(ref.inst, Instance.Event.Updated)))
  }

  /** The same re-render from the props of the vnode the ref last recorded, which a
      parent's re-render keeps current (src/core.ts:218-220). */
  function RerenderLatest(tbl: Table, ref: Ref, ps: string, e: Env): (res: (Ref, Env))
    requires Ranked(tbl) && Wf(ref) && ref.ComponentRef?
    ensures Wf(res.0) && res.0.ComponentRef? && res.0.vnode == ref.vnode
    ensures res.0.inst == ref.inst && res.0.props == ref.props
    ensures Extends(e, res.1)
  {
    var e1 := Log(e, Hook(ref.inst, Instance.Event.Update));
    var (rr, e2) := Update(tbl, ref.rendered, ps, tbl(ref.vnode.factory, ref.vnode.cprops), e1);
    (ComponentRef(ref.vnode, ref.inst, ref.props, rr), Log(e2, Hook(ref.inst, Instance.Event.Updated)))
  }

  // ---------------------------------------------------------------------------
  // update_idx, unmount, refNodeLast (src/core.ts:232-281)
  // ---------------------------------------------------------------------------

  /** `update_idx(ref, p, r)`: move every top-level native node of `ref` before `r`. */
  function UpdateIdx(ref: Ref, p: nat, r: Option<nat>, e: Env): (e': Env)
    ensures Extends(e, e')
    decreases ref
  {
    match ref
    case ItemRef(_, n, _, _) => InsertBeforeOp(e, p, n, r)
    case ListRef(_, rs) => UpdateIdxSeq(rs, p, r, e)
    case ComponentRef(_, _, _, rr) => UpdateIdx(rr, p, r, e)
  }

  function UpdateIdxSeq(rs: seq<Ref>, p: nat, r: Option<nat>, e: Env): (e': Env)
    ensures Extends(e, e')
    decreases rs
  {
    if |rs| == 0 then e else UpdateIdxSeq(rs[1..], p, r, UpdateIdx(rs[0], p, r, e))
  }

  /** `unmount(ref)`: an item's attributes before, its children, its attributes after,
      then the node leaves its parent; a list's members last to first; a component's
      rendered ref between its `unmount` and `unmounted` hooks. */
  function Unmount(ref: Ref, e: Env): (e': Env)
    ensures Extends(e, e')
    decreases ref
  {
    match ref
    case ItemRef(_, n, c, _) =>
      var e1 := Log(e, UnmountAttrs(BeforeChildren, n));
      var e2 := if c.Some? then Unmount(c.value, e1) else e1;
      var e3 := Log(e2, UnmountAttrs(AfterChildren, n));
      RemoveChildOp(e3, ParentOf(e3, n), n)
    case ListRef(_, rs) => UnmountRev(rs, e)
    case ComponentRef(_, inst, _, rr) =>
      var e1 := Unmount(rr, Log(e, Hook(inst, Instance.Event.Unmount)));
      Log(e1, Hook(inst, Instance.Event.Unmounted))
  }

  /** Unmount the refs of `rs` from the last to the first. */
  function UnmountRev(rs: seq<Ref>, e: Env): (e': Env)
    ensures Extends(e, e')
    decreases rs
  {
    if |rs| == 0 then e else UnmountRev(rs[..|rs| - 1], Unmount(rs[|rs| - 1], e))
  }

  /** `refNodeLast(ref)`: the last native node the ref places under its parent. */
  function RefNodeLast(ref: Ref): nat
    requires Wf(ref)
    decreases ref
  {
    match ref
    case ItemRef(_, n, _, _) => n
    case ListRef(_, rs) => RefNodeLast(rs[|rs| - 1])
    case ComponentRef(_, _, _, rr) => RefNodeLast(rr)
  }
}
