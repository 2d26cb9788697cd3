/** What the reconciler's calls on the port amount to: which nodes a mount creates and
    where it inserts them, which nodes an unmount removes and in what order, how
    `update_idx` relocates a subtree, and what the keyed list update does with the old
    refs. */
module ReconcilerProps {
  import opened Options
  import opened Vnodes
  import opened Native
  import opened ListMatch
  import opened Reconciler
  import Instance
  import DomEnv

  // ---------------------------------------------------------------------------
  // Views of a ref
  // ---------------------------------------------------------------------------

  /** Every native node a ref owns, parents before their children. */
  function Nodes(r: Ref): seq<nat>
    decreases r
  {
    match r
    case ItemRef(_, n, c, _) => [n] + (if c.Some? then Nodes(c.value) else [])
    case ListRef(_, rs) => NodesSeq(rs)
    case ComponentRef(_, _, _, rr) => Nodes(rr)
  }

  function NodesSeq(rs: seq<Ref>): seq<nat>
    decreases rs
  {
    if |rs| == 0 then [] else Nodes(rs[0]) + NodesSeq(rs[1..])
  }

  /** The native nodes a ref places directly under its parent, in order. */
  function TopNodes(r: Ref): seq<nat>
    decreases r
  {
    match r
    case ItemRef(_, n, _, _) => [n]
    case ListRef(_, rs) => TopNodesSeq(rs)
    case ComponentRef(_, _, _, rr) => TopNodes(rr)
  }

  function TopNodesSeq(rs: seq<Ref>): seq<nat>
    decreases rs
  {
    if |rs| == 0 then [] else TopNodes(rs[0]) + TopNodesSeq(rs[1..])
  }

  /** The order in which `unmount` takes nodes out: an item's child subtree before the
      item's own node, a list's members from the last to the first. */
  function Teardown(r: Ref): seq<nat>
    decreases r
  {
    match r
    case ItemRef(_, n, c, _) => (if c.Some? then Teardown(c.value) else []) + [n]
    case ListRef(_, rs) => TeardownRev(rs)
    case ComponentRef(_, _, _, rr) => Teardown(rr)
  }

  function TeardownRev(rs: seq<Ref>): seq<nat>
    decreases rs
  {
    if |rs| == 0 then [] else Teardown(rs[|rs| - 1]) + TeardownRev(rs[..|rs| - 1])
  }

  // ---------------------------------------------------------------------------
  // Composing trace deltas
  // ---------------------------------------------------------------------------

  lemma Chain(e0: Env, e1: Env, e2: Env)
    requires Extends(e0, e1) && Extends(e1, e2)
    ensures Extends(e0, e2)
    ensures Delta(e0, e2) == Delta(e0, e1) + Delta(e1, e2)
  {
    assert e1.trace == e0.trace + Delta(e0, e1);
    assert e2.trace == e1.trace + Delta(e1, e2);
  }

  lemma {:induction false} NodesSeqAppend(a: seq<Ref>, b: seq<Ref>)
    ensures NodesSeq(a + b) == NodesSeq(a) + NodesSeq(b)
    decreases |a|
  {
    if |a| == 0 {
      assert a + b == b;
    } else {
      assert (a + b)[1..] == a[1..] + b;
      NodesSeqAppend(a[1..], b);
    }
  }

  lemma {:induction false} TopNodesSeqAppend(a: seq<Ref>, b: seq<Ref>)
    ensures TopNodesSeq(a + b) == TopNodesSeq(a) + TopNodesSeq(b)
    decreases |a|
  {
    if |a| == 0 {
      assert a + b == b;
    } else {
      assert (a + b)[1..] == a[1..] + b;
      TopNodesSeqAppend(a[1..], b);
    }
  }

  // ---------------------------------------------------------------------------
  // mount creates exactly the ref's nodes, fresh, and removes nothing
  // ---------------------------------------------------------------------------

  predicate FreshIn(ns: seq<nat>, e: Env, e': Env) {
    forall x :: x in ns ==> e.next <= x < e'.next
  }

  lemma FreshConcat(a: seq<nat>, b: seq<nat>, e0: Env, e1: Env, e2: Env)
    requires FreshIn(a, e0, e1) && FreshIn(b, e1, e2) && e0.next <= e1.next <= e2.next
    ensures FreshIn(a + b, e0, e2)
  {
  }

  /** The calls between `e` and `e'` create exactly the nodes `ns`, in order, each with a
      fresh id, and remove nothing. */
  predicate CreatesExactly(e: Env, e': Env, ns: seq<nat>)
    requires e.trace <= e'.trace
  {
    Created(Delta(e, e')) == ns && Removed(Delta(e, e')) == [] && FreshIn(ns, e, e')
  }

  /** A mount creates the nodes of the ref it returns, in preorder, each with a fresh id,
      and removes nothing. */
  lemma {:induction false} MountCreates(tbl: Table, p: nat, r: Option<nat>, ps: string, v: Vnode, e: Env)
    requires Ranked(tbl)
    ensures var res := Mount(tbl, p, r, ps, v, e); CreatesExactly(e, res.1, Nodes(res.0))
    decreases Rank(v), Size(v), 1
  {
    var res := Mount(tbl, p, r, ps, v, e);
    if v.Empty? || v.Leaf? {
      MountItemCreates(p, r, ps, v, e);
    } else if v.Element? {
      MountElementCreates(tbl, p, r, ps, v, e);
    } else if v.List? {
      ItemsMeasure(v);
      MountSeqCreates(tbl, p, r, ps, v.Items(), e);
    } else {
      MountComponentCreates(tbl, p, r, ps, v, e);
    }
  }

  /** An empty or leaf vnode's mount creates its one node. */
  lemma MountItemCreates(p: nat, r: Option<nat>, ps: string, v: Vnode, e: Env)
    requires v.Empty? || v.Leaf?
    ensures var res := MountItem(p, r, ps, v, e); CreatesExactly(e, res.1, Nodes(res.0))
  {
    var res := MountItem(p, r, ps, v, e);
    var n := e.next;
    assert Nodes(res.0) == [n] + [];
    assert Delta(e, res.1) == [CreateNode(n)] + [InsertBefore(p, n, r)];
    CallsCons(InsertBefore(p, n, r), []);
    CallsCons(CreateNode(n), [InsertBefore(p, n, r)]);
  }

  lemma ChainCreates(e0: Env, e1: Env, e2: Env, a: seq<nat>, b: seq<nat>)
    requires Extends(e0, e1) && Extends(e1, e2)
    requires CreatesExactly(e0, e1, a) && CreatesExactly(e1, e2, b)
    ensures e0.trace <= e2.trace && CreatesExactly(e0, e2, a + b)
  {
    Chain(e0, e1, e2);
    CreatedAppend(Delta(e0, e1), Delta(e1, e2));
    RemovedAppend(Delta(e0, e1), Delta(e1, e2));
  }

  lemma CallsCons(c: Call, t: seq<Call>)
    ensures Created([c] + t) == (if c.CreateNode? then [c.node] else []) + Created(t)
    ensures Removed([c] + t) == (if c.RemoveChild? then [c.child] else []) + Removed(t)
    ensures forall q ::
      InsertsUnder([c] + t, q) == (if c.InsertBefore? && c.parent == q then [c] else []) + InsertsUnder(t, q)
  {
    assert ([c] + t)[1..] == t;
  }

  /** The calls an element mount makes before its children create its node and nothing
      else. */
  lemma ElementPrefix(n: nat, p: nat, r: Option<nat>)
    ensures var pre := [CreateNode(n), InsertBefore(p, n, r), MountAttrs(BeforeChildren, n)];
      Created(pre) == [n] && Removed(pre) == []
  {
    CallsCons(MountAttrs(BeforeChildren, n), []);
    CallsCons(InsertBefore(p, n, r), [MountAttrs(BeforeChildren, n)]);
    CallsCons(CreateNode(n), [InsertBefore(p, n, r), MountAttrs(BeforeChildren, n)]);
    assert [CreateNode(n), InsertBefore(p, n, r), MountAttrs(BeforeChildren, n)]
      == [CreateNode(n)] + ([InsertBefore(p, n, r)] + [MountAttrs(BeforeChildren, n)]);
  }

  lemma {:induction false} MountElementCreates(tbl: Table, p: nat, r: Option<nat>, ps: string, v: Vnode, e: Env)
    requires Ranked(tbl) && v.Element?
    ensures var res := MountElement(tbl, p, r, ps, v, e); CreatesExactly(e, res.1, Nodes(res.0))
    decreases Rank(v), Size(v), 0
  {
    var n := e.next;
    var e2 := Log(InsertBeforeOp(Create(e).1, p, n, r), MountAttrs(BeforeChildren, n));
    if v.Kids().Some? {
      var st := DomEnv.CreateState(v, ps);
      var (cr, e3) := Mount(tbl, n, None, st, v.Kids().value, e2);
      MountCreates(tbl, n, None, st, v.Kids().value, e2);
      ElementWrapCreates(tbl, p, r, ps, v, e, e2, cr, e3);
    } else {
      ElementWrapCreates(tbl, p, r, ps, v, e, e2, ItemRef(v, 0, None, ""), e2);
    }
  }

  /** The element's own calls around its children's: what a childless element creates is
      its node; with children, its node and then theirs. */
  lemma ElementWrapCreates(tbl: Table, p: nat, r: Option<nat>, ps: string, v: Vnode, e: Env, e2: Env, cr: Ref, e3: Env)
    requires Ranked(tbl) && v.Element?
    requires e2 == Log(InsertBeforeOp(Create(e).1, p, e.next, r), MountAttrs(BeforeChildren, e.next))
    requires v.Kids().Some? ==> (cr, e3) == Mount(tbl, e.next, None, DomEnv.CreateState(v, ps), v.Kids().value, e2)
    requires v.Kids().Some? ==> e2.trace <= e3.trace && CreatesExactly(e2, e3, Nodes(cr))
    requires v.Kids().None? ==> e3 == e2
    ensures var res := MountElement(tbl, p, r, ps, v, e); CreatesExactly(e, res.1, Nodes(res.0))
  {
    var res := MountElement(tbl, p, r, ps, v, e);
    var n := e.next;
    var st := DomEnv.CreateState(v, ps);
    var pre := [CreateNode(n), InsertBefore(p, n, r), MountAttrs(BeforeChildren, n)];
    var post := [MountAttrs(AfterChildren, n)];
    assert e2.trace == e.trace + pre && e2.next == n + 1;
    ElementPrefix(n, p, r);
    CallsCons(MountAttrs(AfterChildren, n), []);
    if v.Kids().Some? {
      assert res == (ItemRef(v, n, Some(cr), st), Log(e3, MountAttrs(AfterChildren, n)));
      WrapCreates(e, e2, e3, res.1, pre, post, [n], Nodes(cr));
      assert Nodes(res.0) == [n] + Nodes(cr);
    } else {
      assert res == (ItemRef(v, n, None, st), Log(e2, MountAttrs(AfterChildren, n)));
      assert Delta(e2, e2) == [];
      WrapCreates(e, e2, e2, res.1, pre, post, [n], []);
      assert Nodes(res.0) == [n] + [];
    }
  }

  lemma {:induction false} MountComponentCreates(tbl: Table, p: nat, r: Option<nat>, ps: string, v: Vnode, e: Env)
    requires Ranked(tbl) && v.Component?
    ensures var res := MountComponent(tbl, p, r, ps, v, e); CreatesExactly(e, res.1, Nodes(res.0))
    decreases Rank(v), Size(v), 0
  {
    var res := MountComponent(tbl, p, r, ps, v, e);
    var (inst, e1) := NewInstance(e);
    var e2 := Log(e1, Hook(inst, Instance.Event.Mount));
    var rv := tbl(v.factory, v.cprops);
    var (rr, e3) := Mount(tbl, p, r, ps, rv, e2);
    assert res == (ComponentRef(v, inst, v.cprops, rr), Log(e3, Hook(inst, Instance.Event.Mounted)));
    MountCreates(tbl, p, r, ps, rv, e2);
    CallsCons(Hook(inst, Instance.Event.Mount), []);
    CallsCons(Hook(inst, Instance.Event.Mounted), []);
    WrapCreates(e, e2, e3, res.1, [Hook(inst, Instance.Event.Mount)], [Hook(inst, Instance.Event.Mounted)], [], Nodes(rr));
    assert [] + Nodes(rr) == Nodes(res.0);
  }

  lemma {:induction false} MountSeqCreates(tbl: Table, p: nat, r: Option<nat>, ps: string, vs: seq<Vnode>, e: Env)
    requires Ranked(tbl)
    ensures var res := MountSeq(tbl, p, r, ps, vs, e); CreatesExactly(e, res.1, NodesSeq(res.0))
    decreases RankSeq(vs), SizeSeq(vs), 5
  {
    if |vs| > 0 {
      SizePositive(vs[0]);
      var (r0, e1) := Mount(tbl, p, r, ps, vs[0], e);
      var (rs, e2) := MountSeq(tbl, p, r, ps, vs[1..], e1);
      MountCreates(tbl, p, r, ps, vs[0], e);
      MountSeqCreates(tbl, p, r, ps, vs[1..], e1);
      ChainCreates(e, e1, e2, Nodes(r0), NodesSeq(rs));
      assert ([r0] + rs)[1..] == rs;
    } else {
      assert Delta(e, e) == [];
    }
  }

  // ---------------------------------------------------------------------------
  // unmount removes exactly the ref's nodes, children first, lists backwards
  // ---------------------------------------------------------------------------

  /** The calls between `e` and `e'` remove exactly the nodes `ns`, in order, and create
      nothing. */
  predicate RemovesExactly(e: Env, e': Env, ns: seq<nat>)
    requires e.trace <= e'.trace
  {
    Removed(Delta(e, e')) == ns && Created(Delta(e, e')) == []
  }

  lemma ItemUnmountCalls(n: nat, q: nat, mid: seq<Call>)
    ensures var all := [UnmountAttrs(BeforeChildren, n)] + mid
                       + [UnmountAttrs(AfterChildren, n), RemoveChild(q, n)];
      Created(all) == Created(mid) && Removed(all) == Removed(mid) + [n]
  {
    var tail := [UnmountAttrs(AfterChildren, n), RemoveChild(q, n)];
    CallsCons(RemoveChild(q, n), []);
    CallsCons(UnmountAttrs(AfterChildren, n), [RemoveChild(q, n)]);
    CallsCons(UnmountAttrs(BeforeChildren, n), mid + tail);
    CreatedAppend(mid, tail);
    RemovedAppend(mid, tail);
    assert [UnmountAttrs(BeforeChildren, n)] + mid + tail == [UnmountAttrs(BeforeChildren, n)] + (mid + tail);
  }

  /** A call that neither creates, inserts nor removes a node. */
  predicate Quiet(c: Call) {
    !c.CreateNode? && !c.InsertBefore? && !c.RemoveChild?
  }

  lemma BracketCalls(a: Call, mid: seq<Call>, b: Call)
    requires Quiet(a) && Quiet(b)
    ensures Created([a] + mid + [b]) == Created(mid) && Removed([a] + mid + [b]) == Removed(mid)
  {
    CallsCons(b, []);
    CallsCons(a, mid + [b]);
    CreatedAppend(mid, [b]);
    RemovedAppend(mid, [b]);
    assert [a] + mid + [b] == [a] + (mid + [b]);
  }

  lemma DeltaSplit(e: Env, e1: Env, e2: Env, e': Env, pre: seq<Call>, post: seq<Call>)
    requires e1.trace == e.trace + pre && e1.trace <= e2.trace && e'.trace == e2.trace + post
    ensures e.trace <= e'.trace && Delta(e, e') == pre + Delta(e1, e2) + post
  {
    var mid := Delta(e1, e2);
    assert e2.trace == e1.trace + mid;
    assert e'.trace == e.trace + (pre + mid + post);
  }

  /** Calls that create `k` (fresh) and nothing else, around a stretch that creates
      exactly `ns`, create exactly `k + ns`. */
  lemma WrapCreates(e: Env, e1: Env, e2: Env, e': Env, pre: seq<Call>, post: seq<Call>, k: seq<nat>, ns: seq<nat>)
    requires e1.trace == e.trace + pre && e1.trace <= e2.trace && e'.trace == e2.trace + post
    requires e.next <= e1.next <= e2.next <= e'.next
    requires Created(pre) == k && Removed(pre) == [] && FreshIn(k, e, e1)
    requires Created(post) == [] && Removed(post) == []
    requires CreatesExactly(e1, e2, ns)
    ensures e.trace <= e'.trace && CreatesExactly(e, e', k + ns)
  {
    var mid := Delta(e1, e2);
    DeltaSplit(e, e1, e2, e', pre, post);
    CreatedAppend(pre + mid, post);
    CreatedAppend(pre, mid);
    RemovedAppend(pre + mid, post);
    RemovedAppend(pre, mid);
    FreshConcat(k, ns, e, e1, e');
  }

  /** Two quiet calls around a stretch of calls: the stretch's nodes are what the whole
      creates and removes. */
  lemma Bracketed(e: Env, e1: Env, e2: Env, e': Env, a: Call, b: Call)
    requires Quiet(a) && Quiet(b)
    requires e1.trace == e.trace + [a] && e1.trace <= e2.trace && e'.trace == e2.trace + [b]
    ensures e.trace <= e'.trace && Delta(e, e') == [a] + Delta(e1, e2) + [b]
    ensures Created(Delta(e, e')) == Created(Delta(e1, e2)) && Removed(Delta(e, e')) == Removed(Delta(e1, e2))
  {
    DeltaSplit(e, e1, e2, e', [a], [b]);
    BracketCalls(a, Delta(e1, e2), b);
  }

  /** An unmount removes the ref's nodes in teardown order and creates nothing. */
  lemma {:induction false} UnmountRemoves(r: Ref, e: Env)
    ensures RemovesExactly(e, Unmount(r, e), Teardown(r))
    decreases r
  {
    match r
    case ItemRef(_, n, c, _) =>
      var e1 := Log(e, UnmountAttrs(BeforeChildren, n));
      var e2 := if c.Some? then Unmount(c.value, e1) else e1;
      var e3 := Log(e2, UnmountAttrs(AfterChildren, n));
      var mid := Delta(e1, e2);
      assert Unmount(r, e).trace == e2.trace + [UnmountAttrs(AfterChildren, n), RemoveChild(ParentOf(e3, n), n)];
      DeltaSplit(e, e1, e2, Unmount(r, e), [UnmountAttrs(BeforeChildren, n)],
        [UnmountAttrs(AfterChildren, n), RemoveChild(ParentOf(e3, n), n)]);
      ItemUnmountCalls(n, ParentOf(e3, n), mid);
      if c.Some? {
        UnmountRemoves(c.value, e1);
      } else {
        assert mid == [];
      }
    case ListRef(_, rs) =>
      UnmountRevRemoves(rs, e);
    case ComponentRef(_, inst, _, rr) =>
      var e1 := Log(e, Hook(inst, Instance.Event.Unmount));
      var e2 := Unmount(rr, e1);
      UnmountRemoves(rr, e1);
      Bracketed(e, e1, e2, Unmount(r, e), Hook(inst, Instance.Event.Unmount), Hook(inst, Instance.Event.Unmounted));
  }

  lemma {:induction false} UnmountRevRemoves(rs: seq<Ref>, e: Env)
    ensures RemovesExactly(e, UnmountRev(rs, e), TeardownRev(rs))
    decreases rs
  {
    if |rs| == 0 {
      assert Delta(e, e) == [];
    } else {
      var e1 := Unmount(rs[|rs| - 1], e);
      UnmountRemoves(rs[|rs| - 1], e);
      UnmountRevRemoves(rs[..|rs| - 1], e1);
      Chain(e, e1, UnmountRev(rs, e));
      CreatedAppend(Delta(e, e1), Delta(e1, UnmountRev(rs, e)));
      RemovedAppend(Delta(e, e1), Delta(e1, UnmountRev(rs, e)));
    }
  }

  // ---------------------------------------------------------------------------
  // mount then unmount: one removeChild per createNode
  // ---------------------------------------------------------------------------

  lemma {:induction false} TeardownRevSplit(rs: seq<Ref>)
    requires |rs| > 0
    ensures multiset(TeardownRev(rs)) == multiset(Teardown(rs[0])) + multiset(TeardownRev(rs[1..]))
    decreases |rs|
  {
    if |rs| > 1 {
      var k := |rs| - 1;
      var mid := rs[1..k];
      assert rs[..k][0] == rs[0] && rs[..k][1..] == mid;
      assert rs[1..][k - 1] == rs[k] && rs[1..][..k - 1] == mid;
      assert TeardownRev(rs[1..]) == Teardown(rs[k]) + TeardownRev(mid);
      calc {
        multiset(TeardownRev(rs));
        multiset(Teardown(rs[k]) + TeardownRev(rs[..k]));
        multiset(Teardown(rs[k])) + multiset(TeardownRev(rs[..k]));
        { TeardownRevSplit(rs[..k]); }
        multiset(Teardown(rs[k])) + (multiset(Teardown(rs[0])) + multiset(TeardownRev(mid)));
        multiset(Teardown(rs[0])) + multiset(Teardown(rs[k]) + TeardownRev(mid));
      }
    } else {
      assert rs[..0] == [] && rs[1..] == [];
    }
  }

  /** Teardown order lists exactly the ref's nodes, each as often. */
  lemma {:induction false} TeardownPermutesNodes(r: Ref)
    ensures multiset(Teardown(r)) == multiset(Nodes(r))
    decreases r
  {
    match r
    case ItemRef(_, n, c, _) =>
      if c.Some? {
        TeardownPermutesNodes(c.value);
      }
    case ListRef(_, rs) =>
      TeardownRevPermutesNodes(rs);
    case ComponentRef(_, _, _, rr) =>
      TeardownPermutesNodes(rr);
  }

  lemma {:induction false} TeardownRevPermutesNodes(rs: seq<Ref>)
    ensures multiset(TeardownRev(rs)) == multiset(NodesSeq(rs))
    decreases rs
  {
    if |rs| > 0 {
      TeardownRevSplit(rs);
      TeardownPermutesNodes(rs[0]);
      TeardownRevPermutesNodes(rs[1..]);
    }
  }

  /** The children test is `== null`: an element whose `children` prop is absent, `null`
      or `undefined` owns only its own node, while `false` or `[]` children are mounted
      as an empty vnode, a comment node of their own right after the element's. */
  lemma ElementChildrenNullTest(tbl: Table, p: nat, r: Option<nat>, ps: string, v: Vnode, e: Env)
    requires Ranked(tbl) && v.Element?
    ensures var res := Mount(tbl, p, r, ps, v, e).0;
      && (v.children.None? || Nullish(v.children.value) ==> res.childRef.None? && Nodes(res) == [e.next])
      && (v.children.Some? && v.children.value.Empty? && !Nullish(v.children.value) ==>
            res.childRef.Some? && Nodes(res) == [e.next, e.next + 1])
  {
    assert Mount(tbl, p, r, ps, v, e) == MountElement(tbl, p, r, ps, v, e);
    if v.Kids().Some? && v.Kids().value.Empty? {
      ElementEmptyKidsNodes(tbl, p, r, ps, v, e);
    } else if v.Kids().None? {
      ElementNoKidsNodes(tbl, p, r, ps, v, e);
    }
  }

  lemma ElementNoKidsNodes(tbl: Table, p: nat, r: Option<nat>, ps: string, v: Vnode, e: Env)
    requires Ranked(tbl) && v.Element? && v.Kids().None?
    ensures var res := MountElement(tbl, p, r, ps, v, e).0; res.childRef.None? && Nodes(res) == [e.next]
  {
    var res := MountElement(tbl, p, r, ps, v, e).0;
    assert res == ItemRef(v, e.next, None, DomEnv.CreateState(v, ps));
    assert Nodes(res) == [e.next] + [];
  }

  lemma ElementEmptyKidsNodes(tbl: Table, p: nat, r: Option<nat>, ps: string, v: Vnode, e: Env)
    requires Ranked(tbl) && v.Element? && v.Kids().Some? && v.Kids().value.Empty?
    ensures var res := MountElement(tbl, p, r, ps, v, e).0; res.childRef.Some? && Nodes(res) == [e.next, e.next + 1]
  {
    var res := MountElement(tbl, p, r, ps, v, e).0;
    var n := e.next;
    var e2 := Log(InsertBeforeOp(Create(e).1, p, n, r), MountAttrs(BeforeChildren, n));
    var st := DomEnv.CreateState(v, ps);
    var cr := MountItem(n, None, st, v.Kids().value, e2).0;
    assert Mount(tbl, n, None, st, v.Kids().value, e2).0 == cr;
    assert res == ItemRef(v, n, Some(cr), st);
    assert Nodes(cr) == [n + 1] + [];
  }

  /** Mounting a vnode and then unmounting the ref it produced removes exactly the nodes
      the mount created, each once: one `removeChild` per `createNode`. */
  lemma MountThenUnmount(tbl: Table, p: nat, r: Option<nat>, ps: string, v: Vnode, e: Env)
    requires Ranked(tbl)
    ensures var (ref, e1) := Mount(tbl, p, r, ps, v, e);
      var e2 := Unmount(ref, e1);
      && multiset(Removed(Delta(e1, e2))) == multiset(Created(Delta(e, e1)))
      && Removed(Delta(e, e1)) == [] && Created(Delta(e1, e2)) == []
  {
    var (ref, e1) := Mount(tbl, p, r, ps, v, e);
    MountCreates(tbl, p, r, ps, v, e);
    UnmountRemoves(ref, e1);
    TeardownPermutesNodes(ref);
  }

  // ---------------------------------------------------------------------------
  // update_idx and refNodeLast
  // ---------------------------------------------------------------------------

  /** `update_idx` moves the ref's top-level nodes, in order, before the reference node. */
  lemma {:induction false} UpdateIdxMoves(ref: Ref, p: nat, a: Option<nat>, e: Env)
    ensures Delta(e, UpdateIdx(ref, p, a, e)) == MoveCalls(TopNodes(ref), p, a)
    decreases ref
  {
    match ref
    case ItemRef(_, n, _, _) =>
      assert Delta(e, UpdateIdx(ref, p, a, e)) == [InsertBefore(p, n, a)];
    case ListRef(_, rs) =>
      UpdateIdxSeqMoves(rs, p, a, e);
    case ComponentRef(_, _, _, rr) =>
      UpdateIdxMoves(rr, p, a, e);
  }

  lemma {:induction false} UpdateIdxSeqMoves(rs: seq<Ref>, p: nat, a: Option<nat>, e: Env)
    ensures Delta(e, UpdateIdxSeq(rs, p, a, e)) == MoveCalls(TopNodesSeq(rs), p, a)
    decreases rs
  {
    if |rs| == 0 {
      assert Delta(e, e) == [];
    } else {
      var e1 := UpdateIdx(rs[0], p, a, e);
      UpdateIdxMoves(rs[0], p, a, e);
      UpdateIdxSeqMoves(rs[1..], p, a, e1);
      Chain(e, e1, UpdateIdxSeq(rs, p, a, e));
      MoveCallsAppend(TopNodes(rs[0]), TopNodesSeq(rs[1..]), p, a);
    }
  }

  /** `refNodeLast` is the last of the ref's top-level nodes. */
  lemma {:induction false} RefNodeLastIsLast(ref: Ref)
    requires Wf(ref)
    ensures |TopNodes(ref)| > 0 && RefNodeLast(ref) == TopNodes(ref)[|TopNodes(ref)| - 1]
    decreases ref
  {
    match ref
    case ItemRef(_, _, _, _) =>
    case ListRef(_, rs) =>
      var k := |rs| - 1;
      RefNodeLastIsLast(rs[k]);
      assert rs == rs[..k] + [rs[k]];
      TopNodesSeqAppend(rs[..k], [rs[k]]);
      assert TopNodesSeq([rs[k]]) == TopNodes(rs[k]) + TopNodesSeq([]);
    case ComponentRef(_, _, _, rr) =>
      RefNodeLastIsLast(rr);
  }

  // ---------------------------------------------------------------------------
  // where a mount inserts
  // ---------------------------------------------------------------------------

  /** The `insertBefore` calls between `e` and `e'` put exactly the nodes `ns` under `p`,
      in order, each before `r`, and put nothing under any other node that existed at `e`. */
  predicate InsertsExactly(e: Env, e': Env, p: nat, r: Option<nat>, ns: seq<nat>)
    requires e.trace <= e'.trace
  {
    && InsertsUnder(Delta(e, e'), p) == MoveCalls(ns, p, r)
    && forall q: nat :: q < e.next && q != p ==> InsertsUnder(Delta(e, e'), q) == []
  }

  /** The element's own calls before its children insert its node under `p` and nothing
      under any other node. */
  lemma ElementPrefixInserts(n: nat, p: nat, r: Option<nat>, q: nat)
    ensures var pre := [CreateNode(n), InsertBefore(p, n, r), MountAttrs(BeforeChildren, n)];
      InsertsUnder(pre, q) == if q == p then MoveCalls([n], p, r) else []
  {
    CallsCons(MountAttrs(BeforeChildren, n), []);
    CallsCons(InsertBefore(p, n, r), [MountAttrs(BeforeChildren, n)]);
    CallsCons(CreateNode(n), [InsertBefore(p, n, r), MountAttrs(BeforeChildren, n)]);
    assert [CreateNode(n), InsertBefore(p, n, r), MountAttrs(BeforeChildren, n)]
      == [CreateNode(n)] + ([InsertBefore(p, n, r)] + [MountAttrs(BeforeChildren, n)]);
  }

  /** Calls that insert `k` under `p` and nothing elsewhere, around a stretch that inserts
      `ns` under `p` and nothing under the other nodes that existed at `e`, insert exactly
      `k + ns`. */
  lemma WrapInserts(e: Env, e1: Env, e2: Env, e': Env, pre: seq<Call>, post: seq<Call>, p: nat, r: Option<nat>,
                    k: seq<nat>, ns: seq<nat>)
    requires e1.trace == e.trace + pre && e1.trace <= e2.trace && e'.trace == e2.trace + post
    requires p < e.next
    requires InsertsUnder(pre, p) == MoveCalls(k, p, r) && InsertsUnder(post, p) == []
    requires forall q: nat :: q < e.next && q != p ==> InsertsUnder(pre, q) == [] && InsertsUnder(post, q) == []
    requires InsertsUnder(Delta(e1, e2), p) == MoveCalls(ns, p, r)
    requires forall q: nat :: q < e.next && q != p ==> InsertsUnder(Delta(e1, e2), q) == []
    ensures e.trace <= e'.trace && InsertsExactly(e, e', p, r, k + ns)
  {
    var mid := Delta(e1, e2);
    DeltaSplit(e, e1, e2, e', pre, post);
    InsertsUnderThree(pre, mid, post, p);
    MoveCallsAppend(k, ns, p, r);
    forall q: nat | q < e.next && q != p ensures InsertsUnder(Delta(e, e'), q) == [] {
      InsertsUnderThree(pre, mid, post, q);
    }
  }

  lemma InsertsUnderThree(a: seq<Call>, b: seq<Call>, c: seq<Call>, q: nat)
    ensures InsertsUnder(a + b + c, q) == InsertsUnder(a, q) + InsertsUnder(b, q) + InsertsUnder(c, q)
  {
    InsertsUnderAppend(a + b, c, q);
    InsertsUnderAppend(a, b, q);
  }

  /** An empty or leaf vnode's mount inserts its one node under `p`, before `r`. */
  lemma MountItemInserts(p: nat, r: Option<nat>, ps: string, v: Vnode, e: Env)
    requires (v.Empty? || v.Leaf?) && p < e.next
    ensures var res := MountItem(p, r, ps, v, e); InsertsExactly(e, res.1, p, r, TopNodes(res.0))
  {
    var res := MountItem(p, r, ps, v, e);
    var n := e.next;
    assert res.0.node == n;
    assert Delta(e, res.1) == [CreateNode(n)] + [InsertBefore(p, n, r)];
    CallsCons(InsertBefore(p, n, r), []);
    CallsCons(CreateNode(n), [InsertBefore(p, n, r)]);
  }

  lemma BracketInserts(a: Call, mid: seq<Call>, b: Call, q: nat)
    requires Quiet(a) && Quiet(b)
    ensures InsertsUnder([a] + mid + [b], q) == InsertsUnder(mid, q)
  {
    CallsCons(b, []);
    CallsCons(a, mid + [b]);
    InsertsUnderAppend(mid, [b], q);
    assert [a] + mid + [b] == [a] + (mid + [b]);
  }

  /** A mount into an existing parent inserts the ref's top-level nodes under it, in
      order, each before the same reference node; all other insertions go under nodes the
      mount itself created. */
  lemma {:induction false} MountInserts(tbl: Table, p: nat, r: Option<nat>, ps: string, v: Vnode, e: Env)
    requires Ranked(tbl) && p < e.next
    ensures var res := Mount(tbl, p, r, ps, v, e); InsertsExactly(e, res.1, p, r, TopNodes(res.0))
    decreases Rank(v), Size(v), 1
  {
    var res := Mount(tbl, p, r, ps, v, e);
    if v.Empty? || v.Leaf? {
      MountItemInserts(p, r, ps, v, e);
    } else if v.Element? {
      MountElementInserts(tbl, p, r, ps, v, e);
    } else if v.List? {
      ItemsMeasure(v);
      MountSeqInserts(tbl, p, r, ps, v.Items(), e);
    } else {
      MountComponentInserts(tbl, p, r, ps, v, e);
    }
  }

  lemma {:induction false} MountElementInserts(tbl: Table, p: nat, r: Option<nat>, ps: string, v: Vnode, e: Env)
    requires Ranked(tbl) && v.Element? && p < e.next
    ensures var res := MountElement(tbl, p, r, ps, v, e); InsertsExactly(e, res.1, p, r, TopNodes(res.0))
    decreases Rank(v), Size(v), 0
  {
    var n := e.next;
    var e2 := Log(InsertBeforeOp(Create(e).1, p, n, r), MountAttrs(BeforeChildren, n));
    if v.Kids().Some? {
      var st := DomEnv.CreateState(v, ps);
      var (cr, e3) := Mount(tbl, n, None, st, v.Kids().value, e2);
      MountInserts(tbl, n, None, st, v.Kids().value, e2);
      ElementWrapInserts(tbl, p, r, ps, v, e, e2, cr, e3);
    } else {
      ElementWrapInserts(tbl, p, r, ps, v, e, e2, ItemRef(v, 0, None, ""), e2);
    }
  }

  /** The element's own calls around its children's: its node is the one thing inserted
      under `p`; the children go under the node itself. */
  lemma ElementWrapInserts(tbl: Table, p: nat, r: Option<nat>, ps: string, v: Vnode, e: Env, e2: Env, cr: Ref, e3: Env)
    requires Ranked(tbl) && v.Element? && p < e.next
    requires e2 == Log(InsertBeforeOp(Create(e).1, p, e.next, r), MountAttrs(BeforeChildren, e.next))
    requires v.Kids().Some? ==> (cr, e3) == Mount(tbl, e.next, None, DomEnv.CreateState(v, ps), v.Kids().value, e2)
    requires v.Kids().Some? ==> e2.trace <= e3.trace && InsertsExactly(e2, e3, e.next, None, TopNodes(cr))
    requires v.Kids().None? ==> e3 == e2
    ensures var res := MountElement(tbl, p, r, ps, v, e); InsertsExactly(e, res.1, p, r, TopNodes(res.0))
  {
    var res := MountElement(tbl, p, r, ps, v, e);
    var n := e.next;
    var st := DomEnv.CreateState(v, ps);
    var pre := [CreateNode(n), InsertBefore(p, n, r), MountAttrs(BeforeChildren, n)];
    var post := [MountAttrs(AfterChildren, n)];
    assert e2.trace == e.trace + pre && e2.next == n + 1;
    CallsCons(MountAttrs(AfterChildren, n), []);
    ElementPrefixInserts(n, p, r, p);
    forall q: nat | q < e.next && q != p ensures InsertsUnder(pre, q) == [] && InsertsUnder(post, q) == [] {
      ElementPrefixInserts(n, p, r, q);
    }
    if v.Kids().Some? {
      assert res == (ItemRef(v, n, Some(cr), st), Log(e3, MountAttrs(AfterChildren, n)));
    } else {
      assert res == (ItemRef(v, n, None, st), Log(e2, MountAttrs(AfterChildren, n)));
      assert Delta(e2, e2) == [];
    }
    WrapInserts(e, e2, e3, res.1, pre, post, p, r, [n], []);
    assert TopNodes(res.0) == [n] + [];
  }

  lemma {:induction false} MountComponentInserts(tbl: Table, p: nat, r: Option<nat>, ps: string, v: Vnode, e: Env)
    requires Ranked(tbl) && v.Component? && p < e.next
    ensures var res := MountComponent(tbl, p, r, ps, v, e); InsertsExactly(e, res.1, p, r, TopNodes(res.0))
    decreases Rank(v), Size(v), 0
  {
    var res := MountComponent(tbl, p, r, ps, v, e);
    var (inst, e1) := NewInstance(e);
    var e2 := Log(e1, Hook(inst, Instance.Event.Mount));
    var rv := tbl(v.factory, v.cprops);
    var (rr, e3) := Mount(tbl, p, r, ps, rv, e2);
    assert res == (ComponentRef(v, inst, v.cprops, rr), Log(e3, Hook(inst, Instance.Event.Mounted)));
    MountInserts(tbl, p, r, ps, rv, e2);
    var a, b := Hook(inst, Instance.Event.Mount), Hook(inst, Instance.Event.Mounted);
    CallsCons(a, []);
    CallsCons(b, []);
    WrapInserts(e, e2, e3, res.1, [a], [b], p, r, [], TopNodes(rr));
    assert [] + TopNodes(rr) == TopNodes(res.0);
  }

  lemma {:induction false} MountSeqInserts(tbl: Table, p: nat, r: Option<nat>, ps: string, vs: seq<Vnode>, e: Env)
    requires Ranked(tbl) && p < e.next
    ensures var res := MountSeq(tbl, p, r, ps, vs, e); InsertsExactly(e, res.1, p, r, TopNodesSeq(res.0))
    decreases RankSeq(vs), SizeSeq(vs), 5
  {
    if |vs| > 0 {
      SizePositive(vs[0]);
      var (r0, e1) := Mount(tbl, p, r, ps, vs[0], e);
      var (rs, e2) := MountSeq(tbl, p, r, ps, vs[1..], e1);
      MountInserts(tbl, p, r, ps, vs[0], e);
      MountSeqInserts(tbl, p, r, ps, vs[1..], e1);
      Chain(e, e1, e2);
      assert ([r0] + rs)[1..] == rs;
      InsertsUnderAppend(Delta(e, e1), Delta(e1, e2), p);
      MoveCallsAppend(TopNodes(r0), TopNodesSeq(rs), p, r);
      forall q: nat | q < e.next && q != p ensures InsertsUnder(Delta(e, e2), q) == [] {
        InsertsUnderAppend(Delta(e, e1), Delta(e1, e2), q);
      }
    } else {
      assert Delta(e, e) == [];
    }
  }

  /** No in-place case applies: the vnode kinds differ, or the tags, or the factories. */
  predicate Mismatch(a: Vnode, b: Vnode) {
    && !(a.Empty? && b.Empty?)
    && !(a.Leaf? && b.Leaf?)
    && !(a.Element? && b.Element? && a.tag == b.tag)
    && !(a.List? && b.List?)
    && !(a.Component? && b.Component? && a.factory == b.factory)
  }

  // ---------------------------------------------------------------------------
  // the keyed list update
  // ---------------------------------------------------------------------------

  /** A list update returns a list ref over the walk's refs and then unmounts exactly the
      old refs the matching plan left over, last to first; nothing else is removed or
      created after the walk. */
  lemma ListUpdateUnmountsLeftover(tbl: Table, ref: Ref, ps: string, v: Vnode, e: Env)
    requires Ranked(tbl) && Wf(ref) && ref.ListRef? && v.List?
    ensures var res := UpdateList(tbl, ref, ps, v, e);
      var w := ListWalk(tbl, ref, ps, v, e);
      var pl := MatchPlan(VnodesOf(ref.refs), v.Items());
      && res.0 == ListRef(v, w.0)
      && Extends(w.2, res.1)
      && RemovesExactly(w.2, res.1, TeardownRev(Pluck(ref.refs, pl.leftover)))
  {
    var w := ListWalk(tbl, ref, ps, v, e);
    UnmountRevRemoves(Pluck(ref.refs, w.1), w.2);
  }

  /** Which branch `update` takes: a list for a list, a same-tag element, and anything
      else that matches no in-place case is replaced. */
  lemma UpdateDispatch(tbl: Table, ref: Ref, ps: string, v: Vnode, e: Env)
    requires Ranked(tbl) && Wf(ref) && ref.vnode != v
    ensures ref.vnode.List? && v.List? ==> Update(tbl, ref, ps, v, e) == UpdateList(tbl, ref, ps, v, e)
    ensures ref.vnode.Element? && v.Element? && ref.vnode.tag == v.tag ==>
      Update(tbl, ref, ps, v, e) == UpdateElement(tbl, ref, v, e)
    ensures Mismatch(ref.vnode, v) ==> Update(tbl, ref, ps, v, e) == Replace(tbl, ref, ps, v, e)
  {
  }

  /** Mismatch replacement: the mount half creates exactly the new ref's nodes and puts its
      top-level nodes under the old content's parent, in order, each before the old
      content's last node, and nothing under any other existing node; the unmount half then
      removes exactly the old ref's nodes in teardown order. Over the whole replacement the
      created nodes are the new ref's and the removed ones the old ref's. */
  lemma ReplaceCalls(tbl: Table, ref: Ref, ps: string, v: Vnode, e: Env)
    requires Ranked(tbl) && Wf(ref) && ParentOf(e, RefNodeLast(ref)) < e.next
    ensures var last := RefNodeLast(ref);
      var m := Mount(tbl, ParentOf(e, last), Some(last), ps, v, e);
      var res := Replace(tbl, ref, ps, v, e);
      && res.0 == m.0 && e.trace <= m.1.trace && m.1.trace <= res.1.trace
      && CreatesExactly(e, m.1, Nodes(res.0))
      && InsertsExactly(e, m.1, ParentOf(e, last), Some(last), TopNodes(res.0))
      && RemovesExactly(m.1, res.1, Teardown(ref))
      && e.trace <= res.1.trace
      && Created(Delta(e, res.1)) == Nodes(res.0)
      && Removed(Delta(e, res.1)) == Teardown(ref)
  {
    var last := RefNodeLast(ref);
    var (nr, e1) := Mount(tbl, ParentOf(e, last), Some(last), ps, v, e);
    var e2 := Unmount(ref, e1);
    MountCreates(tbl, ParentOf(e, last), Some(last), ps, v, e);
    MountInserts(tbl, ParentOf(e, last), Some(last), ps, v, e);
    UnmountRemoves(ref, e1);
    Chain(e, e1, e2);
    CreatedAppend(Delta(e, e1), Delta(e1, e2));
    RemovedAppend(Delta(e, e1), Delta(e1, e2));
    assert Nodes(nr) + [] == Nodes(nr);
    assert [] + Teardown(ref) == Teardown(ref);
  }

  /** Reusing an old ref first moves its top-level nodes, in order, before the anchor. */
  lemma ReuseRelocates(tbl: Table, olds: seq<Ref>, o: Option<nat>, p: nat, anchor: Option<nat>,
                       ps: string, v: Vnode, e: Env)
    requires Ranked(tbl) && o.Some? && o.value < |olds| && Wf(olds[o.value])
    requires SameKeyType(v, olds[o.value].vnode)
    ensures var res := ReuseOrMount(tbl, olds, o, p, anchor, ps, v, e);
      MoveCalls(TopNodes(olds[o.value]), p, anchor) <= Delta(e, res.1)
  {
    var prev := olds[o.value];
    var e1 := UpdateIdx(prev, p, anchor, e);
    UpdateIdxMoves(prev, p, anchor, e);
    Chain(e, e1, ReuseOrMount(tbl, olds, o, p, anchor, ps, v, e).1);
  }

  // ---------------------------------------------------------------------------
  // same-tag element update
  // ---------------------------------------------------------------------------

  /** A same-tag element update keeps the node and brackets the children step between the
      before- and after-children attribute updates of that node. Children that appear are
      mounted (creating exactly their nodes), children that disappear are unmounted
      (removing exactly their nodes) and dropped, children on both sides are updated
      under the node's own state, and no children on either side means no other call. */
  lemma ElementUpdateBrackets(tbl: Table, ref: Ref, v: Vnode, e: Env)
    requires Ranked(tbl) && Wf(ref) && ref.ItemRef? && ref.vnode.Element? && v.Element?
    ensures var res := UpdateElement(tbl, ref, v, e);
      var n := ref.node;
      var e1 := Log(e, UpdateAttrs(BeforeChildren, n));
      var d := Delta(e, res.1);
      && res.0.node == n
      && |d| >= 2 && d[0] == UpdateAttrs(BeforeChildren, n) && d[|d| - 1] == UpdateAttrs(AfterChildren, n)
      && (ref.vnode.Kids().None? && v.Kids().Some? ==>
            res.0.childRef.Some? && CreatesExactly(e, res.1, Nodes(res.0.childRef.value)))
      && (ref.vnode.Kids().Some? && v.Kids().None? ==>
            res.0.childRef.None? && RemovesExactly(e, res.1, Teardown(ref.childRef.value)))
      && (ref.vnode.Kids().Some? && v.Kids().Some? ==>
            res.0.childRef == Some(Update(tbl, ref.childRef.value, ref.state, v.Kids().value, e1).0))
      && (ref.vnode.Kids().None? && v.Kids().None? ==>
            d == [UpdateAttrs(BeforeChildren, n), UpdateAttrs(AfterChildren, n)])
  {
    var res := UpdateElement(tbl, ref, v, e);
    var n := ref.node;
    var e1 := Log(e, UpdateAttrs(BeforeChildren, n));
    var a, b := UpdateAttrs(BeforeChildren, n), UpdateAttrs(AfterChildren, n);
    var e2: Env;
    if ref.vnode.Kids().None? {
      if v.Kids().Some? {
        e2 := Mount(tbl, n, None, ref.state, v.Kids().value, e1).1;
        MountCreates(tbl, n, None, ref.state, v.Kids().value, e1);
      } else {
        e2 := e1;
      }
    } else if v.Kids().None? {
      e2 := Unmount(ref.childRef.value, e1);
      UnmountRemoves(ref.childRef.value, e1);
    } else {
      e2 := Update(tbl, ref.childRef.value, ref.state, v.Kids().value, e1).1;
    }
    assert res.1 == Log(e2, b);
    Bracketed(e, e1, e2, res.1, a, b);
    if ref.vnode.Kids().None? && v.Kids().Some? {
      assert e1.next == e.next;
    }
  }

  // ---------------------------------------------------------------------------
  // components: the parent's re-render and the instance's own
  // ---------------------------------------------------------------------------

  /** What a component ref shows is what its factory renders for the props of the vnode
      it records. */
  predicate Current(tbl: Table, ref: Ref) {
    ref.ComponentRef? && ref.vnode.Component? && ref.rendered.vnode == tbl(ref.vnode.factory, ref.vnode.cprops)
  }

  /** Mounting a component leaves it current, with the instance holding the vnode's
      props, and fires `mount` then `mounted` of the new instance around the mount of
      what it renders. */
  lemma ComponentMountCurrent(tbl: Table, p: nat, r: Option<nat>, ps: string, v: Vnode, e: Env)
    requires Ranked(tbl) && v.Component?
    ensures var res := MountComponent(tbl, p, r, ps, v, e);
      && Current(tbl, res.0) && res.0.props == v.cprops && res.0.inst == e.next
      && var d := Delta(e, res.1);
         |d| >= 2 && d[0] == Hook(e.next, Instance.Event.Mount) && d[|d| - 1] == Hook(e.next, Instance.Event.Mounted)
  {
    var (inst, e1) := NewInstance(e);
    var e2 := Log(e1, Hook(inst, Instance.Event.Mount));
    var (rr, e3) := Mount(tbl, p, r, ps, tbl(v.factory, v.cprops), e2);
    assert e3.trace == e2.trace + Delta(e2, e3);
  }

  /** A parent's re-render with the same factory keeps the instance and its original
      props, re-renders from the new vnode's props, and leaves the ref current. */
  lemma ComponentUpdateCurrent(tbl: Table, ref: Ref, ps: string, v: Vnode, e: Env)
    requires Ranked(tbl) && Wf(ref) && KeepsInstance(ref, v) && ref.vnode != v
    ensures var res := Update(tbl, ref, ps, v, e);
      && Current(tbl, res.0) && res.0.inst == ref.inst && res.0.props == ref.props
      && res == (ComponentRef(v, ref.inst, ref.props, Update(tbl, ref.rendered, ps, tbl(v.factory, v.cprops), e).0),
                 Update(tbl, ref.rendered, ps, tbl(v.factory, v.cprops), e).1)
  {
  }

  /** With the latest props, an instance's own re-render of a current ref renders the
      same vnode again: the rendered ref and the native tree are untouched and the only
      calls are the instance's `update` and `updated` hooks. */
  lemma RerenderLatestSettled(tbl: Table, ref: Ref, ps: string, e: Env)
    requires Ranked(tbl) && Wf(ref) && Current(tbl, ref)
    ensures var res := RerenderLatest(tbl, ref, ps, e);
      && res.0 == ref
      && res.1.kids == e.kids && res.1.parent == e.parent
      && Delta(e, res.1) == [Hook(ref.inst, Instance.Event.Update), Hook(ref.inst, Instance.Event.Updated)]
  {
    var e1 := Log(e, Hook(ref.inst, Instance.Event.Update));
    assert Update(tbl, ref.rendered, ps, ref.rendered.vnode, e1) == (ref.rendered, e1);
  }

  /** As written, an instance's own re-render uses the props it was created with. A
      component mounted with no props and then given `{x: 1}` by its parent shows what
      it renders for `{x: 1}`; its next `update()` re-renders it back to what it renders
      for no props. */
  lemma RerenderStaleProps()
    ensures var tbl: Table := (fid: nat, p: Props) => if |p| == 0 then Leaf(PStr("a")) else Leaf(PStr("b"));
      var rendered := ItemRef(Leaf(PStr("a")), 6, None, "");
      var ref := ComponentRef(Component(1, 0, [], Undefined), 5, [], rendered);
      var v := Component(2, 0, [("x", Num(1))], Undefined);
      var e := Env(7, map[], map[], []);
      && Ranked(tbl) && Wf(ref) && Current(tbl, ref)
      && var u := Update(tbl, ref, "", v, e);
         && Current(tbl, u.0) && u.0.rendered.vnode == Leaf(PStr("b"))
         && var w := Rerender(tbl, u.0, "", u.1);
            && !Current(tbl, w.0) && w.0.rendered.vnode == Leaf(PStr("a"))
  {
    var tbl: Table := (fid: nat, p: Props) => if |p| == 0 then Leaf(PStr("a")) else Leaf(PStr("b"));
    var rendered := ItemRef(Leaf(PStr("a")), 6, None, "");
    var ref := ComponentRef(Component(1, 0, [], Undefined), 5, [], rendered);
    var v := Component(2, 0, [("x", Num(1))], Undefined);
    var e := Env(7, map[], map[], []);
    assert Ranked(tbl) by {
      forall fid: nat, p: Props ensures Rank(tbl(fid, p)) <= fid {
      }
    }
    assert KeepsInstance(ref, v);
    ComponentUpdateCurrent(tbl, ref, "", v, e);
    var u := Update(tbl, ref, "", v, e);
    assert u.0.rendered.vnode == Leaf(PStr("b"));
    var w := Rerender(tbl, u.0, "", u.1);
    assert tbl(0, []) == Leaf(PStr("a"));
  }
}
