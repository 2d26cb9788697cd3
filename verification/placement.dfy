/** Where a mount puts its nodes in the native tree: the new top nodes form one block just
    before the reference node among the parent's children, nothing else already in the
    tree moves, and so a mismatch replacement leaves the new content where the old one
    was (src/core.ts:223-229). */
module Placement {
  import opened Options
  import opened Vnodes
  import opened Native
  import opened Reconciler
  import opened ReconcilerProps

  /** Parent links only mention ids already handed out. */
  predicate Allocated(e: Env) {
    forall x: nat :: x in e.parent ==> x < e.next && e.parent[x] < e.next
  }

  /** `cs` with the block `t` placed just before `r`, or at the end when `r` is `None` or
      not among `cs` (the DOM's `insertBefore` with a null reference). */
  function Spliced(cs: seq<nat>, r: Option<nat>, t: seq<nat>): (out: seq<nat>)
    ensures |out| == |cs| + |t|
  {
    var i := if r.Some? then IndexOf(cs, r.value) else |cs|;
    cs[..i] + t + cs[i..]
  }

  /** The block lands just before the first occurrence of `r`, or at the end. */
  lemma SplicedMeaning(cs: seq<nat>, r: Option<nat>, t: seq<nat>)
    ensures r.Some? && r.value in cs ==>
      exists i :: 0 <= i < |cs| && cs[i] == r.value && r.value !in cs[..i] && Spliced(cs, r, t) == cs[..i] + t + cs[i..]
    ensures r.None? || r.value !in cs ==> Spliced(cs, r, t) == cs + t
  {
    assert cs[..|cs|] == cs && cs[|cs|..] == [];
    if r.Some? && r.value in cs {
      var i := IndexOf(cs, r.value);
      assert r.value !in cs[..i];
    }
  }

  /** Children of other nodes and parent links of old nodes are as they were. */
  predicate KeepsOthers(e: Env, e': Env, p: nat) {
    && (forall q: nat :: q < e.next && q != p ==> Kids(e', q) == Kids(e, q))
    && (forall x: nat :: x < e.next ==> (x in e'.parent <==> x in e.parent))
    && (forall x: nat :: x < e.next && x in e.parent ==> e'.parent[x] == e.parent[x])
  }

  /** Between `e` and `e'` the fresh nodes `t` were placed as one block before `r` under
      `p`, and nothing else already in the tree changed. */
  predicate Placed(e: Env, e': Env, p: nat, r: Option<nat>, t: seq<nat>) {
    && e.next <= e'.next
    && Allocated(e')
    && Kids(e', p) == Spliced(Kids(e, p), r, t)
    && KeepsOthers(e, e', p)
    && (forall x :: x in t ==> e.next <= x)
  }

  lemma {:induction false} IndexOfPast(cs: seq<nat>, x: nat, i: nat, t: seq<nat>)
    requires i <= |cs| && x !in cs[..i] && x !in t
    ensures IndexOf(cs[..i] + t + cs[i..], x) == |t| + IndexOf(cs, x)
    decreases i + |t|
  {
    var s := cs[..i] + t + cs[i..];
    if i > 0 {
      assert s[0] == cs[0] && s[1..] == cs[1..][..i - 1] + t + cs[1..][i - 1..];
      assert cs[1..][..i - 1] == cs[..i][1..];
      IndexOfPast(cs[1..], x, i - 1, t);
    } else if |t| > 0 {
      assert s[0] == t[0] && s[1..] == cs[..0] + t[1..] + cs[0..];
      IndexOfPast(cs, x, 0, t[1..]);
    } else {
      assert s == cs;
    }
  }

  /** Two blocks placed before the same reference, one after the other, form one block. */
  lemma SplicedTwice(cs: seq<nat>, r: Option<nat>, t1: seq<nat>, t2: seq<nat>)
    requires r.Some? ==> r.value !in t1
    ensures Spliced(Spliced(cs, r, t1), r, t2) == Spliced(cs, r, t1 + t2)
  {
    var i := if r.Some? then IndexOf(cs, r.value) else |cs|;
    var s := cs[..i] + t1 + cs[i..];
    assert s == Spliced(cs, r, t1);
    var j := if r.Some? then IndexOf(s, r.value) else |s|;
    assert j == i + |t1| by {
      if r.Some? {
        assert r.value !in cs[..i];
        IndexOfPast(cs, r.value, i, t1);
      }
    }
    assert s[..j] == cs[..i] + t1;
    assert s[j..] == cs[i..];
    assert Spliced(s, r, t2) == s[..j] + t2 + s[j..];
    assert cs[..i] + t1 + t2 + cs[i..] == cs[..i] + (t1 + t2) + cs[i..];
  }

  lemma PlacedChain(e0: Env, e1: Env, e2: Env, p: nat, r: Option<nat>, t1: seq<nat>, t2: seq<nat>)
    requires r.Some? ==> r.value < e0.next
    requires Placed(e0, e1, p, r, t1) && Placed(e1, e2, p, r, t2)
    ensures Placed(e0, e2, p, r, t1 + t2)
  {
    SplicedTwice(Kids(e0, p), r, t1, t2);
  }

  /** Creating a node and inserting it before `r` under `p` places exactly that node. */
  lemma PlaceFresh(e: Env, p: nat, r: Option<nat>)
    requires Allocated(e) && p < e.next && (r.Some? ==> r.value < e.next)
    ensures Placed(e, InsertBeforeOp(Create(e).1, p, e.next, r), p, r, [e.next])
  {
    var e' := InsertBeforeOp(Create(e).1, p, e.next, r);
    assert e.next !in e.parent;
    InsertFreshShape(e, p, r);
    InsertFreshFrame(e, e', p, r);
  }

  /** The insertion of a fresh node keeps the tree allocated and touches no other
      parent's children and no other node's parent link. */
  lemma InsertFreshFrame(e: Env, e': Env, p: nat, r: Option<nat>)
    requires Allocated(e) && p < e.next
    requires e'.kids == e.kids[p := Spliced(Kids(e, p), r, [e.next])]
    requires e'.parent == e.parent[e.next := p] && e'.next == e.next + 1
    ensures Allocated(e') && KeepsOthers(e, e', p) && Kids(e', p) == Spliced(Kids(e, p), r, [e.next])
  {
    FreshParentsAllocated(e, e', p);
    OtherKidsKept(e, e', p, Spliced(Kids(e, p), r, [e.next]));
  }

  lemma FreshParentsAllocated(e: Env, e': Env, p: nat)
    requires Allocated(e) && p < e.next
    requires e'.parent == e.parent[e.next := p] && e'.next == e.next + 1
    ensures Allocated(e')
    ensures forall x: nat :: x < e.next ==> (x in e'.parent <==> x in e.parent)
    ensures forall x: nat :: x < e.next && x in e.parent ==> e'.parent[x] == e.parent[x]
  {
    forall x: nat | x in e'.parent ensures x < e'.next && e'.parent[x] < e'.next {
      if x != e.next {
        assert x in e.parent;
      }
    }
  }

  lemma OtherKidsKept(e: Env, e': Env, p: nat, cs: seq<nat>)
    requires e'.kids == e.kids[p := cs]
    ensures forall q: nat :: q != p ==> Kids(e', q) == Kids(e, q)
    ensures Kids(e', p) == cs
  {
  }

  /** Inserting a freshly created node: `p`'s children get it spliced in before `r`, and
      the node's parent link is `p`. */
  lemma InsertFreshShape(e: Env, p: nat, r: Option<nat>)
    requires e.next !in e.parent && r != Some(e.next)
    ensures var e' := InsertBeforeOp(Create(e).1, p, e.next, r);
      && e'.kids == e.kids[p := Spliced(Kids(e, p), r, [e.next])]
      && e'.parent == e.parent[e.next := p]
      && e'.next == e.next + 1
  {
    var (n, e1) := Create(e);
    assert n !in e1.parent;
    assert Detach(e1, n) == e1;
  }

  /** Same children, same parent links, same id counter: only the trace may differ. */
  predicate SameTree(e: Env, e': Env) {
    e.kids == e'.kids && e.parent == e'.parent && e.next == e'.next
  }

  /** Steps that only log (hooks, attribute passes) or only take an instance id do not
      disturb a placement. */
  lemma PlacedFrame(e0: Env, e: Env, e': Env, e1: Env, p: nat, r: Option<nat>, t: seq<nat>)
    requires e0.kids == e.kids && e0.parent == e.parent && e0.next <= e.next
    requires Placed(e, e', p, r, t) && SameTree(e', e1)
    ensures Placed(e0, e1, p, r, t)
  {
    KeepsOthersFrame(e0, e, e', e1, p);
    assert Kids(e1, p) == Kids(e', p) && Kids(e0, p) == Kids(e, p);
  }

  lemma KeepsOthersFrame(e0: Env, e: Env, e': Env, e1: Env, p: nat)
    requires e0.kids == e.kids && e0.parent == e.parent && e0.next <= e.next
    requires KeepsOthers(e, e', p) && SameTree(e', e1)
    ensures KeepsOthers(e0, e1, p)
  {
    forall q: nat | q < e0.next && q != p
      ensures Kids(e1, q) == Kids(e0, q)
    {
      assert Kids(e', q) == Kids(e, q);
    }
  }

  /** A node placed under `p`, then a block placed under that fresh node: only the node
      shows under `p`. */
  lemma PlacedBelow(e: Env, e2: Env, e3: Env, p: nat, r: Option<nat>, n: nat, t: seq<nat>)
    requires p < e.next <= n && Placed(e, e2, p, r, [n]) && Placed(e2, e3, n, None, t)
    ensures Placed(e, e3, p, r, [n])
  {
    assert Kids(e3, p) == Kids(e2, p);
    forall q: nat | q < e.next && q != p
      ensures Kids(e3, q) == Kids(e, q)
    {
      assert q < e2.next && q != n;
      assert Kids(e3, q) == Kids(e2, q);
    }
    forall x: nat | x < e.next
      ensures (x in e3.parent <==> x in e.parent)
      ensures x in e.parent ==> e3.parent[x] == e.parent[x]
    {
      assert x < e2.next;
    }
  }

  /** A mount places the ref's top nodes as one block before `r` under `p` and changes
      nothing else already in the tree. */
  lemma {:induction false} MountPlaces(tbl: Table, p: nat, r: Option<nat>, ps: string, v: Vnode, e: Env)
    requires Ranked(tbl) && Allocated(e) && p < e.next && (r.Some? ==> r.value < e.next)
    ensures var res := Mount(tbl, p, r, ps, v, e); Placed(e, res.1, p, r, TopNodes(res.0))
    decreases Rank(v), Size(v), 1
  {
    if v.Empty? || v.Leaf? {
      PlaceFresh(e, p, r);
    } else if v.Element? {
      MountElementPlaces(tbl, p, r, ps, v, e);
    } else if v.List? {
      ItemsMeasure(v);
      MountSeqPlaces(tbl, p, r, ps, v.Items(), e);
    } else {
      MountComponentPlaces(tbl, p, r, ps, v, e);
    }
  }

  lemma {:induction false} MountElementPlaces(tbl: Table, p: nat, r: Option<nat>, ps: string, v: Vnode, e: Env)
    requires Ranked(tbl) && v.Element? && Allocated(e) && p < e.next && (r.Some? ==> r.value < e.next)
    ensures var res := MountElement(tbl, p, r, ps, v, e); Placed(e, res.1, p, r, TopNodes(res.0))
    decreases Rank(v), Size(v), 0
  {
    var res := MountElement(tbl, p, r, ps, v, e);
    var n := e.next;
    var st := DomEnv.CreateState(v, ps);
    var e1 := InsertBeforeOp(Create(e).1, p, n, r);
    var e2 := Log(e1, MountAttrs(BeforeChildren, n));
    PlaceFresh(e, p, r);
    PlacedFrame(e, e, e1, e2, p, r, [n]);
    if v.Kids().Some? {
      var (cr, e3) := Mount(tbl, n, None, st, v.Kids().value, e2);
      assert res == (ItemRef(v, n, Some(cr), st), Log(e3, MountAttrs(AfterChildren, n)));
      MountPlaces(tbl, n, None, st, v.Kids().value, e2);
      PlacedBelow(e, e2, e3, p, r, n, TopNodes(cr));
      PlacedFrame(e, e, e3, res.1, p, r, [n]);
    } else {
      assert res == (ItemRef(v, n, None, st), Log(e2, MountAttrs(AfterChildren, n)));
      PlacedFrame(e, e, e2, res.1, p, r, [n]);
    }
  }

  lemma {:induction false} MountComponentPlaces(tbl: Table, p: nat, r: Option<nat>, ps: string, v: Vnode, e: Env)
    requires Ranked(tbl) && v.Component? && Allocated(e) && p < e.next && (r.Some? ==> r.value < e.next)
    ensures var res := MountComponent(tbl, p, r, ps, v, e); Placed(e, res.1, p, r, TopNodes(res.0))
    decreases Rank(v), Size(v), 0
  {
    var (inst, e1) := NewInstance(e);
    var e2 := Log(e1, Hook(inst, Instance.Event.Mount));
    var rv := tbl(v.factory, v.cprops);
    var (rr, e3) := Mount(tbl, p, r, ps, rv, e2);
    assert MountComponent(tbl, p, r, ps, v, e) == (ComponentRef(v, inst, v.cprops, rr), Log(e3, Hook(inst, Instance.Event.Mounted)));
    MountPlaces(tbl, p, r, ps, rv, e2);
    PlacedFrame(e, e2, e3, Log(e3, Hook(inst, Instance.Event.Mounted)), p, r, TopNodes(rr));
  }

  lemma {:induction false} MountSeqPlaces(tbl: Table, p: nat, r: Option<nat>, ps: string, vs: seq<Vnode>, e: Env)
    requires Ranked(tbl) && Allocated(e) && p < e.next && (r.Some? ==> r.value < e.next)
    ensures var res := MountSeq(tbl, p, r, ps, vs, e); Placed(e, res.1, p, r, TopNodesSeq(res.0))
    decreases RankSeq(vs), SizeSeq(vs), 5
  {
    if |vs| == 0 {
      assert Spliced(Kids(e, p), r, []) == Kids(e, p);
    } else {
      SizePositive(vs[0]);
      var (r0, e1) := Mount(tbl, p, r, ps, vs[0], e);
      var (rs, e2) := MountSeq(tbl, p, r, ps, vs[1..], e1);
      MountPlaces(tbl, p, r, ps, vs[0], e);
      MountSeqPlaces(tbl, p, r, ps, vs[1..], e1);
      PlacedChain(e, e1, e2, p, r, TopNodes(r0), TopNodesSeq(rs));
      assert ([r0] + rs)[1..] == rs;
    }
  }

  /** Mismatch replacement of a childless item (an empty, a leaf or an element without
      children) whose node `x` sits among its parent's children as `a + [x] + b`: once the
      new content is mounted before `x` and the old item is unmounted, the parent's
      children are `a`, then the new content's top nodes, then `b`. */
  lemma ReplaceTakesPlace(tbl: Table, ref: Ref, ps: string, v: Vnode, e: Env, a: seq<nat>, b: seq<nat>)
    requires Ranked(tbl) && Wf(ref) && Allocated(e)
    requires ref.ItemRef? && ref.childRef.None? && ref.node in e.parent
    requires Kids(e, e.parent[ref.node]) == a + [ref.node] + b && ref.node !in a && ref.node !in b
    ensures var res := Replace(tbl, ref, ps, v, e);
      Kids(res.1, e.parent[ref.node]) == a + TopNodes(res.0) + b
  {
    var x := ref.node;
    var p := e.parent[x];
    assert RefNodeLast(ref) == x && ParentOf(e, x) == p;
    var (nr, e1) := Mount(tbl, p, Some(x), ps, v, e);
    MountBeforeSibling(tbl, ps, v, e, x, a, b);
    UnmountChildlessItem(ref, e1, a + TopNodes(nr), b);
    assert Replace(tbl, ref, ps, v, e) == (nr, Unmount(ref, e1));
  }

  /** Mounting before a child `x` that sits among its parent's children as `a + [x] + b`
      puts the new top nodes between `a` and `x`, and leaves `x` under the same parent. */
  lemma MountBeforeSibling(tbl: Table, ps: string, v: Vnode, e: Env, x: nat, a: seq<nat>, b: seq<nat>)
    requires Ranked(tbl) && Allocated(e) && x in e.parent
    requires Kids(e, e.parent[x]) == a + [x] + b && x !in a
    ensures var (nr, e1) := Mount(tbl, e.parent[x], Some(x), ps, v, e);
      && Kids(e1, e.parent[x]) == (a + TopNodes(nr)) + [x] + b
      && x in e1.parent && e1.parent[x] == e.parent[x]
      && x !in a + TopNodes(nr)
  {
    var p := e.parent[x];
    assert x < e.next;
    var (nr, e1) := Mount(tbl, p, Some(x), ps, v, e);
    MountPlaces(tbl, p, Some(x), ps, v, e);
    SplicedBefore(a, x, b, TopNodes(nr));
  }

  /** A block placed before `x` in `a + [x] + b`, where `a` does not hold `x`, lands
      between `a` and `x`. */
  lemma SplicedBefore(a: seq<nat>, x: nat, b: seq<nat>, t: seq<nat>)
    requires x !in a
    ensures Spliced(a + [x] + b, Some(x), t) == (a + t) + [x] + b
  {
    IndexOfAfterPrefix(a, x, b);
    var cs := a + [x] + b;
    assert cs[..|a|] == a && cs[|a|..] == [x] + b;
  }

  /** Unmounting a childless item takes its node out of its parent's children and keeps
      the other children in order. */
  lemma UnmountChildlessItem(ref: Ref, e: Env, pre: seq<nat>, post: seq<nat>)
    requires ref.ItemRef? && ref.childRef.None? && ref.node in e.parent
    requires Kids(e, e.parent[ref.node]) == pre + [ref.node] + post
    requires ref.node !in pre && ref.node !in post
    ensures Kids(Unmount(ref, e), e.parent[ref.node]) == pre + post
  {
    var x := ref.node;
    var p := e.parent[x];
    var e3 := Log(Log(e, UnmountAttrs(BeforeChildren, x)), UnmountAttrs(AfterChildren, x));
    assert Unmount(ref, e) == RemoveChildOp(e3, p, x);
    assert Kids(e3, p) == pre + ([x] + post);
    RemoveAllAbsentPrefix(pre, x, [x] + post);
    assert RemoveAll([x] + post, x) == post by {
      assert ([x] + post)[1..] == post;
    }
  }
}
