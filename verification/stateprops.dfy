/** How the environment state (the XML namespace) flows down a mounted tree: every item
    holds the state `createNode` derives from its parent's, so an element that sets no
    namespace of its own carries its nearest ancestor's, and an `xmlns` prop governs the
    whole subtree below it until another element sets one. */
module StateProps {
  import opened Options
  import opened Vnodes
  import opened Native
  import opened Reconciler
  import Instance
  import DomEnv

  /** The states a ref's items hold when `ps` is the state of the slot it is mounted in:
      an item holds what `createNode` derives from `ps` for its vnode and its children
      inherit that; list members and what a component renders share the slot's state. */
  predicate StatesFrom(r: Ref, ps: string)
    decreases r
  {
    match r
    case ItemRef(v, _, c, st) =>
      && v.IsEnv()
      && st == DomEnv.CreateState(v, ps)
      && (c.Some? ==> StatesFrom(c.value, st))
    case ListRef(_, rs) => forall i :: 0 <= i < |rs| ==> StatesFrom(rs[i], ps)
    case ComponentRef(_, _, _, rr) => StatesFrom(rr, ps)
  }

  predicate StatesFromAll(rs: seq<Ref>, ps: string) {
    forall i :: 0 <= i < |rs| ==> StatesFrom(rs[i], ps)
  }

  /** The element sets a namespace of its own: a non-empty string `xmlns` prop, or a tag
      the namespace table lists. */
  predicate SetsNamespace(v: Vnode)
    requires v.Element?
  {
    (Lookup(v.props, "xmlns").Str? && Lookup(v.props, "xmlns").s != "") || v.tag in DomEnv.Namespaces
  }

  /** No element of the ref's tree sets a namespace. */
  predicate Neutral(r: Ref)
    decreases r
  {
    match r
    case ItemRef(v, _, c, _) => (v.Element? ==> !SetsNamespace(v)) && (c.Some? ==> Neutral(c.value))
    case ListRef(_, rs) => forall i :: 0 <= i < |rs| ==> Neutral(rs[i])
    case ComponentRef(_, _, _, rr) => Neutral(rr)
  }

  /** Every item of the ref's tree holds the state `ns`. */
  predicate Uniform(r: Ref, ns: string)
    decreases r
  {
    match r
    case ItemRef(_, _, c, st) => st == ns && (c.Some? ==> Uniform(c.value, ns))
    case ListRef(_, rs) => forall i :: 0 <= i < |rs| ==> Uniform(rs[i], ns)
    case ComponentRef(_, _, _, rr) => Uniform(rr, ns)
  }

  // ---------------------------------------------------------------------------
  // mount hands each item the state derived from its parent's
  // ---------------------------------------------------------------------------

  lemma {:induction false} MountStates(tbl: Table, p: nat, r: Option<nat>, ps: string, v: Vnode, e: Env)
    requires Ranked(tbl)
    ensures StatesFrom(Mount(tbl, p, r, ps, v, e).0, ps)
    decreases Rank(v), Size(v), 1
  {
    if v.Empty? || v.Leaf? {
    } else if v.Element? {
      MountElementStates(tbl, p, r, ps, v, e);
    } else if v.List? {
      ItemsMeasure(v);
      MountSeqStates(tbl, p, r, ps, v.Items(), e);
      assert Mount(tbl, p, r, ps, v, e).0 == ListRef(v, MountSeq(tbl, p, r, ps, v.Items(), e).0);
    } else {
      MountComponentStates(tbl, p, r, ps, v, e);
    }
  }

  /** An element holds `ElementNs` of its tag, its props and the inherited state, and its
      children are mounted with that state as theirs. */
  lemma {:induction false} MountElementStates(tbl: Table, p: nat, r: Option<nat>, ps: string, v: Vnode, e: Env)
    requires Ranked(tbl) && v.Element?
    ensures var res := MountElement(tbl, p, r, ps, v, e).0;
      && res.state == DomEnv.ElementNs(v.tag, v.props, ps)
      && StatesFrom(res, ps)
    decreases Rank(v), Size(v), 0
  {
    var n := e.next;
    var st := DomEnv.CreateState(v, ps);
    var e2 := Log(InsertBeforeOp(Create(e).1, p, n, r), MountAttrs(BeforeChildren, n));
    if v.Kids().Some? {
      MountStates(tbl, n, None, st, v.Kids().value, e2);
    }
  }

  lemma {:induction false} MountComponentStates(tbl: Table, p: nat, r: Option<nat>, ps: string, v: Vnode, e: Env)
    requires Ranked(tbl) && v.Component?
    ensures StatesFrom(MountComponent(tbl, p, r, ps, v, e).0, ps)
    decreases Rank(v), Size(v), 0
  {
    var (inst, e1) := NewInstance(e);
    var e2 := Log(e1, Hook(inst, Instance.Event.Mount));
    MountStates(tbl, p, r, ps, tbl(v.factory, v.cprops), e2);
  }

  lemma {:induction false} MountSeqStates(tbl: Table, p: nat, r: Option<nat>, ps: string, vs: seq<Vnode>, e: Env)
    requires Ranked(tbl)
    ensures StatesFromAll(MountSeq(tbl, p, r, ps, vs, e).0, ps)
    decreases RankSeq(vs), SizeSeq(vs), 5
  {
    if |vs| > 0 {
      SizePositive(vs[0]);
      var (r0, e1) := Mount(tbl, p, r, ps, vs[0], e);
      var rs := MountSeq(tbl, p, r, ps, vs[1..], e1).0;
      MountStates(tbl, p, r, ps, vs[0], e);
      MountSeqStates(tbl, p, r, ps, vs[1..], e1);
      var all := MountSeq(tbl, p, r, ps, vs, e).0;
      assert all == [r0] + rs;
      forall i | 0 <= i < |all| ensures StatesFrom(all[i], ps) {
        if i > 0 {
          assert all[i] == rs[i - 1];
        }
      }
    }
  }

  // ---------------------------------------------------------------------------
  // inheritance and override
  // ---------------------------------------------------------------------------

  /** Below a slot whose state is `ns`, a tree in which no element sets a namespace holds
      `ns` throughout: each element inherits its nearest ancestor's namespace. */
  lemma {:induction false} NeutralInherits(r: Ref, ns: string)
    requires StatesFrom(r, ns) && Neutral(r)
    ensures Uniform(r, ns)
    decreases r
  {
    match r
    case ItemRef(v, _, c, st) =>
      if c.Some? {
        NeutralInherits(c.value, ns);
      }
    case ListRef(_, rs) =>
      forall i | 0 <= i < |rs| ensures Uniform(rs[i], ns) {
        NeutralInherits(rs[i], ns);
      }
    case ComponentRef(_, _, _, rr) =>
      NeutralInherits(rr, ns);
  }

  /** An element with a non-empty `xmlns` takes that namespace whatever it inherits, and
      so does every item of its children's tree when no element there sets one. */
  lemma XmlnsGovernsSubtree(tbl: Table, p: nat, r: Option<nat>, ps: string, v: Vnode, e: Env, x: string)
    requires Ranked(tbl) && v.Element? && Lookup(v.props, "xmlns") == Str(x) && x != ""
    ensures var res := Mount(tbl, p, r, ps, v, e).0;
      && res.ItemRef? && res.state == x
      && (res.childRef.Some? && Neutral(res.childRef.value) ==> Uniform(res.childRef.value, x))
  {
    var res := Mount(tbl, p, r, ps, v, e).0;
    MountElementStates(tbl, p, r, ps, v, e);
    if res.childRef.Some? && Neutral(res.childRef.value) {
      NeutralInherits(res.childRef.value, x);
    }
  }

  /** A mounted tree in which no element sets a namespace holds the state of its slot
      everywhere. */
  lemma NeutralMountInherits(tbl: Table, p: nat, r: Option<nat>, ps: string, v: Vnode, e: Env)
    requires Ranked(tbl)
    ensures var res := Mount(tbl, p, r, ps, v, e).0; Neutral(res) ==> Uniform(res, ps)
  {
    var res := Mount(tbl, p, r, ps, v, e).0;
    MountStates(tbl, p, r, ps, v, e);
    if Neutral(res) {
      NeutralInherits(res, ps);
    }
  }
}
