/** The environment port (src/core.ts:58-71) as a pure abstract native tree: a fresh-id
    counter, each node's parent, each node's ordered children, and the trace of the calls
    the reconciler makes. `parentNode` and `nextSibling` are reads and leave no trace. */
module Native {
  import opened Options
  import opened Instance

  datatype Phase = BeforeChildren | AfterChildren

  /** One call on the port, or one firing of an instance's lifecycle hooks. */
  datatype Call =
    | CreateNode(node: nat)
    | InsertBefore(parent: nat, child: nat, reference: Option<nat>)
    | RemoveChild(parent: nat, child: nat)
    | MountAttrs(phase: Phase, node: nat)
    | UpdateAttrs(phase: Phase, node: nat)
    | UnmountAttrs(phase: Phase, node: nat)
    | Hook(inst: nat, event: Event)

  /** Node ids and instance ids come from `next`. Id 0 stands for `null` when a node has
      no parent; the model allocates it like any other id only if `next` starts at 0. */
  datatype Env = Env(next: nat, parent: map<nat, nat>, kids: map<nat, seq<nat>>, trace: seq<Call>)

  const NullNode: nat := 0

  function Log(e: Env, c: Call): (e': Env)
    ensures e'.trace == e.trace + [c] && e'.next == e.next
  {
    e.(trace := e.trace + [c])
  }

  /** `createNode`: a fresh node, not attached anywhere. */
  function Create(e: Env): (r: (nat, Env))
    ensures r.0 == e.next && r.1.next == e.next + 1
    ensures r.1.trace == e.trace + [CreateNode(r.0)]
    ensures r.1.parent == e.parent && r.1.kids == e.kids
  {
    (e.next, Log(e.(next := e.next + 1), CreateNode(e.next)))
  }

  /** A fresh instance id (`createInstance`); no port call. */
  function NewInstance(e: Env): (r: (nat, Env))
    ensures r.0 == e.next && r.1 == e.(next := e.next + 1)
  {
    (e.next, e.(next := e.next + 1))
  }

  function Kids(e: Env, p: nat): seq<nat> {
    if p in e.kids then e.kids[p] else []
  }

  /** `parentNode(n)`, with `NullNode` for `null`. */
  function ParentOf(e: Env, n: nat): nat {
    if n in e.parent then e.parent[n] else NullNode
  }

  function IndexOf(s: seq<nat>, x: nat): (i: nat)
    ensures i <= |s|
    ensures i < |s| ==> s[i] == x
    ensures forall j :: 0 <= j < i ==> s[j] != x
  {
    if |s| == 0 then 0 else if s[0] == x then 0 else 1 + IndexOf(s[1..], x)
  }

  /** `nextSibling(n)`. */
  function NextSibling(e: Env, n: nat): Option<nat> {
    if n !in e.parent then None
    else
      var cs := Kids(e, e.parent[n]);
      var i := IndexOf(cs, n);
      if i + 1 < |cs| then Some(cs[i + 1]) else None
  }

  function RemoveAll(s: seq<nat>, x: nat): (r: seq<nat>)
    ensures x !in r && |r| <= |s|
    ensures x !in s ==> r == s
  {
    if |s| == 0 then [] else (if s[0] == x then [] else [s[0]]) + RemoveAll(s[1..], x)
  }

  /** Only `x` goes: every other member stays. */
  lemma {:induction false} RemoveAllKeeps(s: seq<nat>, x: nat, y: nat)
    requires y != x
    ensures y in RemoveAll(s, x) <==> y in s
    decreases |s|
  {
    if |s| > 0 {
      RemoveAllKeeps(s[1..], x, y);
      assert s == [s[0]] + s[1..];
    }
  }

  /** Take `n` out of its parent's children, if it has a parent. */
  function Detach(e: Env, n: nat): Env {
    if n !in e.parent then e
    else
      var p := e.parent[n];
      e.(kids := e.kids[p := RemoveAll(Kids(e, p), n)], parent := e.parent - {n})
  }

  /** `insertBefore(p, n, r)`: move `n` (out of wherever it was) into `p`'s children, just
      before `r`, or at the end when `r` is `null` or not one of `p`'s children. As in the
      DOM, inserting a node before itself means before its next sibling. */
  function InsertBeforeOp(e: Env, p: nat, n: nat, r: Option<nat>): (e': Env)
    ensures e'.trace == e.trace + [InsertBefore(p, n, r)] && e'.next == e.next
    ensures n in e'.parent && e'.parent[n] == p
  {
    var r' := if r == Some(n) then NextSibling(e, n) else r;
    var e1 := Detach(e, n);
    var cs := Kids(e1, p);
    var i := if r'.Some? then IndexOf(cs, r'.value) else |cs|;
    Log(e1.(kids := e1.kids[p := cs[..i] + [n] + cs[i..]], parent := e1.parent[n := p]), InsertBefore(p, n, r))
  }

  /** `removeChild(p, n)`: detach `n` when `p` is its parent; otherwise the tree is left as
      it is. */
  function RemoveChildOp(e: Env, p: nat, n: nat): (e': Env)
    ensures e'.trace == e.trace + [RemoveChild(p, n)] && e'.next == e.next
    ensures n in e.parent && e.parent[n] == p ==>
      n !in e'.parent && n !in Kids(e', p) && forall x :: x in Kids(e', p) <==> x in Kids(e, p) && x != n
    ensures !(n in e.parent && e.parent[n] == p) ==> e'.parent == e.parent && e'.kids == e.kids
  {
    var e1 := if n in e.parent && e.parent[n] == p then Detach(e, n) else e;
    assert forall y :: y != n ==> (y in RemoveAll(Kids(e, p), n) <==> y in Kids(e, p)) by {
      forall y | y != n ensures y in RemoveAll(Kids(e, p), n) <==> y in Kids(e, p) {
        RemoveAllKeeps(Kids(e, p), n, y);
      }
    }
    Log(e1, RemoveChild(p, n))
  }

  // ---------------------------------------------------------------------------
  // Reading a trace
  // ---------------------------------------------------------------------------

  /** The nodes created, in order. */
  function Created(t: seq<Call>): (r: seq<nat>)
    ensures |r| <= |t|
  {
    if |t| == 0 then [] else (if t[0].CreateNode? then [t[0].node] else []) + Created(t[1..])
  }

  /** The nodes removed, in order. */
  function Removed(t: seq<Call>): (r: seq<nat>)
    ensures |r| <= |t|
  {
    if |t| == 0 then [] else (if t[0].RemoveChild? then [t[0].child] else []) + Removed(t[1..])
  }

  /** The `insertBefore` calls under parent `p`, in order. */
  function InsertsUnder(t: seq<Call>, p: nat): (r: seq<Call>)
    ensures |r| <= |t|
  {
    if |t| == 0 then []
    else (if t[0].InsertBefore? && t[0].parent == p then [t[0]] else []) + InsertsUnder(t[1..], p)
  }

  lemma {:induction false} CreatedAppend(a: seq<Call>, b: seq<Call>)
    ensures Created(a + b) == Created(a) + Created(b)
    decreases |a|
  {
    if |a| == 0 {
      assert a + b == b;
    } else {
      var c := (if a[0].CreateNode? then [a[0].node] else []);
      assert (a + b)[0] == a[0] && (a + b)[1..] == a[1..] + b;
      assert Created(a + b) == c + Created(a[1..] + b);
      CreatedAppend(a[1..], b);
      assert Created(a) == c + Created(a[1..]);
      assert c + (Created(a[1..]) + Created(b)) == (c + Created(a[1..])) + Created(b);
    }
  }

  lemma {:induction false} RemovedAppend(a: seq<Call>, b: seq<Call>)
    ensures Removed(a + b) == Removed(a) + Removed(b)
    decreases |a|
  {
    if |a| == 0 {
      assert a + b == b;
    } else {
      var c := (if a[0].RemoveChild? then [a[0].child] else []);
      assert (a + b)[0] == a[0] && (a + b)[1..] == a[1..] + b;
      assert Removed(a + b) == c + Removed(a[1..] + b);
      RemovedAppend(a[1..], b);
      assert Removed(a) == c + Removed(a[1..]);
      assert c + (Removed(a[1..]) + Removed(b)) == (c + Removed(a[1..])) + Removed(b);
    }
  }

  lemma {:induction false} InsertsUnderAppend(a: seq<Call>, b: seq<Call>, p: nat)
    ensures InsertsUnder(a + b, p) == InsertsUnder(a, p) + InsertsUnder(b, p)
    decreases |a|
  {
    if |a| == 0 {
      assert a + b == b;
    } else {
      var c := if a[0].InsertBefore? && a[0].parent == p then [a[0]] else [];
      assert (a + b)[0] == a[0] && (a + b)[1..] == a[1..] + b;
      assert InsertsUnder(a + b, p) == c + InsertsUnder(a[1..] + b, p);
      InsertsUnderAppend(a[1..], b, p);
      assert InsertsUnder(a, p) == c + InsertsUnder(a[1..], p);
      assert c + (InsertsUnder(a[1..], p) + InsertsUnder(b, p)) == (c + InsertsUnder(a[1..], p)) + InsertsUnder(b, p);
    }
  }

  /** The calls `insertBefore(p, n, r)` for each `n` of `ns`, in order. */
  function MoveCalls(ns: seq<nat>, p: nat, r: Option<nat>): (cs: seq<Call>)
    ensures |cs| == |ns|
    ensures forall i :: 0 <= i < |ns| ==> cs[i] == InsertBefore(p, ns[i], r)
  {
    if |ns| == 0 then [] else [InsertBefore(p, ns[0], r)] + MoveCalls(ns[1..], p, r)
  }

  lemma {:induction false} MoveCallsAppend(a: seq<nat>, b: seq<nat>, p: nat, r: Option<nat>)
    ensures MoveCalls(a + b, p, r) == MoveCalls(a, p, r) + MoveCalls(b, p, r)
  {
  }

  // ---------------------------------------------------------------------------
  // Replacing a child in place
  // ---------------------------------------------------------------------------

  lemma RemoveAllCons(h: nat, t: seq<nat>, x: nat)
    ensures RemoveAll([h] + t, x) == (if h == x then [] else [h]) + RemoveAll(t, x)
  {
    assert ([h] + t)[0] == h && ([h] + t)[1..] == t;
  }

  lemma {:induction false} RemoveAllAbsentPrefix(a: seq<nat>, x: nat, b: seq<nat>)
    requires x !in a
    ensures RemoveAll(a + b, x) == a + RemoveAll(b, x)
    decreases |a|
  {
    if |a| == 0 {
      assert a + b == b;
    } else {
      var t, r := a[1..], RemoveAll(b, x);
      assert a[0] in a;
      calc {
        RemoveAll(a + b, x);
        { assert a + b == [a[0]] + (t + b); }
        RemoveAll([a[0]] + (t + b), x);
        { RemoveAllCons(a[0], t + b, x); }
        [a[0]] + RemoveAll(t + b, x);
        { RemoveAllAbsentPrefix(t, x, b); }
        [a[0]] + (t + r);
        { assert [a[0]] + t == a; }
        a + r;
      }
    }
  }

  lemma {:induction false} IndexOfAfterPrefix(a: seq<nat>, x: nat, b: seq<nat>)
    requires x !in a
    ensures IndexOf(a + [x] + b, x) == |a|
    decreases |a|
  {
    if |a| > 0 {
      assert (a + [x] + b)[1..] == a[1..] + [x] + b;
      IndexOfAfterPrefix(a[1..], x, b);
    }
  }

  /** Inserting a node `n` that has no parent before the child `prev` of `p` puts it
      just in front of `prev` and leaves `prev` under `p`. */
  lemma InsertBeforeChild(e: Env, p: nat, prev: nat, n: nat, a: seq<nat>, b: seq<nat>)
    requires Kids(e, p) == a + [prev] + b && prev !in a && n != prev
    requires prev in e.parent && e.parent[prev] == p && n !in e.parent
    ensures var e1 := InsertBeforeOp(e, p, n, Some(prev));
      Kids(e1, p) == (a + [n]) + ([prev] + b) && prev in e1.parent && e1.parent[prev] == p
  {
    assert Detach(e, n) == e;
    IndexOfAfterPrefix(a, prev, b);
    var cs := a + [prev] + b;
    assert cs[..|a|] == a && cs[|a|..] == [prev] + b;
    assert cs[..|a|] + [n] + cs[|a|..] == (a + [n]) + ([prev] + b);
  }

  /** Inserting a fresh node `n` before the child `prev` of `p` and then removing `prev`
      leaves `n` exactly where `prev` was among `p`'s children. */
  lemma InsertThenRemoveTakesPlace(e: Env, p: nat, prev: nat, n: nat, a: seq<nat>, b: seq<nat>)
    requires Kids(e, p) == a + [prev] + b && prev !in a && prev !in b && n != prev
    requires prev in e.parent && e.parent[prev] == p
    requires n !in e.parent && n !in a && n !in b
    ensures Kids(RemoveChildOp(InsertBeforeOp(e, p, n, Some(prev)), p, prev), p) == a + [n] + b
  {
    var e1 := InsertBeforeOp(e, p, n, Some(prev));
    InsertBeforeChild(e, p, prev, n, a, b);
    assert Kids(e1, p) == (a + [n]) + ([prev] + b);
    RemoveAllAbsentPrefix(a + [n], prev, [prev] + b);
    assert RemoveAll([prev] + b, prev) == b by {
      assert ([prev] + b)[1..] == b;
    }
    assert a + [n] + b == (a + [n]) + b;
  }
}
