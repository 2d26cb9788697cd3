/** Virtual nodes: the five-variant description the reconciler consumes (src/core.ts:3-15),
    the JavaScript values that appear as props, keys and refs, and the classifier that
    sorts a raw JavaScript value into one of the five kinds. */
module Vnodes {
  import opened Options

  /** A JavaScript value as it appears in a prop, a key or a ref. Functions and objects
      carry an identity, so that `===` on them is identity comparison. Numbers are
      modelled as integers (no NaN, no fractions). */
  datatype Value =
    | Undefined
    | Null
    | Bool(b: bool)
    | Str(s: string)
    | Num(n: int)
    | Fun(fid: nat)
    | Obj(oid: nat)

  /** JavaScript truthiness of a value. */
  predicate Truthy(v: Value) {
    match v
    case Undefined => false
    case Null => false
    case Bool(b) => b
    case Str(s) => s != ""
    case Num(n) => n != 0
    case Fun(_) => true
    case Obj(_) => true
  }

  /** A props object: its own enumerable keys in `for … in` order, each with its value. */
  type Props = seq<(string, Value)>

  predicate HasKey(ps: Props, k: string) {
    exists i :: 0 <= i < |ps| && ps[i].0 == k
  }

  /** `ps[k]`: the value of the first entry named `k`, or `undefined` when there is none. */
  function Lookup(ps: Props, k: string): (r: Value)
    ensures !HasKey(ps, k) ==> r == Undefined
    ensures HasKey(ps, k) ==> exists i :: 0 <= i < |ps| && ps[i] == (k, r)
  {
    if |ps| == 0 then Undefined
    else if ps[0].0 == k then ps[0].1
    else
      var r := Lookup(ps[1..], k);
      assert HasKey(ps, k) ==> ps[0].0 == k || HasKey(ps[1..], k) by {
        if HasKey(ps, k) && ps[0].0 != k {
          var i :| 0 <= i < |ps| && ps[i].0 == k;
          assert ps[1..][i - 1].0 == k;
        }
      }
      assert HasKey(ps[1..], k) ==> exists i :: 0 <= i < |ps| && ps[i] == (k, r) by {
        if HasKey(ps[1..], k) {
          var i :| 0 <= i < |ps[1..]| && ps[1..][i] == (k, r);
          assert ps[i + 1] == (k, r);
        }
      }
      r
  }

  /** The values an empty vnode may be: `false`, `null`, `undefined` or an empty array
      (an object, hence the identity). */
  datatype EmptyVal = EFalse | ENull | EUndefined | EEmptyArray(oid: nat)

  /** `v == null` in JavaScript: true of `null` and `undefined` only. */
  predicate Nullish(v: Vnode) {
    v.Empty? && (v.ev == ENull || v.ev == EUndefined)
  }

  /** A leaf: a string or a number. */
  datatype Prim = PStr(s: string) | PNum(n: int)

  /** The five mutually exclusive vnode kinds (src/core.ts:3-9). Objects and arrays carry
      an `oid` so that the reconciler's `===` fast path compares identity; `key` is
      `Undefined` when the vnode has none, and an element's `children` prop is kept apart
      from its other props (`None` when the prop is absent). A list is non-empty by
      construction. */
  datatype Vnode =
    | Empty(ev: EmptyVal)
    | Leaf(p: Prim)
    | Element(oid: nat, tag: string, props: Props, children: Option<Vnode>, key: Value)
    | List(oid: nat, first: Vnode, rest: seq<Vnode>)
    | Component(oid: nat, factory: nat, cprops: Props, key: Value)
  {
    /** Empty, leaf and element vnodes are the ones the environment turns into native nodes. */
    predicate IsEnv() {
      Empty? || Leaf? || Element?
    }

    /** `vnode.props.children` as the reconciler tests it with `== null`: an element's
        children when they are present and neither `null` nor `undefined`. An empty vnode
        that is `false` or `[]` is kept and mounted as a comment. */
    function Kids(): (k: Option<Vnode>)
      ensures k.Some? <==> Element? && children.Some? && !Nullish(children.value)
      ensures k.Some? ==> k == children
    {
      if Element? && children.Some? && !Nullish(children.value) then children else None
    }

    /** The members of a list vnode, in order. */
    function Items(): (items: seq<Vnode>)
      requires List?
      ensures |items| >= 1 && items[0] == first && items[1..] == rest
    {
      [first] + rest
    }
  }

  /** The kinds the classifier distinguishes. */
  datatype Kind = KEmpty | KLeaf | KElement | KList | KComponent

  function KindOf(v: Vnode): Kind {
    match v
    case Empty(_) => KEmpty
    case Leaf(_) => KLeaf
    case Element(_, _, _, _, _) => KElement
    case List(_, _, _) => KList
    case Component(_, _, _, _) => KComponent
  }

  // ---------------------------------------------------------------------------
  // The classifier over raw JavaScript values (src/core.ts:11-15)
  // ---------------------------------------------------------------------------

  /** A raw JavaScript value as far as the classifier looks at it: an object exposes only
      its `type` property (`Undefined` when it has none). */
  datatype JsValue =
    | JFalse
    | JTrue
    | JNull
    | JUndefined
    | JStr(s: string)
    | JNum(n: int)
    | JFun(fid: nat)
    | JArray(aid: nat, elems: seq<JsValue>)
    | JObject(jid: nat, typeField: JsValue)

  /** `typeof c`. */
  function TypeOfJs(c: JsValue): string {
    match c
    case JFalse => "boolean"
    case JTrue => "boolean"
    case JNull => "object"
    case JUndefined => "undefined"
    case JStr(_) => "string"
    case JNum(_) => "number"
    case JFun(_) => "function"
    case JArray(_, _) => "object"
    case JObject(_, _) => "object"
  }

  /** `c?.type`: only a plain object carries a `type` property here. */
  function TypeField(c: JsValue): JsValue {
    if c.JObject? then c.typeField else JUndefined
  }

  predicate IsEmpty(c: JsValue) {
    c == JFalse || c == JNull || c == JUndefined || (c.JArray? && |c.elems| == 0)
  }

  predicate IsLeaf(c: JsValue) {
    TypeOfJs(c) == "string" || TypeOfJs(c) == "number"
  }

  predicate IsElement(c: JsValue) {
    TypeOfJs(TypeField(c)) == "string"
  }

  predicate IsNonEmptyArray(c: JsValue) {
    c.JArray? && |c.elems| > 0
  }

  predicate IsComponent(c: JsValue) {
    TypeOfJs(TypeField(c)) == "function"
  }

  /** The values that are none of the five kinds: `true`, a bare function, and an object
      whose `type` is neither a string nor a function. */
  predicate Invalid(c: JsValue) {
    c == JTrue || c.JFun? || (c.JObject? && !c.typeField.JStr? && !c.typeField.JFun?)
  }

  /** The classification: the five predicates never overlap, so the order in which the
      reconciler tests them does not matter, and a value matches none of them exactly when
      it is `Invalid` (the source's "Invalid Vnode" error). */
  function Classify(c: JsValue): (k: Option<Kind>)
    ensures k == Some(KEmpty) <==> IsEmpty(c)
    ensures k == Some(KLeaf) <==> IsLeaf(c)
    ensures k == Some(KElement) <==> IsElement(c)
    ensures k == Some(KList) <==> IsNonEmptyArray(c)
    ensures k == Some(KComponent) <==> IsComponent(c)
    ensures k == None <==> Invalid(c)
  {
    if IsEmpty(c) then Some(KEmpty)
    else if IsLeaf(c) then Some(KLeaf)
    else if IsElement(c) then Some(KElement)
    else if IsNonEmptyArray(c) then Some(KList)
    else if IsComponent(c) then Some(KComponent)
    else None
  }

  /** How the source represents each vnode variant as a JavaScript value. */
  function Embed(v: Vnode): JsValue {
    match v
    case Empty(ev) =>
      (match ev
       case EFalse => JFalse
       case ENull => JNull
       case EUndefined => JUndefined
       case EEmptyArray(o) => JArray(o, []))
    case Leaf(p) => (match p case PStr(s) => JStr(s) case PNum(n) => JNum(n))
    case Element(o, tag, _, _, _) => JObject(o, JStr(tag))
    case List(o, f, r) => JArray(o, [Embed(f)] + EmbedSeq(r))
    case Component(o, fid, _, _) => JObject(o, JFun(fid))
  }

  function EmbedSeq(vs: seq<Vnode>): (js: seq<JsValue>)
    ensures |js| == |vs|
  {
    if |vs| == 0 then [] else [Embed(vs[0])] + EmbedSeq(vs[1..])
  }

  /** Every vnode of the five-variant datatype is classified as its own variant: each
      variant is a value the classifier accepts under its own kind. */
  lemma EmbedClassifies(v: Vnode)
    ensures Classify(Embed(v)) == Some(KindOf(v))
  {
  }

  // ---------------------------------------------------------------------------
  // The projections the keyed list algorithm compares (src/core.ts:203)
  // ---------------------------------------------------------------------------

  /** `v?.type` as far as `===` can tell: a tag string, a component factory, or
      `undefined` for leaves, empties and lists. */
  datatype TypeProj = TUndefined | TTag(tag: string) | TFactory(fid: nat)

  /** `v?.key`: only elements and components carry one. */
  function KeyOf(v: Vnode): Value {
    match v
    case Element(_, _, _, _, k) => k
    case Component(_, _, _, k) => k
    case _ => Undefined
  }

  function TypeOf(v: Vnode): TypeProj {
    match v
    case Element(_, tag, _, _, _) => TTag(tag)
    case Component(_, f, _, _) => TFactory(f)
    case _ => TUndefined
  }

  /** The list match test: equal `key` and equal `type`. */
  predicate SameKeyType(a: Vnode, b: Vnode) {
    KeyOf(a) == KeyOf(b) && TypeOf(a) == TypeOf(b)
  }

  // ---------------------------------------------------------------------------
  // Measures for termination
  // ---------------------------------------------------------------------------

  function Max(a: nat, b: nat): nat {
    if a < b then b else a
  }

  /** One more than the largest component factory id occurring in `v` outside of what
      components render. */
  function Rank(v: Vnode): nat {
    match v
    case Empty(_) => 0
    case Leaf(_) => 0
    case Element(_, _, _, c, _) => if c.Some? then Rank(c.value) else 0
    case List(_, f, r) => Max(Rank(f), RankSeq(r))
    case Component(_, fid, _, _) => fid + 1
  }

  function RankSeq(vs: seq<Vnode>): nat {
    if |vs| == 0 then 0 else Max(Rank(vs[0]), RankSeq(vs[1..]))
  }

  function Size(v: Vnode): nat {
    match v
    case Empty(_) => 1
    case Leaf(_) => 1
    case Element(_, _, _, c, _) => if c.Some? then 1 + Size(c.value) else 1
    case List(_, f, r) => 1 + Size(f) + SizeSeq(r)
    case Component(_, _, _, _) => 1
  }

  function SizeSeq(vs: seq<Vnode>): nat {
    if |vs| == 0 then 0 else Size(vs[0]) + SizeSeq(vs[1..])
  }

  lemma SizePositive(v: Vnode)
    ensures Size(v) >= 1
  {
  }

  lemma ItemsMeasure(v: Vnode)
    requires v.List?
    ensures RankSeq(v.Items()) == Rank(v)
    ensures SizeSeq(v.Items()) == Size(v) - 1
  {
    assert v.Items()[1..] == v.rest;
  }

  /** A component table: factory id and props to the vnode its render function returns.
      Components are host closures; the table has no hidden state. */
  type Table = (nat, Props) -> Vnode

  /** A factory only renders components with smaller ids, so that rendering terminates. */
  ghost predicate Ranked(tbl: Table) {
    forall fid: nat, p: Props {:trigger tbl(fid, p)} :: Rank(tbl(fid, p)) <= fid
  }
}
