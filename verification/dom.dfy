/** The DOM adapter's decisions (src/envs/dom.ts), as lists of abstract attribute operations
    instead of DOM calls, with a small element-state semantics to state what they achieve. */
module DomEnv {
  import opened Options
  import opened Vnodes

  // ---------------------------------------------------------------------------
  // Operations and what they do to an element
  // ---------------------------------------------------------------------------

  /** What the adapter does to a node. `SetHandler` is the `node[key.toLowerCase()] = v`
      of an `on…` prop, `SetProperty` the `node[key] = v` of a special attribute; the ref
      operations act on the ref object or function, not on the node. */
  datatype AttrOp =
    | SetAttribute(name: string, value: Value)
    | SetAttributeNS(ns: string, name: string, value: Value)
    | RemoveAttribute(name: string)
    | SetHandler(hname: string, handler: Value)
    | SetProperty(pname: string, pvalue: Value)
    | SetText(text: string)
    | AssignRefObject(obj: nat, target: Option<nat>)
    | CallRefFunction(fid: nat, target: Option<nat>)

  /** The parts of an element the operations change: attributes by name (the namespace is
      not tracked), event-handler properties, and text content. */
  datatype ElemState = ElemState(attrs: map<string, Value>, handlers: map<string, Value>, text: string)

  const Fresh := ElemState(map[], map[], "")

  function Apply(st: ElemState, op: AttrOp): ElemState {
    match op
    case SetAttribute(k, v) => st.(attrs := st.attrs[k := v])
    case SetAttributeNS(_, k, v) => st.(attrs := st.attrs[k := v])
    case RemoveAttribute(k) => st.(attrs := st.attrs - {k})
    case SetHandler(h, v) => st.(handlers := st.handlers[h := v])
    case SetText(t) => st.(text := t)
    case _ => st
  }

  function ApplyAll(st: ElemState, ops: seq<AttrOp>): ElemState
    decreases |ops|
  {
    if |ops| == 0 then st else ApplyAll(Apply(st, ops[0]), ops[1..])
  }

  lemma {:induction false} ApplyAllAppend(st: ElemState, a: seq<AttrOp>, b: seq<AttrOp>)
    ensures ApplyAll(st, a + b) == ApplyAll(ApplyAll(st, a), b)
    decreases |a|
  {
    if |a| > 0 {
      assert (a + b)[0] == a[0] && (a + b)[1..] == a[1..] + b;
      ApplyAllAppend(Apply(st, a[0]), a[1..], b);
    } else {
      assert a + b == b;
    }
  }

  // ---------------------------------------------------------------------------
  // Key classes
  // ---------------------------------------------------------------------------

  /** The own keys of `SPECIAL_ATTRS` (src/envs/dom.ts:36-64). */
  const SpecialKeys: set<string> := {"ref", "key", "children", "selected", "checked", "value", "innerHTML"}

  predicate IsSpecial(k: string) {
    k in SpecialKeys
  }

  /** `key.startsWith('on')`. */
  predicate IsEventKey(k: string) {
    |k| >= 2 && k[0] == 'o' && k[1] == 'n'
  }

  function LowerChar(c: char): char {
    if 'A' <= c <= 'Z' then (c as int + 32) as char else c
  }

  /** `toLowerCase` on ASCII letters. */
  function ToLower(k: string): (r: string)
    ensures |r| == |k| && forall i :: 0 <= i < |k| ==> r[i] == LowerChar(k[i])
  {
    seq(|k|, i requires 0 <= i < |k| => LowerChar(k[i]))
  }

  // ---------------------------------------------------------------------------
  // setDOMAttribute (src/envs/dom.ts:10-20)
  // ---------------------------------------------------------------------------

  /** `true` sets the empty string, `false` removes, anything else is set, namespaced
      exactly when the namespace is non-empty. */
  function SetDomAttribute(key: string, value: Value, ns: string): (op: AttrOp)
    ensures value == Bool(false) <==> op == RemoveAttribute(key)
    ensures op.SetAttributeNS? <==> value != Bool(true) && value != Bool(false) && ns != ""
    ensures op.SetAttribute? || op.SetAttributeNS? ==> op.name == key
    ensures value == Bool(true) ==> op.SetAttribute? && op.value == Str("")
    ensures value != Bool(true) && value != Bool(false) ==> (op.SetAttribute? || op.SetAttributeNS?) && op.value == value
    ensures op.SetAttributeNS? ==> op.ns == ns
  {
    if value == Bool(true) then SetAttribute(key, Str(""))
    else if value == Bool(false) then RemoveAttribute(key)
    else if ns != "" then SetAttributeNS(ns, key, value)
    else SetAttribute(key, value)
  }

  /** What an attribute prop means for the element: `true` is present and empty, `false`
      is absent, any other value is present with that value. */
  predicate AttrMatches(attrs: map<string, Value>, k: string, v: Value) {
    if v == Bool(false) then k !in attrs
    else k in attrs && attrs[k] == (if v == Bool(true) then Str("") else v)
  }

  lemma SetDomAttributeMeaning(st: ElemState, key: string, value: Value, ns: string)
    ensures AttrMatches(Apply(st, SetDomAttribute(key, value, ns)).attrs, key, value)
    ensures forall x :: x != key ==> (x in Apply(st, SetDomAttribute(key, value, ns)).attrs <==> x in st.attrs)
  {
  }

  // ---------------------------------------------------------------------------
  // The ref special attribute (src/envs/dom.ts:37-57)
  // ---------------------------------------------------------------------------

  /** `ref.mount`: an object ref gets `.value = node`, a function ref is called with the
      node, anything else is ignored. `null` is treated as "no ref"; the source throws
      there (see `RefMountAsWritten`). */
  function RefMount(node: nat, v: Value): (ops: seq<AttrOp>)
    ensures v.Obj? ==> ops == [AssignRefObject(v.oid, Some(node))]
    ensures v.Fun? ==> ops == [CallRefFunction(v.fid, Some(node))]
    ensures !v.Obj? && !v.Fun? <==> ops == []
  {
    match v
    case Obj(o) => [AssignRefObject(o, Some(node))]
    case Fun(f) => [CallRefFunction(f, Some(node))]
    case _ => []
  }

  /** `ref.unmount`: clear an object ref, call a function ref with `null`. */
  function RefUnmount(v: Value): (ops: seq<AttrOp>)
    ensures v.Obj? ==> ops == [AssignRefObject(v.oid, None)]
    ensures v.Fun? ==> ops == [CallRefFunction(v.fid, None)]
    ensures !v.Obj? && !v.Fun? <==> ops == []
  {
    match v
    case Obj(o) => [AssignRefObject(o, None)]
    case Fun(f) => [CallRefFunction(f, None)]
    case _ => []
  }

  /** `ref.update`: nothing when the value is the same, else clear the old ref and then
      point the new one at the node. */
  function RefUpdate(node: nat, nv: Value, ov: Value): (ops: seq<AttrOp>)
    ensures nv == ov ==> ops == []
    ensures nv != ov ==> ops == RefUnmount(ov) + RefMount(node, nv)
  {
    if nv == ov then [] else RefUnmount(ov) + RefMount(node, nv)
  }

  /** `typeof value === 'object'` as the source writes it: `null` is an object too, and
      `null.value = node` throws (`None` here). */
  function RefMountAsWritten(node: nat, v: Value): (r: Option<seq<AttrOp>>)
    ensures v == Null <==> r == None
    ensures v != Null ==> r == Some(RefMount(node, v))
  {
    match v
    case Null => None
    case Obj(o) => Some([AssignRefObject(o, Some(node))])
    case Fun(f) => Some([CallRefFunction(f, Some(node))])
    case _ => Some([])
  }

  /** `ref.unmount` as the source writes it: the same `typeof` test, so a `null` value
      reaches `null.value = null` and throws. */
  function RefUnmountAsWritten(v: Value): (r: Option<seq<AttrOp>>)
    ensures v == Null <==> r == None
    ensures v != Null ==> r == Some(RefUnmount(v))
  {
    match v
    case Null => None
    case Obj(o) => Some([AssignRefObject(o, None)])
    case Fun(f) => Some([CallRefFunction(f, None)])
    case _ => Some([])
  }

  /** `ref.update` built from the two as written: it throws exactly when the value changes
      and either the old or the new one is `null`, and otherwise does what `RefUpdate`
      does. */
  function RefUpdateAsWritten(node: nat, nv: Value, ov: Value): (r: Option<seq<AttrOp>>)
    ensures r == None <==> nv != ov && (nv == Null || ov == Null)
    ensures r.Some? ==> r.value == RefUpdate(node, nv, ov)
  {
    if nv == ov then Some([])
    else
      match RefUnmountAsWritten(ov)
      case None => None
      case Some(a) =>
        match RefMountAsWritten(node, nv)
        case None => None
        case Some(b) => Some(a + b)
  }

  /** The source's `ref.mount` agrees with `RefMount` on every value except `null`, where
      it throws: an element that goes from a ref to `ref={null}` fails in `ref.update`. */
  lemma RefMountNullDiscrepancy(node: nat, v: Value)
    ensures v != Null ==> RefMountAsWritten(node, v) == Some(RefMount(node, v))
    ensures RefMountAsWritten(node, Null) == None && RefMount(node, Null) == []
    ensures RefUpdate(node, Null, Obj(0)) == [AssignRefObject(0, None)]
  {
  }

  /** The targets object refs point at, after a run of operations. */
  function RefTargets(m: map<nat, Option<nat>>, ops: seq<AttrOp>): map<nat, Option<nat>>
    decreases |ops|
  {
    if |ops| == 0 then m
    else if ops[0].AssignRefObject? then RefTargets(m[ops[0].obj := ops[0].target], ops[1..])
    else RefTargets(m, ops[1..])
  }

  /** Switching an element from object ref `a` to a different object ref `b` leaves `a`
      cleared and `b` pointing at the node. */
  lemma RefUpdateSwitches(m: map<nat, Option<nat>>, node: nat, a: nat, b: nat)
    requires a != b
    ensures var m' := RefTargets(m, RefUpdate(node, Obj(b), Obj(a)));
            a in m' && m'[a] == None && b in m' && m'[b] == Some(node)
  {
    var ops := RefUpdate(node, Obj(b), Obj(a));
    assert ops == [AssignRefObject(a, None), AssignRefObject(b, Some(node))];
    var m1 := m[a := None];
    var m2 := m1[b := Some(node)];
    assert RefTargets(m1, ops[1..]) == RefTargets(m2, ops[1..][1..]);
    assert ops[1..][1..] == [];
  }

  // ---------------------------------------------------------------------------
  // The special attributes (src/envs/dom.ts:22-64)
  // ---------------------------------------------------------------------------

  function SpecialMount(key: string, node: nat, v: Value): (ops: seq<AttrOp>)
    requires IsSpecial(key)
    ensures forall i :: 0 <= i < |ops| ==>
      !Writes(ops[i]) && (ops[i].SetProperty? ==> ops[i].pname == key && key !in {"ref", "key", "children"})
  {
    if key == "ref" then RefMount(node, v)
    else if key == "key" || key == "children" then []
    else [SetProperty(key, v)]
  }

  function SpecialUpdate(key: string, node: nat, nv: Value, ov: Value): seq<AttrOp>
    requires IsSpecial(key)
  {
    if key == "ref" then RefUpdate(node, nv, ov)
    else if key == "key" || key == "children" then []
    else [SetProperty(key, nv)]
  }

  // ---------------------------------------------------------------------------
  // createNode (src/envs/dom.ts:73-89)
  // ---------------------------------------------------------------------------

  datatype NodeDesc = CommentNode | TextNode(content: string) | ElementNode(tag: string)

  /** The `xmlns` table (src/envs/dom.ts:66-70). */
  const Namespaces: map<string, string> := map[
    "html" := "http://www.w3.org/1999/xhtml",
    "svg" := "http://www.w3.org/2000/svg",
    "mathml" := "http://www.w3.org/1998/Math/MathML"]

  function DigitChar(d: nat): char
    requires d < 10
  {
    "0123456789"[d]
  }

  function NatToString(n: nat): (s: string)
    ensures |s| >= 1
    decreases n
  {
    if n < 10 then [DigitChar(n)] else NatToString(n / 10) + [DigitChar(n % 10)]
  }

  /** `vnode + ''`: a number in decimal. */
  function LeafText(p: Prim): string {
    match p
    case PStr(s) => s
    case PNum(n) => if n < 0 then "-" + NatToString(-n) else NatToString(n)
  }

  /** The namespace an element propagates: its own non-empty string `xmlns` prop, else the
      table's entry for its tag, else the inherited one. */
  function ElementNs(tag: string, props: Props, inherited: string): (ns: string)
    ensures Lookup(props, "xmlns").Str? && Lookup(props, "xmlns").s != "" ==> ns == Lookup(props, "xmlns").s
    ensures !(Lookup(props, "xmlns").Str? && Lookup(props, "xmlns").s != "") ==>
      ns == (if tag in Namespaces then Namespaces[tag] else inherited)
  {
    var x := Lookup(props, "xmlns");
    if x.Str? && x.s != "" then x.s
    else if tag in Namespaces then Namespaces[tag]
    else inherited
  }

  /** `createNode(vnode, parentState)`: the node to create and the state its children
      inherit. A `null` parent state is the empty string. */
  function CreateNode(v: Vnode, parentState: string): (r: (NodeDesc, string))
    requires v.IsEnv()
    ensures v.Empty? ==> r == (CommentNode, parentState)
    ensures v.Leaf? ==> r == (TextNode(LeafText(v.p)), parentState)
    ensures v.Element? ==> r.0 == ElementNode(v.tag)
    ensures v.Element? && v.tag !in Namespaces && !Lookup(v.props, "xmlns").Str? ==> r.1 == parentState
  {
    match v
    case Empty(_) => (CommentNode, parentState)
    case Leaf(p) => (TextNode(LeafText(p)), parentState)
    case Element(_, tag, props, _, _) => (ElementNode(tag), ElementNs(tag, props, parentState))
  }

  /** The state `createNode` hands down. */
  function CreateState(v: Vnode, parentState: string): string
    requires v.IsEnv()
  {
    CreateNode(v, parentState).1
  }

  // ---------------------------------------------------------------------------
  // The prop passes, entry by entry
  // ---------------------------------------------------------------------------

  /** The three loops that write plain attributes and handlers: the mount pass, the
      "changed or new" loop of the update pass, and its "removed" loop. */
  datatype Pass = MountPass(ns: string) | ChangedPass(prev: Props, cns: string) | RemovedPass(nps: Props)

  /** The operation one prop entry gives rise to in a pass, if any. */
  function EntryOp(e: (string, Value), pass: Pass): Option<AttrOp> {
    var (k, v) := e;
    if IsSpecial(k) then None
    else
      match pass
      case MountPass(ns) =>
        if IsEventKey(k) then Some(SetHandler(ToLower(k), v)) else Some(SetDomAttribute(k, v, ns))
      case ChangedPass(prev, ns) =>
        if v == Lookup(prev, k) then None
        else if IsEventKey(k) then Some(SetHandler(ToLower(k), v))
        else Some(SetDomAttribute(k, v, ns))
      case RemovedPass(nps) =>
        if HasKey(nps, k) then None
        else if IsEventKey(k) then Some(SetHandler(ToLower(k), Null))
        else Some(RemoveAttribute(k))
  }

  function PassOps(ps: Props, pass: Pass): seq<AttrOp>
    decreases |ps|
  {
    if |ps| == 0 then []
    else
      (if EntryOp(ps[0], pass).Some? then [EntryOp(ps[0], pass).value] else []) + PassOps(ps[1..], pass)
  }

  /** `mountAttributesBeforeChildren` (src/envs/dom.ts:90-102). */
  function MountBefore(v: Vnode, ns: string): seq<AttrOp> {
    if v.Element? then PassOps(v.props, MountPass(ns)) else []
  }

  function SpecialMountOps(ps: Props, node: nat): seq<AttrOp>
    decreases |ps|
  {
    if |ps| == 0 then []
    else (if IsSpecial(ps[0].0) then SpecialMount(ps[0].0, node, ps[0].1) else []) + SpecialMountOps(ps[1..], node)
  }

  /** `mountAttributesAfterChildren` (src/envs/dom.ts:103-111). */
  function MountAfter(node: nat, v: Vnode): seq<AttrOp> {
    if v.Element? then SpecialMountOps(v.props, node) else []
  }

  /** `updateAttributesBeforeChildren` (src/envs/dom.ts:112-139). */
  function UpdateBefore(newV: Vnode, oldV: Vnode, ns: string): seq<AttrOp> {
    if newV.Leaf? then [SetText(LeafText(newV.p))]
    else if !newV.Element? || !oldV.Element? then []
    else PassOps(newV.props, ChangedPass(oldV.props, ns)) + PassOps(oldV.props, RemovedPass(newV.props))
  }

  function SpecialUpdateNew(nps: Props, ops: Props, node: nat): seq<AttrOp>
    decreases |nps|
  {
    if |nps| == 0 then []
    else
      (if IsSpecial(nps[0].0) then SpecialUpdate(nps[0].0, node, nps[0].1, Lookup(ops, nps[0].0)) else [])
      + SpecialUpdateNew(nps[1..], ops, node)
  }

  function SpecialUpdateGone(ops: Props, nps: Props, node: nat): seq<AttrOp>
    decreases |ops|
  {
    if |ops| == 0 then []
    else
      (if !HasKey(nps, ops[0].0) && IsSpecial(ops[0].0) then SpecialUpdate(ops[0].0, node, Undefined, ops[0].1) else [])
      + SpecialUpdateGone(ops[1..], nps, node)
  }

  /** `updateAttributesAfterChildren` (src/envs/dom.ts:140-160). */
  function UpdateAfter(node: nat, newV: Vnode, oldV: Vnode): seq<AttrOp> {
    if !newV.Element? || !oldV.Element? then []
    else SpecialUpdateNew(newV.props, oldV.props, node) + SpecialUpdateGone(oldV.props, newV.props, node)
  }

  /** `unmountAttributesBeforeChildren` (src/envs/dom.ts:161-164): clear a truthy `ref`. */
  function UnmountBefore(v: Vnode): seq<AttrOp> {
    if v.Element? && Truthy(Lookup(v.props, "ref")) then RefUnmount(Lookup(v.props, "ref")) else []
  }

  /** `unmountAttributesAfterChildren` (src/envs/dom.ts:165) does nothing. */
  function UnmountAfter(v: Vnode): seq<AttrOp> {
    []
  }

  // ---------------------------------------------------------------------------
  // What the plain-attribute passes achieve
  // ---------------------------------------------------------------------------

  /** The piece of element state one operation writes. */
  datatype Slot = ASlot(aname: string) | HSlot(hname: string) | NoSlot

  predicate Writes(op: AttrOp) {
    op.SetAttribute? || op.SetAttributeNS? || op.RemoveAttribute? || op.SetHandler?
  }

  function SlotOf(op: AttrOp): Slot {
    match op
    case SetAttribute(k, _) => ASlot(k)
    case SetAttributeNS(_, k, _) => ASlot(k)
    case RemoveAttribute(k) => ASlot(k)
    case SetHandler(h, _) => HSlot(h)
    case _ => NoSlot
  }

  /** The value an operation leaves in its slot (`None`: attribute absent). */
  function Written(op: AttrOp): Option<Value> {
    match op
    case SetAttribute(_, v) => Some(v)
    case SetAttributeNS(_, _, v) => Some(v)
    case SetHandler(_, v) => Some(v)
    case _ => None
  }

  function SlotVal(st: ElemState, s: Slot): Option<Value> {
    match s
    case ASlot(x) => if x in st.attrs then Some(st.attrs[x]) else None
    case HSlot(h) => if h in st.handlers then Some(st.handlers[h]) else None
    case NoSlot => None
  }

  /** The slot a plain prop key writes: its handler property or its attribute. */
  function KeySlot(k: string): Slot {
    if IsEventKey(k) then HSlot(ToLower(k)) else ASlot(k)
  }

  /** What a plain prop means for its slot. */
  function Meaning(k: string, v: Value): Option<Value> {
    if IsEventKey(k) then Some(v)
    else if v == Bool(false) then None
    else if v == Bool(true) then Some(Str(""))
    else Some(v)
  }

  lemma ApplyOne(st: ElemState, op: AttrOp)
    requires Writes(op)
    ensures SlotVal(Apply(st, op), SlotOf(op)) == Written(op)
    ensures forall s :: s != SlotOf(op) ==> SlotVal(Apply(st, op), s) == SlotVal(st, s)
  {
  }

  /** Each entry writes at most its own key's slot, with the value the pass intends. */
  lemma EntryOpFacts(e: (string, Value), pass: Pass)
    ensures EntryOp(e, pass).Some? ==>
      !IsSpecial(e.0) && Writes(EntryOp(e, pass).value) && SlotOf(EntryOp(e, pass).value) == KeySlot(e.0)
    ensures pass.MountPass? && !IsSpecial(e.0) ==>
      EntryOp(e, pass).Some? && Written(EntryOp(e, pass).value) == Meaning(e.0, e.1)
    ensures pass.ChangedPass? && !IsSpecial(e.0) ==>
      (EntryOp(e, pass).Some? <==> e.1 != Lookup(pass.prev, e.0))
      && (EntryOp(e, pass).Some? ==> Written(EntryOp(e, pass).value) == Meaning(e.0, e.1))
    ensures pass.RemovedPass? && !IsSpecial(e.0) ==>
      (EntryOp(e, pass).Some? <==> !HasKey(pass.nps, e.0))
      && (EntryOp(e, pass).Some? ==> Written(EntryOp(e, pass).value) == (if IsEventKey(e.0) then Some(Null) else None))
  {
  }

  /** No two plain keys of a props object write the same slot (which also makes the keys
      distinct): `onClick` next to `onclick` is excluded. */
  predicate KeySlotsDistinct(ps: Props) {
    forall i, j :: 0 <= i < j < |ps| ==> KeySlot(ps[i].0) != KeySlot(ps[j].0)
  }

  predicate Untouched(ps: Props, pass: Pass, s: Slot) {
    forall i :: 0 <= i < |ps| && EntryOp(ps[i], pass).Some? ==> SlotOf(EntryOp(ps[i], pass).value) != s
  }

  /** After a pass, each entry's slot holds what its operation wrote and every slot no entry
      writes is as before. */
  lemma {:induction false} PassEffect(st: ElemState, ps: Props, pass: Pass)
    requires KeySlotsDistinct(ps)
    ensures forall i :: 0 <= i < |ps| && EntryOp(ps[i], pass).Some? ==>
      SlotVal(ApplyAll(st, PassOps(ps, pass)), KeySlot(ps[i].0)) == Written(EntryOp(ps[i], pass).value)
    ensures forall s :: Untouched(ps, pass, s) ==> SlotVal(ApplyAll(st, PassOps(ps, pass)), s) == SlotVal(st, s)
    decreases |ps|
  {
    if |ps| > 0 {
      var rest := ps[1..];
      assert KeySlotsDistinct(rest) by {
        forall i, j | 0 <= i < j < |rest| ensures KeySlot(rest[i].0) != KeySlot(rest[j].0) {
          assert rest[i] == ps[i + 1] && rest[j] == ps[j + 1];
        }
      }
      EntryOpFacts(ps[0], pass);
      var st1 := if EntryOp(ps[0], pass).Some? then Apply(st, EntryOp(ps[0], pass).value) else st;
      var ops := PassOps(ps, pass);
      if EntryOp(ps[0], pass).Some? {
        assert ops[0] == EntryOp(ps[0], pass).value && ops[1..] == PassOps(rest, pass);
        ApplyOne(st, EntryOp(ps[0], pass).value);
      } else {
        assert ops == PassOps(rest, pass);
      }
      assert ApplyAll(st, ops) == ApplyAll(st1, PassOps(rest, pass));
      PassEffect(st1, rest, pass);
      forall i | 0 <= i < |ps| && EntryOp(ps[i], pass).Some?
        ensures SlotVal(ApplyAll(st, ops), KeySlot(ps[i].0)) == Written(EntryOp(ps[i], pass).value)
      {
        if i == 0 {
          assert Untouched(rest, pass, KeySlot(ps[0].0)) by {
            forall j | 0 <= j < |rest| && EntryOp(rest[j], pass).Some?
              ensures SlotOf(EntryOp(rest[j], pass).value) != KeySlot(ps[0].0)
            {
              EntryOpFacts(rest[j], pass);
              assert rest[j] == ps[j + 1];
            }
          }
        } else {
          assert ps[i] == rest[i - 1];
        }
      }
      forall s | Untouched(ps, pass, s)
        ensures SlotVal(ApplyAll(st, ops), s) == SlotVal(st, s)
      {
        assert Untouched(rest, pass, s) by {
          forall j | 0 <= j < |rest| && EntryOp(rest[j], pass).Some?
            ensures SlotOf(EntryOp(rest[j], pass).value) != s
          {
            assert rest[j] == ps[j + 1];
          }
        }
      }
    } else {
      assert PassOps(ps, pass) == [];
    }
  }

  /** An element state shows a props object: every plain key's slot has the key's meaning,
      every attribute present comes from a plain key, and every non-null handler too. */
  predicate Reflects(st: ElemState, ps: Props) {
    && (forall i :: 0 <= i < |ps| && !IsSpecial(ps[i].0) ==> SlotVal(st, KeySlot(ps[i].0)) == Meaning(ps[i].0, ps[i].1))
    && (forall x :: x in st.attrs ==> exists i :: 0 <= i < |ps| && !IsSpecial(ps[i].0) && KeySlot(ps[i].0) == ASlot(x))
    && (forall h :: h in st.handlers && st.handlers[h] != Null ==>
          exists i :: 0 <= i < |ps| && !IsSpecial(ps[i].0) && KeySlot(ps[i].0) == HSlot(h))
  }

  /** Mounting the plain props of an element onto a fresh node makes it show them. */
  lemma MountBeforeReflects(ps: Props, ns: string)
    requires KeySlotsDistinct(ps)
    ensures Reflects(ApplyAll(Fresh, PassOps(ps, MountPass(ns))), ps)
  {
    var st := ApplyAll(Fresh, PassOps(ps, MountPass(ns)));
    PassEffect(Fresh, ps, MountPass(ns));
    forall i | 0 <= i < |ps| && !IsSpecial(ps[i].0)
      ensures SlotVal(st, KeySlot(ps[i].0)) == Meaning(ps[i].0, ps[i].1)
    {
      EntryOpFacts(ps[i], MountPass(ns));
    }
    forall x | x in st.attrs
      ensures exists i :: 0 <= i < |ps| && !IsSpecial(ps[i].0) && KeySlot(ps[i].0) == ASlot(x)
    {
      if !Untouched(ps, MountPass(ns), ASlot(x)) {
        var i :| 0 <= i < |ps| && EntryOp(ps[i], MountPass(ns)).Some? && SlotOf(EntryOp(ps[i], MountPass(ns)).value) == ASlot(x);
        EntryOpFacts(ps[i], MountPass(ns));
      }
    }
    forall h | h in st.handlers && st.handlers[h] != Null
      ensures exists i :: 0 <= i < |ps| && !IsSpecial(ps[i].0) && KeySlot(ps[i].0) == HSlot(h)
    {
      if !Untouched(ps, MountPass(ns), HSlot(h)) {
        var i :| 0 <= i < |ps| && EntryOp(ps[i], MountPass(ns)).Some? && SlotOf(EntryOp(ps[i], MountPass(ns)).value) == HSlot(h);
        EntryOpFacts(ps[i], MountPass(ns));
      }
    }
  }

  lemma LookupAt(ps: Props, i: nat)
    requires KeySlotsDistinct(ps) && i < |ps|
    ensures Lookup(ps, ps[i].0) == ps[i].1
  {
    assert HasKey(ps, ps[i].0);
    var j :| 0 <= j < |ps| && ps[j] == (ps[i].0, Lookup(ps, ps[i].0));
    assert KeySlot(ps[j].0) == KeySlot(ps[i].0);
  }

  /** An old key and a new key write the same slot only when they are the same key. */
  predicate SlotsAgree(nps: Props, ops: Props) {
    forall i, j :: 0 <= i < |nps| && 0 <= j < |ops| && KeySlot(nps[i].0) == KeySlot(ops[j].0) ==> nps[i].0 == ops[j].0
  }

  /** A plain key only the new props have is not `undefined`: the update pass compares it
      with the missing old value, which reads as `undefined`, and skips it, while mounting
      would write it. */
  predicate NoFreshUndefined(nps: Props, ops: Props) {
    forall i :: 0 <= i < |nps| && !IsSpecial(nps[i].0) && !HasKey(ops, nps[i].0) ==> nps[i].1 != Undefined
  }

  /** The update diff is correct: on an element that shows the old props, the operations
      `updateAttributesBeforeChildren` emits leave it showing the new props. Keys whose
      value is unchanged get no operation and keep their slot; changed keys are rewritten;
      keys only the old props have are removed (attributes) or nulled (handlers). */
  lemma UpdateBeforeReflects(st: ElemState, newV: Vnode, oldV: Vnode, ns: string)
    requires newV.Element? && oldV.Element?
    requires KeySlotsDistinct(newV.props) && KeySlotsDistinct(oldV.props)
    requires SlotsAgree(newV.props, oldV.props) && NoFreshUndefined(newV.props, oldV.props)
    requires Reflects(st, oldV.props)
    ensures Reflects(ApplyAll(st, UpdateBefore(newV, oldV, ns)), newV.props)
  {
    var nps, ops := newV.props, oldV.props;
    var changed, removed := ChangedPass(ops, ns), RemovedPass(nps);
    var st1 := ApplyAll(st, PassOps(nps, changed));
    var st2 := ApplyAll(st1, PassOps(ops, removed));
    ApplyAllAppend(st, PassOps(nps, changed), PassOps(ops, removed));
    assert ApplyAll(st, UpdateBefore(newV, oldV, ns)) == st2;
    PassEffect(st, nps, changed);
    PassEffect(st1, ops, removed);

    forall i | 0 <= i < |nps| && !IsSpecial(nps[i].0)
      ensures SlotVal(st2, KeySlot(nps[i].0)) == Meaning(nps[i].0, nps[i].1)
    {
      NewKeyReflected(st, st1, st2, nps, ops, ns, i);
    }

    forall x | x in st2.attrs
      ensures exists i :: 0 <= i < |nps| && !IsSpecial(nps[i].0) && KeySlot(nps[i].0) == ASlot(x)
    {
      SlotSourcedByNew(st, st1, st2, nps, ops, ns, ASlot(x));
    }
    forall h | h in st2.handlers && st2.handlers[h] != Null
      ensures exists i :: 0 <= i < |nps| && !IsSpecial(nps[i].0) && KeySlot(nps[i].0) == HSlot(h)
    {
      SlotSourcedByNew(st, st1, st2, nps, ops, ns, HSlot(h));
    }
  }

  /** The frame half of `UpdateBeforeReflects`: a slot that ends up holding a non-null value
      belongs to some new plain key. */
  lemma SlotSourcedByNew(st: ElemState, st1: ElemState, st2: ElemState, nps: Props, ops: Props, ns: string, sl: Slot)
    requires KeySlotsDistinct(nps) && KeySlotsDistinct(ops) && SlotsAgree(nps, ops)
    requires Reflects(st, ops)
    requires st1 == ApplyAll(st, PassOps(nps, ChangedPass(ops, ns)))
    requires st2 == ApplyAll(st1, PassOps(ops, RemovedPass(nps)))
    requires sl.ASlot? || sl.HSlot?
    requires SlotVal(st2, sl).Some? && (sl.HSlot? ==> SlotVal(st2, sl) != Some(Null))
    ensures exists i :: 0 <= i < |nps| && !IsSpecial(nps[i].0) && KeySlot(nps[i].0) == sl
  {
    var changed, removed := ChangedPass(ops, ns), RemovedPass(nps);
    PassEffect(st, nps, changed);
    PassEffect(st1, ops, removed);
    if !Untouched(ops, removed, sl) {
      var j :| 0 <= j < |ops| && EntryOp(ops[j], removed).Some? && SlotOf(EntryOp(ops[j], removed).value) == sl;
      EntryOpFacts(ops[j], removed);
      assert false;
    }
    if !Untouched(nps, changed, sl) {
      var i :| 0 <= i < |nps| && EntryOp(nps[i], changed).Some? && SlotOf(EntryOp(nps[i], changed).value) == sl;
      EntryOpFacts(nps[i], changed);
    } else {
      assert SlotVal(st, sl).Some?;
      var j :| 0 <= j < |ops| && !IsSpecial(ops[j].0) && KeySlot(ops[j].0) == sl;
      EntryOpFacts(ops[j], removed);
      if HasKey(nps, ops[j].0) {
        var i :| 0 <= i < |nps| && nps[i].0 == ops[j].0;
        assert KeySlot(nps[i].0) == sl;
      }
    }
  }

  /** The content half of `UpdateBeforeReflects`: a new plain key's slot ends up holding
      what the key's value means, whether the changed loop wrote it or left it as the old
      props had it; the removal loop never touches it. */
  lemma NewKeyReflected(st: ElemState, st1: ElemState, st2: ElemState, nps: Props, ops: Props, ns: string, i: nat)
    requires KeySlotsDistinct(nps) && KeySlotsDistinct(ops)
    requires SlotsAgree(nps, ops) && NoFreshUndefined(nps, ops)
    requires Reflects(st, ops)
    requires st1 == ApplyAll(st, PassOps(nps, ChangedPass(ops, ns)))
    requires st2 == ApplyAll(st1, PassOps(ops, RemovedPass(nps)))
    requires i < |nps| && !IsSpecial(nps[i].0)
    ensures SlotVal(st2, KeySlot(nps[i].0)) == Meaning(nps[i].0, nps[i].1)
  {
    var changed, removed := ChangedPass(ops, ns), RemovedPass(nps);
    PassEffect(st, nps, changed);
    PassEffect(st1, ops, removed);
    var k := nps[i].0;
    assert Untouched(ops, removed, KeySlot(k)) by {
      forall j | 0 <= j < |ops| && EntryOp(ops[j], removed).Some?
        ensures SlotOf(EntryOp(ops[j], removed).value) != KeySlot(k)
      {
        EntryOpFacts(ops[j], removed);
        assert HasKey(nps, k);
      }
    }
    EntryOpFacts(nps[i], changed);
    if EntryOp(nps[i], changed).None? {
      assert Untouched(nps, changed, KeySlot(k)) by {
        forall j | 0 <= j < |nps| && EntryOp(nps[j], changed).Some?
          ensures SlotOf(EntryOp(nps[j], changed).value) != KeySlot(k)
        {
          EntryOpFacts(nps[j], changed);
        }
      }
      if HasKey(ops, k) {
        var j :| 0 <= j < |ops| && ops[j].0 == k;
        LookupAt(ops, j);
      }
    }
  }

  /** The before-children mount pass writes only plain attributes and handlers, each in
      the slot of a non-special key. */
  lemma {:induction false} MountBeforeOnlyPlain(ps: Props, ns: string)
    ensures forall i :: 0 <= i < |PassOps(ps, MountPass(ns))| ==>
      Writes(PassOps(ps, MountPass(ns))[i])
      && exists j :: 0 <= j < |ps| && !IsSpecial(ps[j].0) && SlotOf(PassOps(ps, MountPass(ns))[i]) == KeySlot(ps[j].0)
    decreases |ps|
  {
    if |ps| > 0 {
      MountBeforeOnlyPlain(ps[1..], ns);
      EntryOpFacts(ps[0], MountPass(ns));
      var b := PassOps(ps, MountPass(ns));
      var head := if EntryOp(ps[0], MountPass(ns)).Some? then [EntryOp(ps[0], MountPass(ns)).value] else [];
      var tail := PassOps(ps[1..], MountPass(ns));
      assert b == head + tail;
      forall i | 0 <= i < |b|
        ensures Writes(b[i]) && exists j :: 0 <= j < |ps| && !IsSpecial(ps[j].0) && SlotOf(b[i]) == KeySlot(ps[j].0)
      {
        if i < |head| {
          assert SlotOf(b[i]) == KeySlot(ps[0].0);
        } else {
          assert b[i] == tail[i - |head|];
          var j :| 0 <= j < |ps[1..]| && !IsSpecial(ps[1..][j].0) && SlotOf(tail[i - |head|]) == KeySlot(ps[1..][j].0);
          assert ps[1..][j] == ps[j + 1];
        }
      }
    }
  }

  /** The after-children mount pass writes no attribute or handler, and the properties it
      sets are special keys other than `ref`, `key` and `children`. */
  lemma {:induction false} MountAfterOnlySpecial(ps: Props, node: nat)
    ensures forall i :: 0 <= i < |SpecialMountOps(ps, node)| ==>
      !Writes(SpecialMountOps(ps, node)[i])
      && (SpecialMountOps(ps, node)[i].SetProperty? ==>
            IsSpecial(SpecialMountOps(ps, node)[i].pname) && SpecialMountOps(ps, node)[i].pname !in {"ref", "key", "children"})
    decreases |ps|
  {
    if |ps| > 0 {
      MountAfterOnlySpecial(ps[1..], node);
      var a := SpecialMountOps(ps, node);
      var ahead := if IsSpecial(ps[0].0) then SpecialMount(ps[0].0, node, ps[0].1) else [];
      var atail := SpecialMountOps(ps[1..], node);
      assert a == ahead + atail;
      forall i | 0 <= i < |a|
        ensures !Writes(a[i]) && (a[i].SetProperty? ==> IsSpecial(a[i].pname) && a[i].pname !in {"ref", "key", "children"})
      {
        if i >= |ahead| {
          assert a[i] == atail[i - |ahead|];
        } else {
          assert IsSpecial(ps[0].0);
          assert a[i] == SpecialMount(ps[0].0, node, ps[0].1)[i];
        }
      }
    }
  }

  /** `key` and `children` are special attributes that do nothing in any pass. */
  lemma KeyAndChildrenInert(k: string, node: nat, v: Value, ov: Value, pass: Pass)
    requires k == "key" || k == "children"
    ensures EntryOp((k, v), pass) == None
    ensures SpecialMount(k, node, v) == [] && SpecialUpdate(k, node, v, ov) == []
  {
  }

  /** A leaf update rewrites the text content and nothing else; the after-children pass is
      empty for leaves. */
  lemma LeafUpdateSetsText(st: ElemState, newV: Vnode, oldV: Vnode, ns: string, node: nat)
    requires newV.Leaf?
    ensures ApplyAll(st, UpdateBefore(newV, oldV, ns)) == st.(text := LeafText(newV.p))
    ensures UpdateAfter(node, newV, oldV) == []
  {
    assert UpdateBefore(newV, oldV, ns)[1..] == [];
  }

  /** Unmounting an element with an object ref clears it; the after-children unmount pass
      does nothing. */
  lemma UnmountClearsRef(m: map<nat, Option<nat>>, v: Vnode, o: nat)
    requires v.Element? && Lookup(v.props, "ref") == Obj(o)
    ensures var m' := RefTargets(m, UnmountBefore(v)); o in m' && m'[o] == None
    ensures UnmountAfter(v) == []
  {
    assert UnmountBefore(v) == [AssignRefObject(o, None)];
    assert UnmountBefore(v)[1..] == [];
  }
}
