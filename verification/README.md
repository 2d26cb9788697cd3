# eternal-senia reconciler, modelled in Dafny

This project models the core of the eternal-senia virtual-node renderer:

- **The reconciler** (`src/core.ts`) turns a tree of virtual nodes into native nodes and keeps them in line as the tree changes.
  - `mount` builds the native nodes and the mirrored ref tree.
  - `update` diffs a new vnode against a ref. The cases are:
    - the identity fast path;
    - empty to empty;
    - leaf to leaf;
    - same-tag element;
    - the keyed list walk;
    - same-factory component;
    - mismatch replacement.
  - `update_idx` relocates a subtree.
  - `unmount` tears one down.
  - `refNodeLast` finds the last native node a ref owns.
- **The per-component instance** (`createInstance`) holds the hook registry with `on` and its unsubscribe, the context that reads through to its parent, and the dirty flag with its immediate and deferred queues.
- **The DOM adapter's decisions** (`src/envs/dom.ts`) are modelled as lists of abstract attribute operations rather than DOM calls. They cover:
  - the boolean-attribute rule of `setDOMAttribute`;
  - the `ref` special attribute;
  - the namespace a created node hands to its children;
  - the mount, update and unmount attribute passes.

The environment port is a pure abstract native tree (`Native.Env`). It holds:

- a fresh-id counter;
- each node's parent;
- each node's ordered children;
- the trace of every call the reconciler makes on the port, together with the lifecycle hook firings.

Every reconciler operation is a pure function that takes this state and returns the new one. Properties are stated over the trace (which nodes are created, inserted, removed, in which order) and over the tree (where the new nodes end up).

Component factories are a table `(factory id, props) -> vnode`. The table is *ranked*: what factory `f` renders mentions only factories below `f`. The mutually recursive functions therefore terminate on the measure (rank, size).

Modules, one per file:

| file | module | what it holds |
|---|---|---|
| `options.dfy` | `Options` | `Option` |
| `vnodes.dfy` | `Vnodes` | JavaScript values, the five-kind `Vnode`, the value classifier, key/type projections, termination measures |
| `instance.dfy` | `Instance` | hooks, contexts, the update scheduler |
| `dom.dfy` | `DomEnv` | the DOM adapter's attribute operations, `ref` protocol, `createNode` state |
| `native.dfy` | `Native` | the abstract native tree and call trace |
| `listmatch.dfy` | `ListMatch` | the keyed list matching plan, as a pure function of old and new vnodes |
| `reconciler.dfy` | `Reconciler` | `Ref`, mount, update, update_idx, unmount, refNodeLast, an instance's own re-render |
| `reconcilerprops.dfy` | `ReconcilerProps` | what the calls amount to: nodes created, removed, inserted, moved |
| `stateprops.dfy` | `StateProps` | how the namespace state flows down a mounted tree |
| `placement.dfy` | `Placement` | where a mount's nodes land in the tree; mismatch replacement keeps position |

JavaScript `===` on objects is identity. Element, list, component and empty-array vnodes therefore carry an object id (`oid`), and datatype equality on vnodes stands in for identity. This is faithful only while one object id always comes with the same contents, that is, while vnode objects are not mutated after creation (see Left out).

Three behaviours of the code shape the model:

- A same-tag element update and a same-factory component update happen in place whatever the keys of the old and new vnode are (src/core.ts:168, src/core.ts:216). Only the list walk compares keys. `Reconciler.KeepsNode` and `ReconcilerProps.UpdateDispatch` state this.
- An instance's `props` is set once, when the instance is created (src/core.ts:49). The instance's own re-render renders from it (src/core.ts:131). A parent's re-render renders from the new vnode's props instead (src/core.ts:218) and never assigns `instance.props`; see Findings.
- An element's `children` prop is tested with `== null` (src/core.ts:117, src/core.ts:173-178). `null` and `undefined` children are skipped like absent ones, while `false` and `[]` children are mounted as an empty vnode, a comment node. `Vnode.Kids` is that test and `ReconcilerProps.ElementChildrenNullTest` states it.

## Model

| member | source | states |
|---|---|---|
| Vnodes.Classify | src/core.ts:11-15 | Each of the five kinds is chosen exactly when its JavaScript predicate holds, and a value that is none of them is rejected. The predicates never overlap, so their order does not matter. |
| Vnodes.EmbedClassifies | src/core.ts:3-9 | Every vnode of the model, seen as a JavaScript value, is classified as its own kind. |
| Vnodes.Lookup | src/envs/dom.ts:122-123 | Reading a missing prop gives `undefined`; otherwise the value is that of an entry with that key. |
| Instance.On | src/core.ts:32-35 | `on` adds the callback to the event's set, creating the set if missing. Adding a callback already present changes nothing. Other events' sets are untouched. |
| Instance.Unsubscribe | src/core.ts:35 | The returned function takes the callback out of that event's set. It keeps every other callback and every other event's set. |
| Instance.OnThenUnsubscribe | src/core.ts:32-36 | Subscribing and then unsubscribing leaves the callback out of the set. If it was not there before, the set is as it was. |
| Instance.NewCtx | src/core.ts:50 | A new context reads every property through to its parent context, or gives `undefined` when there is no parent. |
| Instance.CtxWrite | src/core.ts:50 | A write to a context is read back from that context. |
| Instance.LookupStable | src/core.ts:50 | Creating more contexts never changes what existing contexts read. |
| Instance.WriteInvisibleToAncestors | src/core.ts:50 | A write on a child context is invisible to its ancestors: the child never owns its parent's properties. |
| Instance.ReadThroughAfterParentWrite | src/core.ts:50 | A property written on the parent after the child was created is seen through the child. |
| Instance.CallUpdate | src/core.ts:39-46 | `update(fn?)` sets the dirty flag, queues the effect (if any) on the immediate queue and queues one deferred task. |
| Instance.CallUpdatesQueues | src/core.ts:39-46 | Several synchronous `update` calls queue their effects in call order and one deferred task each, and run nothing. |
| Instance.CallUpdatesDirty | src/core.ts:39-41 | The same calls mark dirty exactly the instances they are made on, on top of those already dirty. |
| Instance.DrainImmediate | src/core.ts:41 | The immediate queue runs every queued effect, in order, and nothing else. |
| Instance.RunDeferred | src/core.ts:42-45 | A deferred task renders its instance only when the instance is dirty, and clears the flag either way. |
| Instance.DrainSingleInstance | src/core.ts:42-45 | Draining deferred tasks of one instance renders it at most once, after all queued effects. |
| Instance.Coalescing | src/core.ts:38-46 | From idle, k >= 1 synchronous updates of one instance give every effect once in call order, then exactly one render. |
| Instance.ReentrantUpdateSwallowed | src/core.ts:42-45 | An `update` issued during the render is swallowed: the flag is cleared after the render, so there is no second render. Its effects still run. |
| Instance.RenderClearsAfter | src/core.ts:42-45 | After the render of a dirty instance whose render calls `update` on itself, no instance is dirty. The calls' effects and tasks are still queued, and the trace shows one render. |
| DomEnv.SetDomAttribute | src/envs/dom.ts:10-20 | `true` sets the empty string and `false` removes. Anything else is set, namespaced exactly when the namespace is non-empty. |
| DomEnv.SetDomAttributeMeaning | src/envs/dom.ts:10-20 | After the operation, the attribute shows the prop's meaning: present and empty, absent, or the value. No other attribute appears or disappears. |
| DomEnv.RefMount | src/envs/dom.ts:38-44 | An object ref gets the node and a function ref is called with it. Any other value does nothing; this includes `null`, the corrected behaviour. |
| DomEnv.RefUnmount | src/envs/dom.ts:50-56 | An object ref is cleared and a function ref is called with null. Anything else does nothing. |
| DomEnv.RefUpdate | src/envs/dom.ts:45-49 | An identical value does nothing. Otherwise the old ref is cleared before the new one is set. |
| DomEnv.RefMountAsWritten | src/envs/dom.ts:38-44 | The source's `ref.mount` fails exactly on `null`. |
| DomEnv.RefUnmountAsWritten | src/envs/dom.ts:50-56 | The source's `ref.unmount` fails exactly on `null` and otherwise agrees with the corrected one. |
| DomEnv.RefUpdateAsWritten | src/envs/dom.ts:45-56 | The source's `ref.update` fails exactly when the value changes and the old or the new one is `null`. Otherwise it makes the corrected update's calls. |
| DomEnv.RefMountNullDiscrepancy | src/envs/dom.ts:37-49 | The source's `ref.mount` agrees with the corrected one except on `null`, which an update to `ref={null}` reaches. |
| DomEnv.RefUpdateSwitches | src/envs/dom.ts:45-49 | Switching from object ref a to object ref b leaves a cleared and b pointing at the node. |
| DomEnv.SpecialMount | src/envs/dom.ts:22-64 | A special attribute never writes an attribute or handler. The only properties set are its own key, and never for `ref`, `key` or `children`. |
| DomEnv.ElementNs | src/envs/dom.ts:84 | An element's state is its non-empty `xmlns` prop, else the html/svg/mathml table entry for its tag, else the inherited namespace. |
| DomEnv.CreateNode | src/envs/dom.ts:73-89 | Empty gives a comment node and leaf a text node of its string value, both passing the parent state on unchanged. An element gives an element node of its tag. |
| DomEnv.MountBeforeReflects | src/envs/dom.ts:90-102 | The before-children mount pass makes a fresh element show exactly its plain props: every attribute and handler present comes from a plain key. |
| DomEnv.UpdateBeforeReflects | src/envs/dom.ts:112-139 | On an element showing the old props, the update diff leaves it showing the new props. Identical values get no operation and changed keys are rewritten. Keys only in the old props are removed, or nulled for `on*`. |
| DomEnv.MountBeforeOnlyPlain | src/envs/dom.ts:90-102 | The before-children mount pass writes only attributes and handlers of non-special keys. |
| DomEnv.MountAfterOnlySpecial | src/envs/dom.ts:103-111 | The after-children mount pass writes no attribute or handler. It sets only special properties other than `ref`, `key` and `children`. |
| DomEnv.KeyAndChildrenInert | src/envs/dom.ts:58-59 | `key` and `children` do nothing in any pass. |
| DomEnv.LeafUpdateSetsText | src/envs/dom.ts:113-116 | A leaf update sets the text content to the new value as a string and changes nothing else. The after-children pass is empty. |
| DomEnv.UnmountClearsRef | src/envs/dom.ts:161-165 | Unmounting an element with an object ref clears it. The after-children unmount pass does nothing. |
| Native.RemoveAll | src/envs/dom.ts:169-171 | Taking a node out of a child list leaves no occurrence of it, and a list without it is left as it is. |
| Native.RemoveAllKeeps | src/envs/dom.ts:169-171 | Every other child stays in the list. |
| Native.InsertBeforeOp | src/core.ts:67 | `insertBefore` logs the call and leaves the node's parent set to the target parent. |
| Native.RemoveChildOp | src/core.ts:68 | `removeChild` of a child detaches it and keeps its siblings. Removing a non-child changes nothing. |
| Native.InsertThenRemoveTakesPlace | src/core.ts:223-229 | A fresh node inserted before a child that is then removed takes exactly that child's place. |
| ListMatch.Pick | src/core.ts:199-204 | A found old ref is still in the pool and has the same key and type as the new member. |
| ListMatch.PlanPicksMatch | src/core.ts:198-211 | Every pick is an old position with equal key and type. |
| ListMatch.PlanPicksDistinct | src/core.ts:206 | No old position is picked twice. |
| ListMatch.PlanLeftover | src/core.ts:206-212 | The leftover is exactly the pool positions that no pick used, in increasing order. |
| ListMatch.PlanFirstMatch | src/core.ts:200-204 | Each pick is the first remaining old ref that matches. Every earlier matching position was already taken by an earlier member, and members with no pick match no remaining old ref. |
| ListMatch.MatchPlanSpec | src/core.ts:193-212 | The list-walk plan in full: one entry per new member, picks matching and distinct, first-found, and the leftover is exactly the unused old positions. |
| Reconciler.Mount | src/core.ts:104-151 | A mount returns a ref that mirrors the vnode, and only extends the trace. |
| Reconciler.MountItem | src/core.ts:105-109 | An empty or leaf vnode gives one item ref with no children. |
| Reconciler.MountElement | src/core.ts:110-120 | An element gives an item ref mirroring its vnode. |
| Reconciler.MountComponent | src/core.ts:128-149 | A component gives a component ref mirroring its vnode. |
| Reconciler.MountSeq | src/core.ts:121-127 | A list mount gives one ref per member, in order, each mirroring its member. |
| Reconciler.Update | src/core.ts:153-230 | The identical vnode returns the same ref with no calls, and empty to empty makes no call. A same-tag element, leaf or empty keeps its native node and state, whatever the key. A same-factory component keeps its instance and its original props. The result always mirrors the new vnode. |
| Reconciler.UpdateElement | src/core.ts:168-188 | A same-tag element update keeps the node and the state. |
| Reconciler.ListWalk | src/core.ts:193-211 | The walk gives one ref per new member in new order. A member the matching plan pairs with an old position keeps that old ref's native node (element) or instance (component): it is relocated, not recreated. What is left over is the plan's leftover, all positions of old refs. |
| Reconciler.ReuseOrMount | src/core.ts:205-210 | A reused old element keeps its native node and a reused component keeps its instance. |
| Reconciler.UpdateListSeq | src/core.ts:198-211 | Each new member reuses the plan's pick or is mounted. The remaining pool is the plan's leftover. |
| Reconciler.ListSeqRetains | src/core.ts:198-209 | Out of any pool, each member matched to an old position retains that old ref's node or instance. |
| Reconciler.UpdateList | src/core.ts:189-215 | A list update returns a list ref mirroring the new list. |
| Reconciler.Replace | src/core.ts:223-229 | Mismatch replacement returns a ref mirroring the new vnode. |
| ReconcilerProps.ReplaceCalls | src/core.ts:223-229 | Mismatch replacement first mounts: it creates exactly the new ref's nodes and puts its top-level nodes under the old content's parent, in order, before the old content's last node, and nothing under any other existing node. It then unmounts: it removes exactly the old ref's nodes in teardown order. Overall it creates the new ref's nodes and removes the old ref's. |
| Reconciler.Rerender | src/core.ts:130-135 | An instance's own re-render keeps the instance, the vnode and the props it was created with. |
| Reconciler.RerenderLatest | src/core.ts:130-135 | The corrected re-render, from the latest vnode's props, keeps the instance and the vnode. |
| Reconciler.UpdateIdx | src/core.ts:232-242 | `update_idx` only extends the trace. |
| Reconciler.Unmount | src/core.ts:244-260 | `unmount` only extends the trace. |
| ReconcilerProps.MountCreates | src/core.ts:104-151 | A mount creates exactly the ref's native nodes, in preorder, each with a fresh id, and removes nothing. |
| ReconcilerProps.MountElementCreates | src/core.ts:110-120 | An element mount creates its node and then exactly its children's nodes. |
| ReconcilerProps.MountComponentCreates | src/core.ts:128-149 | A component mount creates exactly the nodes of what it renders. |
| ReconcilerProps.MountSeqCreates | src/core.ts:121-127 | A list mount creates exactly its members' nodes, member by member. |
| ReconcilerProps.MountInserts | src/core.ts:104-151 | Under the given parent, a mount inserts exactly the ref's top-level nodes, in order, each before the reference node. It inserts nothing under any other pre-existing node. |
| ReconcilerProps.MountElementInserts | src/core.ts:110-120 | An element mount inserts only its own node under the parent. Its children go under the new node. |
| ReconcilerProps.MountComponentInserts | src/core.ts:128-149 | A component mount inserts what it renders in its place. |
| ReconcilerProps.MountSeqInserts | src/core.ts:121-127 | A list mount inserts each member's top nodes before the same reference node, in member order. |
| ReconcilerProps.UnmountRemoves | src/core.ts:244-260 | An unmount removes exactly the ref's nodes and creates nothing. An item's child subtree goes before the item's own node, and a list's members go last to first. |
| ReconcilerProps.UnmountRevRemoves | src/core.ts:250-254 | Unmounting a list removes its members' nodes from the last member to the first. |
| ReconcilerProps.TeardownPermutesNodes | src/core.ts:244-260 | The teardown order is a permutation of the ref's nodes. |
| ReconcilerProps.ElementChildrenNullTest | src/core.ts:110-120 | An element whose `children` prop is absent, `null` or `undefined` owns only its own node. `false` or `[]` children own one comment node, right after the element's. |
| ReconcilerProps.MountThenUnmount | src/core.ts:104-260 | A mount followed by an unmount of the result issues exactly one `removeChild` per `createNode`, as multisets of nodes. |
| ReconcilerProps.UpdateIdxMoves | src/core.ts:232-242 | `update_idx` issues exactly one `insertBefore` per top-level node of the ref, in order, all before the same reference node. |
| ReconcilerProps.UpdateIdxSeqMoves | src/core.ts:237-239 | Relocating a list relocates its members in order. |
| ReconcilerProps.RefNodeLastIsLast | src/core.ts:273-281 | `refNodeLast` is the last of the ref's top-level native nodes. |
| ReconcilerProps.ListUpdateUnmountsLeftover | src/core.ts:212 | After the walk, a list update unmounts exactly the old refs the plan left over, last to first. It removes nothing else and creates nothing. |
| ReconcilerProps.UpdateDispatch | src/core.ts:153-230 | A list update goes to the list walk and a same-tag element to the element diff. Any pair matching no in-place case is replaced. |
| ReconcilerProps.ReuseRelocates | src/core.ts:205-208 | Reusing an old ref first moves its top-level nodes, in order, before the anchor. |
| ReconcilerProps.ElementUpdateBrackets | src/core.ts:168-188 | A same-tag element update begins and ends with the node's before- and after-children attribute updates. Children that appear are mounted, creating exactly their nodes. Children that disappear are unmounted, removing exactly their nodes, and dropped. Children on both sides are updated under the node's state. No children on either side means no other call. |
| ReconcilerProps.ComponentMountCurrent | src/core.ts:128-140 | A mounted component shows what its factory renders for its props, and holds a fresh instance created with those props. Its `mount` and `mounted` hooks bracket the mount. |
| ReconcilerProps.ComponentUpdateCurrent | src/core.ts:216-222 | A same-factory update keeps the instance and its original props. It re-renders from the new vnode's props and updates the rendered ref. |
| ReconcilerProps.RerenderLatestSettled | src/core.ts:130-135 | With the corrected re-render, a self-update of an up-to-date component changes no ref and no node. It makes only the `update` and `updated` hook calls. |
| ReconcilerProps.RerenderStaleProps | src/core.ts:130-133 | As written, a component given new props by its parent reverts to what it renders for its original props on its next self-update. |
| StateProps.MountStates | src/core.ts:104-151 | After a mount, every item holds the state `createNode` derives from its parent's: an element's children get the element's namespace, and list members and what a component renders get the state of their slot. |
| StateProps.MountElementStates | src/core.ts:110-120 | A mounted element holds `ElementNs` of its tag, its props and the inherited state, and its children's tree is mounted with that state. |
| StateProps.MountComponentStates | src/core.ts:128-149 | What a component renders is mounted with the component's slot state. |
| StateProps.MountSeqStates | src/core.ts:121-127 | Every list member is mounted with the list's slot state. |
| StateProps.NeutralInherits | src/envs/dom.ts:83-86 | In a tree where no element has a non-empty `xmlns` or a tag the namespace table lists, every item holds the slot's state: each element carries its nearest ancestor's namespace. |
| StateProps.XmlnsGovernsSubtree | src/envs/dom.ts:83-86 | An element with a non-empty `xmlns` takes that namespace whatever it inherits. When no element below it sets a namespace, its whole children tree holds that namespace too. |
| StateProps.NeutralMountInherits | src/envs/dom.ts:83-86 | A mounted tree in which no element sets a namespace holds the state it was mounted with, everywhere. |
| Placement.SplicedTwice | src/core.ts:125 | Two blocks inserted one after the other before the same reference node form one block, in order. |
| Placement.MountPlaces | src/core.ts:104-151 | A mount places the ref's top-level nodes as one block just before the reference node among the parent's children. Every other pre-existing node keeps its children and its parent. |
| Placement.MountElementPlaces | src/core.ts:110-120 | An element shows up under its parent as its single node. |
| Placement.MountComponentPlaces | src/core.ts:128-149 | A component shows up under its parent as what it renders. |
| Placement.MountSeqPlaces | src/core.ts:121-127 | A list shows up under its parent as its members' blocks in order. |
| Placement.ReplaceTakesPlace | src/core.ts:223-229 | Mismatch replacement of a childless item leaves the new content's top nodes exactly where the old node was among its parent's children. |

## Left out

- DOM side effects are out of scope. `createComment`, `createTextNode`, `createElement(NS)`, `setAttribute`, property writes and event handlers become abstract operations or trace entries; what the browser does with them is not modelled.
- `insertBefore` with a reference node that is not a child of the parent throws in the DOM. The model appends at the end instead.
- `removeChild` of a node that is not a child throws in the DOM. The model leaves the tree unchanged.
- A node without a parent has `parentNode` null. The model uses node id 0 for it; the source's non-null assertion is not modelled.
- `createElementNS` at src/envs/dom.ts:85 passes the inherited namespace, not the new one. Only the state handed to the children is modelled; the namespace the element is created in is not.
- An `xmlns` prop that is truthy but not a string is not modelled as a namespace.
- `key in SPECIAL_ATTRS` also matches keys inherited from `Object.prototype` (`toString`, `constructor`, …). The model's special keys are the seven own keys only.
- Numbers are integers. NaN, fractions, `-0` and exponent notation in the string conversion of a leaf are not modelled.
- `toLowerCase` is modelled on ASCII letters only.
- `queueMicrotask`, `queueMacrotask` and `tryCatchLog` come from `./tools`, which is not part of this model. The two queues are explicit sequences, hook callbacks cannot fail, and exceptions thrown by callbacks or render functions are out of scope.
- The "Invalid Vnode" throw paths (src/core.ts:150, src/envs/dom.ts:88) are unreachable in the model, because the five-variant `Vnode` has no other values. `Vnodes.Classify` states which JavaScript values reach them.
- The reconciler does not thread `ctx`, and the component table has no context input. Factories and render closures read `instance.ctx` (src/core.ts:50, src/core.ts:129-131), so rendering that depends on context is not modelled. Contexts are modelled only in `Instance`, as an arena of records with parent links instead of prototype chains.
- Vnode objects are assumed never to be mutated after creation. The source skips any vnode identical to the ref's (src/core.ts:154), so a vnode changed in place and passed again would be skipped. The model's datatype equality cannot express that case.
- Reconciler.Rerender: the source writes the new rendered ref back into the ref object that the parent's tree shares (src/core.ts:133). The model returns a new `ComponentRef`, and nothing puts it back into an enclosing ref.
- Instance: a `Rendered` event of the scheduler is abstract. It is not connected to `Reconciler.Rerender`, so no lemma relates the scheduler's renders to the port calls a re-render makes.
- A component factory and its render closure are one table entry `(factory, props) -> vnode`. A render closure with hidden state is not modelled.
- Components are limited to a ranked table, in which a factory renders only lower factories. Unbounded recursive components are not modelled.
- Lifecycle hook firings are logged as `Hook` calls whether or not the instance has subscribers. The trace records the event, not each callback.
- The scheduler lemmas are about one instance at a time. Interleavings of several instances are not stated.
- Placement.ReplaceTakesPlace: stated only for an old ref that is a childless item (empty, leaf, or element without children). The general case would need an invariant tying the ref tree to the native tree.
- Placement.MountPlaces: requires that parent links mention only allocated ids and that the parent and reference node are allocated. These are invariants of the abstract tree, not demands the source makes.
- DomEnv.MountBeforeReflects and DomEnv.UpdateBeforeReflects: the props must have distinct keys in distinct slots (`KeySlotsDistinct`: no two `on*` keys differing only in case).
- DomEnv.UpdateBeforeReflects: besides `KeySlotsDistinct` on both props, an old key and a new key may write the same slot only when they are the same key (`SlotsAgree`, so `onClick` cannot replace `onclick`), and a key only the new props have must not be `undefined`, because the source skips it when compared with the missing old value (`NoFreshUndefined`).
- Reconciler.ListWalk: the final order of the children after a list update is not stated. Only the relocation calls of reused refs (`ReconcilerProps.ReuseRelocates`) and the mount placement are.
- Instance.Unsubscribe: modelled only as obtained from an earlier `on` for the same event, so the event's set exists.

## Findings

| source | as written | input that shows it | evidently intended | confidence | as-written member | corrected member |
|---|---|---|---|---|---|---|
| src/envs/dom.ts:38-56 | `ref.mount` and `ref.unmount` both test `typeof value === 'object'`, which is also true for `null`, and then assign to `null.value`, which throws | an element mounted with `ref: obj` and re-rendered with `ref: null`: `ref.update` clears `obj`, then `ref.mount(node, null)` throws (`DomEnv.RefMountNullDiscrepancy`). `ref.update` from an old `null` would throw in `ref.unmount` as well (`DomEnv.RefUpdateAsWritten`) | treat `null` like "no ref", as the unmount pass's `ref &&` guard already does | high, not executed | DomEnv.RefMountAsWritten, DomEnv.RefUnmountAsWritten, DomEnv.RefUpdateAsWritten | DomEnv.RefMount, DomEnv.RefUnmount, DomEnv.RefUpdate |
| src/core.ts:130-133 | an instance's own re-render renders `instance.props`, set once at creation (line 49) and never reassigned when the parent re-renders the component with new props (lines 216-221) | a component mounted with no props, re-rendered by its parent with `{x: 1}`, then calling `update()`: it reverts to what it renders for no props (`ReconcilerProps.RerenderStaleProps`) | re-render from the latest props, so that a self-update right after a parent update changes nothing (`ReconcilerProps.RerenderLatestSettled`) | medium, not executed | Reconciler.Rerender | Reconciler.RerenderLatest |
