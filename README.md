# Didact fiber reconciler, modelled in Dafny

This project models the engine in `src/index.js`: a small fiber-based UI
renderer in the style of Didact. It covers each part of the engine:

- **Element builder.** `createElement` and `createTextElement` build element
  descriptions.
- **Host-node prop diff.** `updateDom` diffs previous and next props into
  host calls.
- **Work loop.** `workLoop` and `performUnitOfWork` walk the work-in-progress
  fiber tree one unit at a time.
- **Host components.** `updateHostComponent` creates DOM nodes through
  `createDom`.
- **Function components.** `updateFunctionComponent` runs a component, with
  `useState` and its setter.
- **Positional reconciliation.** `reconcileChildren` matches the new children
  against the old ones.
- **Entry point.** `render` starts a render.
- **Commit phase.** `commitRoot`, `commitWork` and `commitDeletion` apply the
  finished tree.

Modules, one per file:

- `Elements` (`elements.dfy`): element values and props.
  - Props are an ordered association list, so `Object.keys` order is kept.
  - `null` children are kept as `Nil`, because `typeof null === "object"`.
- `Dom` (`dom.dfy`): host calls as a log of `HostOp`s on abstract node ids.
  - Contains `updateDom`, `createDom`, and the `isEvent`/`isProperty`/`isNew`/`isGone` predicates.
- `Fibers` (`fibers.dfy`): the fiber arena.
  - Fibers live in a `seq<Fiber>` whose `parent`/`child`/`sibling`/`alternate` links are indices.
  - `child`/`sibling` point forward and `parent`/`alternate` point backward, so every walk terminates.
  - Also holds the pre-order walk, the walks up and down that find DOM owners, the hook-queue replay, and what `commitWork` performs.
- `Reconcile` (`reconcile.dfy`): what `reconcileChildren` does, stated as functions of the old arena.
  - A per-position rule.
  - The deletion list.
  - The whole-call predicate `Reconciled`.
  - A round-by-round loop specification.
- `Engine` (`engine.dfy`): class `Renderer`.
  - Its fields are the module-level globals (`nextUnitOfWork`, `currentRoot`, `wipRoot`, `deletions`, `wipFiber`, `hookIndex`), plus the arena, the host log and a node counter.
  - Its methods are the imperative functions of the source.
  - Each method is proved against the functions of the other modules.
  - The methods that stand for a whole function of the source keep the invariant `Valid()`: the arena is linked, children agree with parents, roots own a node, every `UPDATE` has an alternate, and props are well formed.
  - `ReconcileChildren` and its loop steps (`ReconcileStep`, `ReconcileOne`, `BuildOne`) neither require nor ensure `Valid()`. They are proved against `Reconciled` on a linked arena, and their callers restore `Valid()` through `ReconcileKeepsEngine`.

## Model

| member | source | states |
|---|---|---|
| Elements.CreateTextElement | src/index.js:13-21 | a text element has type "TEXT_ELEMENT" and exactly the keys nodeValue (the text) and children (empty), in that order |
| Elements.CreateElement | src/index.js:1-11 | the type is kept; every key other than children keeps its value; children is the argument list, position by position: an element or null unchanged, any other value wrapped by createTextElement; a children key already in props keeps its place, otherwise it comes last |
| Elements.Put | src/index.js:4-8 | object spread then one key: the key reads the new value, every other key reads what it read before, and the key order is Object.keys order with a new key appended |
| Dom.EventName | src/index.js:52 | the event type is the key lower-cased without its first two characters |
| Dom.UpdateDomExactly | src/index.js:45-80 | in both directions, exactly these calls are made: a listener is removed for a previous event key that is gone or changed, a property is cleared to "" for a previous plain key that is gone, a property is set to the next value for a plain key that is new or changed, and a listener is added for an event key that is new or changed |
| Dom.UpdateDomSkipsChildren | src/index.js:34-35 | no host call ever concerns the children key |
| Dom.UpdateDomSameProps | src/index.js:36 | diffing a props object against itself makes no host call |
| Dom.UpdateDomFromEmpty | src/index.js:29 | against empty previous props nothing is removed or cleared; every property set carries the next value, and that value is not undefined |
| Dom.CreateDomApplies | src/index.js:23-32 | the first call creates a text node if and only if the type is TEXT_ELEMENT, and an element of the tag otherwise; every later call is either a property set on that node for a plain (non-children, non-event) prop key present in props, with that prop's value, or a listener on that node for an event key present in props, under the event name taken from the key and with the prop's value as handler; every plain prop with a value is set and every event prop with a value gets a listener |
| Fibers.SubtreeSteps | src/index.js:191-200 | stepping to the next unit of work from any fiber walks its subtree in pre-order, and the step after the subtree's last fiber is the sibling of the fiber or of its nearest ancestor that has one |
| Fibers.WorkLoopVisitsPreorder | src/index.js:184-201 | from a root, the units of work are exactly the root's tree in pre-order, after which there is no next unit |
| Fibers.OwnerDomStep | src/index.js:100-103 | the walk up from a fiber without a node continues at its parent, and fails at a root |
| Fibers.DomParentExists | src/index.js:100-105 | when every root owns a node, every fiber with a parent has a DOM parent, so the walk up never runs off the tree |
| Fibers.DeletionOps | src/index.js:126-132 | commitDeletion removes exactly the node of the first fiber along the child path that owns one; it fails if and only if no fiber on that path owns a node |
| Fibers.DeletionOpsStep | src/index.js:126-131 | a fiber without a node defers to its child, and fails when it has none |
| Fibers.ReplayConcat | src/index.js:231-234 | replaying two queues one after the other is the same as replaying their concatenation, so actions queued over several setState calls apply in queue order |
| Fibers.ReplayIncrements | src/index.js:231-234 | n queued `c => c + 1` actions on a numeric state add n |
| Fibers.HookState | src/index.js:219-234 | without an old hook the state is the initial value; with an old hook whose queue is empty it is the old state |
| Fibers.FreshHooks | src/index.js:210-212 | the component's fiber ends with one hook per useState call, in call order, each holding the state that call computed and an empty queue |
| Fibers.HookStateOwnHooks | src/index.js:219-222 | the states useState computes read only the alternate's hooks, never the fiber's own |
| Fibers.FreshHooksOwnHooks | src/index.js:210-222 | emptying or replacing a fiber's own hook list does not change the states its useState calls compute |
| Fibers.RunOpsOnlyUpdates | src/index.js:107-118 | committing fibers none of which is PLACEMENT or DELETION does not fail, and it only sets props and adds or removes listeners |
| Fibers.DeletedFiberVisitsSiblings | src/index.js:84-118 | for a deleted fiber with a sibling, deletions.forEach(commitWork) runs commitWork on the fiber's whole forest; once the deleted subtree's calls complete, the next calls are the sibling's own effect, whatever its tag, then the rest of the sibling's forest; a throw in the deleted subtree stops the run there |
| Fibers.ForestRun | src/index.js:94-119 | commitWork(fiber) is the fiber's own effect, then commitWork of its child, then of its sibling, and a failure skips whatever follows it |
| Fibers.SiblingsVisitedTwice | src/index.js:84-118 | for two adjacent deleted siblings without children, deletions.forEach(commitWork) visits the first, then the second through the first one's sibling link, then the second again on its own |
| Fibers.DeletedOwnerRemoved | src/index.js:112-128 | committing a deleted fiber that owns a node makes exactly one call: the removal of that node from its DOM parent |
| Fibers.DeletedSiblingRemovedTwice | src/index.js:84-132 | for two adjacent deleted siblings without children, each owning a node, the deletions' commit asks the host to remove the first node once and the second node twice, and every one of these calls is made |
| Fibers.CommitOrderRun | src/index.js:83-85 | commitRoot performs the deletions' effects first and the work tree's only when none of them threw; a throw in either stops the run there |
| Fibers.CommitOrderCommittable | src/index.js:83-85 | every fiber commitRoot visits, whether deleted or in the new tree, has a DOM parent, and has an alternate when it is an UPDATE with a node |
| Reconcile.OldChildrenHaveParent | src/index.js:270 | every old child hangs under a parent |
| Reconcile.Placed | src/index.js:277-298 | for the same type, an UPDATE fiber with the old fiber's node and the old fiber as alternate; otherwise a PLACEMENT fiber with no node and no alternate; in both cases the element's type and props, parent = the reconciled fiber, and the next new fiber as sibling |
| Reconcile.DeletedExactly | src/index.js:299-302 | an old fiber goes on the deletion list if and only if its position holds no element of the same type |
| Reconcile.SameTypesOnlyUpdate | src/index.js:277-302 | when the element types match the old children position by position, nothing is deleted and every new fiber is an UPDATE |
| Reconcile.TypeSwapPlacesAndDeletes | src/index.js:277-302 | a type swap at one position builds a PLACEMENT fiber with no alternate there and puts the old fiber on the deletion list |
| Reconcile.ReconciledChildChain | src/index.js:268-317 | after reconciling, the parent's child chain is exactly one fiber per leading non-null element, in element order, with that element's type and props; with an empty element list and old children the parent ends with no child; only a call with neither elements nor old children leaves an existing child in place |
| Reconcile.ReconciledUnique | src/index.js:268-317 | reconcileChildren has one outcome: two arenas and deletion lists that both reconcile the same elements under the same fiber from the same start are equal |
| Reconcile.ReconciledNewFibers | src/index.js:279-311 | every new fiber is a leaf whose parent is the reconciled fiber and whose sibling is the next new fiber, the last one having none; the fiber at position j carries the type and props of element j |
| Reconcile.ReconciledAgree | src/index.js:284-311 | reconciling keeps the arena linked, and the new chain agrees with its parent |
| Reconcile.RoundProgress | src/index.js:273-316 | one iteration of the loop extends the new chain by the element's fiber, retags and pushes an unmatched old fiber, and advances both cursors |
| Reconcile.ProgressDone | src/index.js:273 | once both cursors are exhausted, the state is exactly the whole-call result `Reconciled`: new fibers appended and linked as the child chain, unmatched old fibers tagged DELETION and appended to deletions, and nothing else changed |
| Engine.ReconcileKeepsEngine | src/index.js:268-317 | reconciling a work fiber's children keeps the whole renderer invariant: arena links, agreement with parents, roots, work pointers and the deletion list |
| Engine.SetDomKeepsEngine | src/index.js:257-259 | storing a freshly created node on a fiber keeps the renderer invariant |
| Engine.ReconcileKeepsArena | src/index.js:268-317 | reconciling preserves the arena invariants, leaves every old fiber's parent alone, and puts only fibers with a parent on the deletion list |
| Engine.Renderer.constructor | src/index.js:152-155 | the engine starts with no roots, no work, and an empty deletion list and host log |
| Engine.Renderer.Render | src/index.js:139-150 | a new work root over the container, with the element as its only child and the current root as alternate, becomes both wipRoot and nextUnitOfWork; deletions is emptied |
| Engine.Renderer.SetState | src/index.js:236-245 | the action is appended to its own hook's queue and nothing else in the arena changes; a new work root copies the current root's node and props with the current root (never the abandoned work root) as alternate; it becomes wipRoot and nextUnitOfWork; deletions is emptied |
| Engine.Renderer.UseState | src/index.js:217-250 | returns the replayed state of the old hook at hookIndex (or the initial value), pushes a hook with that state and an empty queue, increments hookIndex by exactly one, and returns a setter bound to that new hook |
| Engine.Renderer.CreateDom | src/index.js:23-32 | allocates the next node id and logs exactly the creation calls of CreateDomApplies |
| Engine.Renderer.UpdateHostComponent | src/index.js:256-261 | a fiber without a node gets a fresh one, created as createDom does, and only then are its props' children reconciled; a fiber that has a node makes no host call |
| Engine.Renderer.UpdateFunctionComponent | src/index.js:207-215 | the fiber's hooks are reset and rebuilt one per useState call, and the component's single returned element is reconciled as its only child; afterwards wipFiber is the fiber and hookIndex is the number of calls |
| Engine.Renderer.CallHooks | src/index.js:212 | running the component body calls useState once per initial value, in order: the fiber ends with exactly one hook per call, holding the state replayed from the alternate's hook at that position with an empty queue, the states returned are those hooks' states, and hookIndex is the number of calls |
| Engine.Renderer.NextUnit | src/index.js:191-200 | the loop returns the fiber's child, else the sibling of the fiber or of its nearest ancestor that has one, else nothing |
| Engine.Renderer.PerformUnitOfWork | src/index.js:184-201 | a component fiber is run as in UpdateFunctionComponent and any other fiber is handled as in UpdateHostComponent; then the next unit of work is returned |
| Engine.Renderer.WorkOnce | src/index.js:168 | one statement of the loop performs the unit as performUnitOfWork does (a component fiber as updateFunctionComponent, with no host call and no new node; any other fiber as updateHostComponent), keeps the renderer invariant, and moves the next unit to the successor of the unit just performed, in the arena that unit left |
| Engine.UnitWorkedUnique | src/index.js:184-201 | performUnitOfWork has one outcome: two end states that both perform the same fiber's unit from the same state are equal |
| Engine.WalkedUnique | src/index.js:166-170 | two runs of the same number of units from the same state visit the same fibers, pass through the same states and point at the same next unit |
| Engine.WalkedConcat | src/index.js:166-170 | a run that stops with work pending at fiber m, followed by a run that resumes at m from the state the first left, together form one run from the first start through both lists of units |
| Engine.YieldResume | src/index.js:164-176 | yield and resume: an uninterrupted run of as many units from the same start visits exactly the units of the first run followed by those of the second, ends in the state the second run ended in, and points at the same next unit |
| Engine.Renderer.PerformUnits | src/index.js:166-170 | with work pending, at least one unit runs; the k-th unit takes the arena, deletions, host log and node counter from the k-th state to the next exactly as performUnitOfWork does for that fiber; each unit is the successor of the one before, in the arena that unit left; the first state is the one before the loop and the last is the one after it; units stop when no work is left or after the budget (at least one), and with work still pending exactly that many ran; with no work nothing changes |
| Engine.Renderer.WorkLoop | src/index.js:164-176 | the units run first, each one as performUnitOfWork does it, from the state before the call to the state the commit starts from; then it commits if and only if no work is left and a work root exists, and the commit appends exactly commitRoot's calls to the log and reports whether they all went through; without a commit the log is not touched after the units; a successful commit makes the work root current and clears wipRoot |
| Engine.Renderer.ReconcileChildren | src/index.js:268-317 | the arena and deletion list end exactly as `Reconciled` describes: one new fiber per leading non-null element appended and linked as the child chain, unmatched old children tagged DELETION and pushed in position order, and nothing else changed |
| Engine.Renderer.ReconcileStep | src/index.js:274-316 | one iteration takes the loop from the state after `index` rounds to the state after `index + 1`; the old cursor moves to the next old child, and the fiber built at this position becomes the previous sibling when the position holds an element |
| Engine.Renderer.ReconcileOne | src/index.js:274-315 | one loop iteration: the state after it is the round function of the state before, both cursors advance, and the new fiber is returned when the position holds an element |
| Engine.Renderer.BuildOne | src/index.js:274-302 | the first half of an iteration appends the new fiber and retags and pushes the unmatched old fiber |
| Engine.Renderer.FindDomParent | src/index.js:100-105 | returns the node of the nearest strict ancestor that owns one |
| Engine.Renderer.CommitDeletion | src/index.js:126-132 | logs exactly the removal DeletionOps describes, and fails without a host call when no fiber on the child path owns a node |
| Engine.Renderer.CommitEffect | src/index.js:107-115 | PLACEMENT with a node appends it to the DOM parent, UPDATE with a node diffs the alternate's props against the fiber's, DELETION runs commitDeletion, and anything else makes no call |
| Engine.Renderer.CommitWork | src/index.js:94-119 | logs the effects of the fiber's forest in pre-order, child before sibling, and stops at the first failure |
| Engine.Renderer.CommitDeletions | src/index.js:84 | every deleted fiber's forest can be committed, and their effects are logged in deletion order |
| Engine.Renderer.CommitRoot | src/index.js:83-88 | commits every deletion, then the work root's child; roots are swapped only when every mutation was made, and left alone when one fails |

## Left out

- Scheduling (`requestIdleCallback`, `deadline.timeRemaining()`): `WorkLoop` takes a `budget`, the number of units after which the deadline says to yield. At least one unit always runs. Re-registering the idle callback is the caller's business. Where the deadline falls does not change the outcome: units split over several calls visit the same fibers and reach the same state as one uninterrupted run (`Engine.YieldResume`).
- Engine.Renderer.WorkLoop: after a failed commit (`ok == false`) the source has thrown, so `requestIdleCallback(workLoop)` at `src/index.js:175` is never reached and the engine never runs again. The model returns `ok == false` and leaves `wipRoot` in place; nothing stops a caller from calling `WorkLoop` again, which would repeat the commit's host calls.
- Elements.CreateElement: any object argument is kept unwrapped by the source, arrays and plain objects included. The model's child arguments are elements, `null` or primitive values (`Child = Obj(Element) | Plain(Value)`), so other objects cannot be passed.
- The real DOM (`document.createElement`, `createTextNode`, `appendChild`, `removeChild`, listeners, property writes): these are host calls. They are recorded as `HostOp`s on node ids allocated by a counter.
- Host calls never fail in the model: a logged call counts as made. A browser rejects some of them. With two adjacent deleted siblings, `commitWork` reaches the second through the first one's `sibling` link (`src/index.js:118`) and `deletions.forEach` reaches it again (`src/index.js:84`), so its node is removed twice (`Fibers.DeletedSiblingRemovedTwice`). The second `removeChild` would throw `NotFoundError`, yet the model reports the commit as complete and swaps the roots.
- Engine.Renderer.Render: the container is any `NodeId`. Nothing stops it from sharing an id with a node that `CreateDom` allocates from the counter. A real container is a node that already exists, so its id would never be handed out again.
- The initial `hookIndex = null` (`src/index.js:204`) is modelled as `0`. `updateFunctionComponent` sets it to `0` (`src/index.js:209`) before any `useState` call reads it.
- Running user components: a component is a `Body`. It gives the initial values of its `useState` calls in order, and it gives the element it returns from its props and those states. Event handlers are opaque values compared by equality.
- Setters are not handed to the component body, so a component cannot call its own setter while rendering.
- The demo components, the JSX and the mount call at `src/index.js:319-358` are example app code.
- The element kinds are `Host(tag)` and `Component(id)`, and a text element is `Host("TEXT_ELEMENT")`: the source compares the type string for text elements too.
- JavaScript numbers are unbounded integers, and `toLowerCase` is modelled for ASCII letters only.
- `Object.keys` puts integer-like keys first. The model keeps insertion order for all keys.
- Crashes of `reconcileChildren` are preconditions: an element after a `null` child, and props whose `children` is not an array. Both are excluded by the well-formedness invariant on fibers and component views.
- A crash in `commitDeletion` cannot be excluded: a component that returns `null` and is later removed triggers it. It is modelled as the `ok` result of the commit methods, and a failed commit leaves both roots as they were.
- Engine.Renderer.SetState: requires a committed root, because the source reads `currentRoot.dom` and throws before the first commit.
- The initial `deletions = null` is modelled as an empty list. `render` sets it before any use.
- Engine.Renderer.WorkLoop: states the order of units step by step (each unit is the successor of the previous one in the arena after it) and not as one pre-order over a tree, because the arena grows during the loop. `Fibers.WorkLoopVisitsPreorder` states the pre-order for a fixed arena. What each unit did is stated per unit by `UnitWorked`, with the same predicates `PerformUnitOfWork` ensures.
