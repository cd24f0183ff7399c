/** The fiber arena: every fiber ever built lives at an index of one sequence,
    and the `parent`, `child`, `sibling` and `alternate` links are indices into
    it. This module holds the pure walks over the arena (the sibling chain,
    the pre-order of a work tree, the successor step of the work loop, the
    searches for a DOM-owning fiber), the replay of a hook's queue, and the
    host operations the commit phase derives from a finished tree. */
module Fibers {
  import opened Elements
  import opened Dom

  datatype EffectTag = Placement | Update | Deletion

  /** A queued `setState` argument: a function of the previous state, or a
      value that replaces it. */
  datatype Action = Apply(f: Value -> Value) | Replace(v: Value)

  /** A hook cell `{state, queue}`. */
  datatype Hook = Hook(state: Value, queue: seq<Action>)

  /** A fiber. `kind` is `None` for a root fiber, which has no `type`. */
  datatype Fiber = Fiber(
    kind: Option<ElemType>,
    props: seq<(string, Prop)>,
    dom: Option<NodeId>,
    parent: Option<nat>,
    child: Option<nat>,
    sibling: Option<nat>,
    alternate: Option<nat>,
    effectTag: Option<EffectTag>,
    hooks: seq<Hook>)

  /** Links of fiber `i`: a fiber's parent and alternate were built before it,
      its child and sibling after it. */
  ghost predicate LinksOk(fs: seq<Fiber>, i: nat)
    requires i < |fs|
  {
    (fs[i].parent.Some? ==> fs[i].parent.value < i)
    && (fs[i].child.Some? ==> i < fs[i].child.value < |fs|)
    && (fs[i].sibling.Some? ==> i < fs[i].sibling.value < |fs|)
    && (fs[i].alternate.Some? ==> fs[i].alternate.value < i)
  }

  ghost predicate Linked(fs: seq<Fiber>)
  {
    forall i :: 0 <= i < |fs| ==> LinksOk(fs, i)
  }

  /** The tree links agree: a child's parent is the fiber pointing at it, and
      siblings share a parent. */
  ghost predicate ParentsAgree(fs: seq<Fiber>)
  {
    forall i :: 0 <= i < |fs| ==> AgreesAt(fs, i)
  }

  /** `ParentsAgree` at one fiber. */
  ghost predicate AgreesAt(fs: seq<Fiber>, i: nat)
    requires i < |fs|
  {
    (fs[i].child.Some? && fs[i].child.value < |fs| ==> fs[fs[i].child.value].parent == Some(i))
    && (fs[i].sibling.Some? && fs[i].sibling.value < |fs| ==>
          fs[i].parent.Some? && fs[fs[i].sibling.value].parent == fs[i].parent)
  }

  // ---------------------------------------------------------------------
  // Sibling chains

  /** The sibling chain starting at `start`. */
  function Chain(fs: seq<Fiber>, start: Option<nat>): (c: seq<nat>)
    requires Linked(fs) && (start.Some? ==> start.value < |fs|)
    ensures forall k :: 0 <= k < |c| ==> c[k] < |fs|
    ensures start.None? <==> c == []
    ensures start.Some? ==> c[0] == start.value
    decreases if start.Some? then |fs| - start.value else 0
  {
    match start
    case None => []
    case Some(i) =>
      assert LinksOk(fs, i);
      [i] + Chain(fs, fs[i].sibling)
  }

  // ---------------------------------------------------------------------
  // The work tree in pre-order, and the work loop's successor step

  /** Fiber `i` followed by its descendants, in pre-order. */
  function Subtree(fs: seq<Fiber>, i: nat): (s: seq<nat>)
    requires Linked(fs) && i < |fs|
    ensures |s| > 0 && s[0] == i
    ensures forall k :: 0 <= k < |s| ==> s[k] < |fs|
    decreases |fs| - i, 1
  {
    assert LinksOk(fs, i);
    [i] + Forest(fs, fs[i].child)
  }

  /** The subtrees of the sibling chain starting at `c`, one after the other. */
  function Forest(fs: seq<Fiber>, c: Option<nat>): (s: seq<nat>)
    requires Linked(fs) && (c.Some? ==> c.value < |fs|)
    ensures forall k :: 0 <= k < |s| ==> s[k] < |fs|
    ensures c.None? <==> s == []
    ensures c.Some? ==> s[0] == c.value
    decreases if c.Some? then |fs| - c.value else 0, 2
  {
    match c
    case None => []
    case Some(x) =>
      assert LinksOk(fs, x);
      Subtree(fs, x) + Forest(fs, fs[x].sibling)
  }

  /** The loop of `performUnitOfWork` after a fiber without a child: the
      sibling of the fiber or of its nearest ancestor that has one. */
  function Up(fs: seq<Fiber>, i: nat): (r: Option<nat>)
    requires Linked(fs) && i < |fs|
    ensures r.Some? ==> r.value < |fs|
    decreases i
  {
    assert LinksOk(fs, i);
    if fs[i].sibling.Some? then fs[i].sibling
    else
      match fs[i].parent
      case None => None
      case Some(p) => Up(fs, p)
  }

  /** The next unit of work after fiber `i`. */
  function Successor(fs: seq<Fiber>, i: nat): (r: Option<nat>)
    requires Linked(fs) && i < |fs|
    ensures r.Some? ==> r.value < |fs|
  {
    assert LinksOk(fs, i);
    if fs[i].child.Some? then fs[i].child else Up(fs, i)
  }

  /** Stepping with `Successor` from fiber `i` walks its subtree in
      pre-order, and the step after its last fiber is `Up(i)`: where the walk
      goes once the whole subtree is done. */
  lemma {:induction false} SubtreeSteps(fs: seq<Fiber>, i: nat)
    requires Linked(fs) && ParentsAgree(fs) && i < |fs|
    ensures var s := Subtree(fs, i);
      (forall k :: 0 <= k < |s| - 1 ==> Successor(fs, s[k]) == Some(s[k + 1]))
      && Successor(fs, s[|s| - 1]) == Up(fs, i)
    decreases |fs| - i, 1
  {
    assert LinksOk(fs, i);
    var s := Subtree(fs, i);
    match fs[i].child
    case None =>
      assert s == [i];
    case Some(c) =>
      var f := Forest(fs, Some(c));
      assert s == [i] + f;
      assert AgreesAt(fs, i);
      ForestSteps(fs, c, i);
      assert Successor(fs, s[0]) == Some(s[1]);
      forall k | 1 <= k < |s| - 1 ensures Successor(fs, s[k]) == Some(s[k + 1]) {
        assert s[k] == f[k - 1] && s[k + 1] == f[k];
      }
      assert s[|s| - 1] == f[|f| - 1];
  }

  /** The same for the subtrees of a sibling chain whose fibers share the
      parent `p`: after the last one, the walk goes to `Up(p)`. */
  lemma {:induction false} ForestSteps(fs: seq<Fiber>, c: nat, p: nat)
    requires Linked(fs) && ParentsAgree(fs) && c < |fs| && p < |fs| && fs[c].parent == Some(p)
    ensures var f := Forest(fs, Some(c));
      (forall k :: 0 <= k < |f| - 1 ==> Successor(fs, f[k]) == Some(f[k + 1]))
      && Successor(fs, f[|f| - 1]) == Up(fs, p)
    decreases |fs| - c, 2
  {
    assert LinksOk(fs, c);
    var f := Forest(fs, Some(c));
    var s := Subtree(fs, c);
    SubtreeSteps(fs, c);
    match fs[c].sibling
    case None =>
      assert f == s + [];
      assert Up(fs, c) == Up(fs, p);
    case Some(b) =>
      var g := Forest(fs, Some(b));
      assert f == s + g;
      assert AgreesAt(fs, c);
      ForestSteps(fs, b, p);
      forall k | 0 <= k < |f| - 1 ensures Successor(fs, f[k]) == Some(f[k + 1]) {
        if k < |s| - 1 {
          assert f[k] == s[k] && f[k + 1] == s[k + 1];
        } else if k == |s| - 1 {
          assert f[k] == s[k] && f[k + 1] == g[0];
        } else {
          assert f[k] == g[k - |s|] && f[k + 1] == g[k + 1 - |s|];
        }
      }
      assert f[|f| - 1] == g[|g| - 1];
  }

  /** Starting the work loop at a root fiber visits exactly the root's tree,
      in pre-order, and then finds no more work. */
  lemma WorkLoopVisitsPreorder(fs: seq<Fiber>, root: nat)
    requires Linked(fs) && ParentsAgree(fs) && root < |fs|
    requires fs[root].parent.None? && fs[root].sibling.None?
    ensures var s := Subtree(fs, root);
      (forall k :: 0 <= k < |s| - 1 ==> Successor(fs, s[k]) == Some(s[k + 1]))
      && Successor(fs, s[|s| - 1]) == None
  {
    SubtreeSteps(fs, root);
  }

  // ---------------------------------------------------------------------
  // Searches for a fiber that owns a DOM node

  /** `i`, its parent, its parent's parent, ... up to a root. */
  function ParentPath(fs: seq<Fiber>, i: nat): (path: seq<nat>)
    requires Linked(fs) && i < |fs|
    ensures |path| > 0 && path[0] == i
    ensures forall k :: 0 <= k < |path| ==> path[k] < |fs|
    decreases i
  {
    assert LinksOk(fs, i);
    match fs[i].parent
    case None => [i]
    case Some(p) => [i] + ParentPath(fs, p)
  }

  /** `i`, its child, its child's child, ... down to a fiber without one. */
  function ChildPath(fs: seq<Fiber>, i: nat): (path: seq<nat>)
    requires Linked(fs) && i < |fs|
    ensures |path| > 0 && path[0] == i
    ensures forall k :: 0 <= k < |path| ==> path[k] < |fs|
    decreases |fs| - i
  {
    assert LinksOk(fs, i);
    match fs[i].child
    case None => [i]
    case Some(c) => [i] + ChildPath(fs, c)
  }

  /** The position in `path` of its first fiber that owns a DOM node. */
  function FirstOwner(fs: seq<Fiber>, path: seq<nat>): (r: Option<nat>)
    requires forall k :: 0 <= k < |path| ==> path[k] < |fs|
    ensures r.Some? ==> r.value < |path| && fs[path[r.value]].dom.Some?
    ensures r.Some? ==> forall k :: 0 <= k < r.value ==> fs[path[k]].dom.None?
    ensures r.None? ==> forall k :: 0 <= k < |path| ==> fs[path[k]].dom.None?
  {
    if path == [] then None
    else if fs[path[0]].dom.Some? then Some(0)
    else
      match FirstOwner(fs, path[1..])
      case None => None
      case Some(k) => Some(k + 1)
  }

  /** The DOM node of the nearest fiber from `p` upwards that owns one. */
  function OwnerDom(fs: seq<Fiber>, p: nat): (r: Option<NodeId>)
    requires Linked(fs) && p < |fs|
    ensures fs[p].dom.Some? ==> r == fs[p].dom
  {
    var path := ParentPath(fs, p);
    match FirstOwner(fs, path)
    case None => None
    case Some(k) => fs[path[k]].dom
  }

  /** The DOM node of the nearest strict ancestor that owns one (the loop at
      the top of `commitWork`). */
  function DomParent(fs: seq<Fiber>, i: nat): (owner: Option<NodeId>)
    requires Linked(fs) && i < |fs|
  {
    assert LinksOk(fs, i);
    match fs[i].parent
    case None => None
    case Some(p) => OwnerDom(fs, p)
  }

  /** One step of the walk up: a fiber without a node defers to its parent. */
  lemma OwnerDomStep(fs: seq<Fiber>, p: nat)
    requires Linked(fs) && p < |fs| && fs[p].dom.None?
    ensures fs[p].parent.None? ==> OwnerDom(fs, p).None?
    ensures fs[p].parent.Some? ==> fs[p].parent.value < p && OwnerDom(fs, p) == OwnerDom(fs, fs[p].parent.value)
  {
    assert LinksOk(fs, p);
    if fs[p].parent.Some? {
      assert ParentPath(fs, p)[1..] == ParentPath(fs, fs[p].parent.value);
    }
  }

  /** Every root fiber owns a DOM node (the container). */
  ghost predicate RootsOwnNodes(fs: seq<Fiber>)
  {
    forall i :: 0 <= i < |fs| && fs[i].parent.None? ==> fs[i].dom.Some?
  }

  /** When every root owns a node, every fiber with a parent has a DOM parent:
      the walk up always ends at a fiber with a node. */
  lemma {:induction false} DomParentExists(fs: seq<Fiber>, i: nat)
    requires Linked(fs) && RootsOwnNodes(fs) && i < |fs| && fs[i].parent.Some?
    ensures DomParent(fs, i).Some?
  {
    assert LinksOk(fs, i);
    PathHasOwner(fs, fs[i].parent.value);
  }

  lemma {:induction false} PathHasOwner(fs: seq<Fiber>, p: nat)
    requires Linked(fs) && RootsOwnNodes(fs) && p < |fs|
    ensures FirstOwner(fs, ParentPath(fs, p)).Some?
    decreases p
  {
    assert LinksOk(fs, p);
    var path := ParentPath(fs, p);
    if fs[p].dom.None? {
      var q := fs[p].parent.value;
      PathHasOwner(fs, q);
      assert path[1..] == ParentPath(fs, q);
    }
  }

  // ---------------------------------------------------------------------
  // Hooks

  /** One queued action applied to the running state. */
  function Step(state: Value, action: Action): (r: Value)
  {
    match action
    case Apply(f) => f(state)
    case Replace(v) => v
  }

  /** The queue folded over the state, in enqueue order. */
  function Replay(state: Value, queue: seq<Action>): (r: Value)
  {
    if queue == [] then state
    else Step(Replay(state, queue[..|queue| - 1]), queue[|queue| - 1])
  }

  /** Replaying two queues one after the other is replaying their
      concatenation: actions queued across several `setState` calls are
      applied in the order they were queued. */
  lemma {:induction false} ReplayConcat(state: Value, q1: seq<Action>, q2: seq<Action>)
    ensures Replay(state, q1 + q2) == Replay(Replay(state, q1), q2)
    decreases |q2|
  {
    if q2 != [] {
      var q := q1 + q2;
      assert q[..|q| - 1] == q1 + q2[..|q2| - 1];
      assert q[|q| - 1] == q2[|q2| - 1];
      ReplayConcat(state, q1, q2[..|q2| - 1]);
    } else {
      assert q1 + q2 == q1;
    }
  }

  /** A queue whose last action is a plain value ends in that value,
      whatever the state was. */
  lemma ReplayEndsWithReplace(state: Value, queue: seq<Action>, v: Value)
    requires queue != [] && queue[|queue| - 1] == Replace(v)
    ensures Replay(state, queue) == v
  {
  }

  /** Queuing `n` increments on a numeric state adds `n`: the counter example
      of a component whose setter is called with `c => c + 1`. */
  lemma {:induction false} ReplayIncrements(start: int, queue: seq<Action>, inc: Value -> Value)
    requires forall x: int :: inc(Num(x)) == Num(x + 1)
    requires forall k :: 0 <= k < |queue| ==> queue[k] == Apply(inc)
    ensures Replay(Num(start), queue) == Num(start + |queue|)
    decreases |queue|
  {
    if queue != [] {
      ReplayIncrements(start, queue[..|queue| - 1], inc);
    }
  }

  /** The hook at position `k` of the alternate of fiber `w`, if any
      (`wipFiber.alternate && wipFiber.alternate.hooks && ...hooks[hookIndex]`). */
  function OldHook(fs: seq<Fiber>, w: nat, k: nat): (h: Option<Hook>)
    requires Linked(fs) && w < |fs|
  {
    assert LinksOk(fs, w);
    match fs[w].alternate
    case None => None
    case Some(a) => if k < |fs[a].hooks| then Some(fs[a].hooks[k]) else None
  }

  /** The state `useState(initial)` returns at hook position `k` of fiber `w`:
      the old hook's queue replayed over the old hook's state, or `initial`
      when there is no old hook. */
  function HookState(fs: seq<Fiber>, w: nat, k: nat, initial: Value): (s: Value)
    requires Linked(fs) && w < |fs|
    ensures OldHook(fs, w, k).None? ==> s == initial
    ensures OldHook(fs, w, k).Some? && OldHook(fs, w, k).value.queue == [] ==> s == OldHook(fs, w, k).value.state
  {
    match OldHook(fs, w, k)
    case None => initial
    case Some(h) => Replay(h.state, h.queue)
  }

  /** The hooks a function component's fiber `w` ends up with after
      calling `useState` once for each value of `inits`, in order. */
  function FreshHooks(fs: seq<Fiber>, w: nat, inits: seq<Value>): (hs: seq<Hook>)
    requires Linked(fs) && w < |fs|
    ensures |hs| == |inits|
    ensures forall k :: 0 <= k < |inits| ==> hs[k] == Hook(HookState(fs, w, k, inits[k]), [])
  {
    seq(|inits|, k requires 0 <= k < |inits| => Hook(HookState(fs, w, k, inits[k]), []))
  }

  /** A fiber's own hooks do not affect the states its `useState` calls
      return: those come from the alternate's hooks. */
  lemma HookStateOwnHooks(fs: seq<Fiber>, w: nat, hs: seq<Hook>, k: nat, initial: Value)
    requires Linked(fs) && w < |fs|
    ensures Linked(fs[w := fs[w].(hooks := hs)])
    ensures HookState(fs[w := fs[w].(hooks := hs)], w, k, initial) == HookState(fs, w, k, initial)
  {
    var gs := fs[w := fs[w].(hooks := hs)];
    forall j | 0 <= j < |gs| ensures LinksOk(gs, j) {
      assert LinksOk(fs, j);
    }
    assert LinksOk(fs, w);
    assert OldHook(gs, w, k) == OldHook(fs, w, k);
  }

  /** The same holds for all of a component's calls at once. */
  lemma FreshHooksOwnHooks(fs: seq<Fiber>, w: nat, hs: seq<Hook>, inits: seq<Value>)
    requires Linked(fs) && w < |fs|
    ensures Linked(fs[w := fs[w].(hooks := hs)])
    ensures FreshHooks(fs[w := fs[w].(hooks := hs)], w, inits) == FreshHooks(fs, w, inits)
  {
    HookStateOwnHooks(fs, w, hs, 0, Undefined);
    forall k | 0 <= k < |inits|
      ensures HookState(fs[w := fs[w].(hooks := hs)], w, k, inits[k]) == HookState(fs, w, k, inits[k])
    {
      HookStateOwnHooks(fs, w, hs, k, inits[k]);
    }
  }

  // ---------------------------------------------------------------------
  // Commit effects

  /** What `commitWork` needs of a fiber it visits: a DOM parent (the walk up
      never runs off the tree), and an alternate when it is an `UPDATE` with a
      node (its previous props are read). */
  ghost predicate Committable(fs: seq<Fiber>, i: nat)
    requires Linked(fs) && i < |fs|
  {
    DomParent(fs, i).Some?
    && (fs[i].effectTag == Some(Update) && fs[i].dom.Some? ==> fs[i].alternate.Some?)
  }

  /** No fiber along `path` owns a DOM node. */
  predicate NoOwner(fs: seq<Fiber>, path: seq<nat>)
    requires forall k :: 0 <= k < |path| ==> path[k] < |fs|
  {
    forall k :: 0 <= k < |path| ==> fs[path[k]].dom.None?
  }

  /** `ops` removes, from `parentNode`, the node of the first fiber along
      `path` that owns one. */
  predicate RemovesFirstOwner(fs: seq<Fiber>, path: seq<nat>, parentNode: NodeId, ops: seq<HostOp>)
    requires forall k :: 0 <= k < |path| ==> path[k] < |fs|
  {
    exists k :: 0 <= k < |path| && fs[path[k]].dom.Some?
      && ops == [RemoveChild(parentNode, fs[path[k]].dom.value)]
      && (forall j :: 0 <= j < k ==> fs[path[j]].dom.None?)
  }

  /** `commitDeletion(fiber, domParent)`: remove the node of the first fiber
      along the child path that owns one. `None` when no fiber on the path
      owns a node: the source then reads `dom` of `undefined` and throws. */
  function DeletionOps(fs: seq<Fiber>, i: nat, parentNode: NodeId): (r: Option<seq<HostOp>>)
    requires Linked(fs) && i < |fs|
    ensures r.Some? ==> RemovesFirstOwner(fs, ChildPath(fs, i), parentNode, r.value)
    ensures r.None? <==> NoOwner(fs, ChildPath(fs, i))
  {
    var path := ChildPath(fs, i);
    match FirstOwner(fs, path)
    case None =>
      assert NoOwner(fs, path);
      None
    case Some(k) =>
      var ops := [RemoveChild(parentNode, fs[path[k]].dom.value)];
      assert 0 <= k < |path| && fs[path[k]].dom.Some? && (forall j :: 0 <= j < k ==> fs[path[j]].dom.None?);
      assert RemovesFirstOwner(fs, path, parentNode, ops) && !NoOwner(fs, path);
      Some(ops)
  }

  /** One step of `commitDeletion`: a fiber without a node defers to its
      child. */
  lemma DeletionOpsStep(fs: seq<Fiber>, i: nat, parentNode: NodeId)
    requires Linked(fs) && i < |fs| && fs[i].dom.None?
    ensures fs[i].child.None? ==> DeletionOps(fs, i, parentNode).None?
    ensures fs[i].child.Some? ==>
      i < fs[i].child.value < |fs| && DeletionOps(fs, i, parentNode) == DeletionOps(fs, fs[i].child.value, parentNode)
  {
    assert LinksOk(fs, i);
    if fs[i].child.Some? {
      var path := ChildPath(fs, i);
      assert path[1..] == ChildPath(fs, fs[i].child.value);
    }
  }

  /** The host operations `commitWork` performs for fiber `i` itself, before
      it recurses; `None` when it throws. */
  function FiberOps(fs: seq<Fiber>, i: nat): (ops: Option<seq<HostOp>>)
    requires Linked(fs) && i < |fs| && Committable(fs, i)
  {
    var parentNode := DomParent(fs, i).value;
    var f := fs[i];
    if f.effectTag == Some(Placement) && f.dom.Some? then Some([AppendChild(parentNode, f.dom.value)])
    else if f.effectTag == Some(Update) && f.dom.Some? then
      assert LinksOk(fs, i);
      Some(UpdateDomOps(f.dom.value, fs[f.alternate.value].props, f.props))
    else if f.effectTag == Some(Deletion) then DeletionOps(fs, i, parentNode)
    else Some([])
  }

  /** Every fiber of `xs` can be visited by `commitWork`. */
  ghost predicate AllCommittable(fs: seq<Fiber>, xs: seq<nat>)
    requires Linked(fs)
  {
    forall k :: 0 <= k < |xs| ==> xs[k] < |fs| && Committable(fs, xs[k])
  }

  /** The effect of each fiber of `xs`, in order. */
  function Effects(fs: seq<Fiber>, xs: seq<nat>): (effs: seq<Option<seq<HostOp>>>)
    requires Linked(fs) && AllCommittable(fs, xs)
    ensures |effs| == |xs| && forall k :: 0 <= k < |xs| ==> effs[k] == FiberOps(fs, xs[k])
  {
    seq(|xs|, k requires 0 <= k < |xs| && AllCommittable(fs, xs) => FiberOps(fs, xs[k]))
  }

  /** Performing effects in order, stopping at the first throw: the
      operations performed, and whether the run completed. */
  function Run(effs: seq<Option<seq<HostOp>>>): (r: (seq<HostOp>, bool))
  {
    if effs == [] then ([], true)
    else
      match effs[0]
      case None => ([], false)
      case Some(ops) =>
        var rest := Run(effs[1..]);
        (ops + rest.0, rest.1)
  }

  /** `commitWork` over the fibers `xs`, in order. */
  function RunOps(fs: seq<Fiber>, xs: seq<nat>): (r: (seq<HostOp>, bool))
    requires Linked(fs) && AllCommittable(fs, xs)
  {
    Run(Effects(fs, xs))
  }

  /** A run over `a + b` is the run over `a`, then, if it completed, the run
      over `b`: a throw stops everything after it. */
  lemma {:induction false} RunConcat(a: seq<Option<seq<HostOp>>>, b: seq<Option<seq<HostOp>>>)
    ensures Run(a + b) ==
      if Run(a).1 then (Run(a).0 + Run(b).0, Run(b).1) else Run(a)
  {
    if a == [] {
      assert a + b == b;
      assert Run(a).0 + Run(b).0 == Run(b).0;
    } else {
      assert (a + b)[0] == a[0] && (a + b)[1..] == a[1..] + b;
      RunConcat(a[1..], b);
      if a[0].Some? {
        var ra, rb := Run(a[1..]), Run(b);
        if ra.1 {
          assert a[0].value + (ra.0 + rb.0) == (a[0].value + ra.0) + rb.0;
        }
      }
    }
  }

  lemma AllCommittableConcat(fs: seq<Fiber>, a: seq<nat>, b: seq<nat>)
    requires Linked(fs) && AllCommittable(fs, a) && AllCommittable(fs, b)
    ensures AllCommittable(fs, a + b)
    ensures Effects(fs, a + b) == Effects(fs, a) + Effects(fs, b)
  {
    forall k | 0 <= k < |a + b| ensures (a + b)[k] < |fs| && Committable(fs, (a + b)[k]) {
      if k < |a| { assert (a + b)[k] == a[k]; } else { assert (a + b)[k] == b[k - |a|]; }
    }
  }

  lemma AllCommittableTail(fs: seq<Fiber>, xs: seq<nat>)
    requires Linked(fs) && AllCommittable(fs, xs) && xs != []
    ensures AllCommittable(fs, xs[1..])
    ensures Effects(fs, xs) == [FiberOps(fs, xs[0])] + Effects(fs, xs[1..])
  {
    forall k | 0 <= k < |xs[1..]| ensures xs[1..][k] < |fs| && Committable(fs, xs[1..][k]) {
      assert xs[1..][k] == xs[k + 1];
    }
  }

  /** A run over fibers none of which is tagged `PLACEMENT` or `DELETION`
      completes, and it neither inserts nor removes a host node: all it does
      is diff the props of updated nodes. */
  lemma {:induction false} RunOpsOnlyUpdates(fs: seq<Fiber>, xs: seq<nat>)
    requires Linked(fs)
    requires AllCommittable(fs, xs)
    requires forall k :: 0 <= k < |xs| ==> fs[xs[k]].effectTag != Some(Placement) && fs[xs[k]].effectTag != Some(Deletion)
    ensures RunOps(fs, xs).1
    ensures forall op :: op in RunOps(fs, xs).0 ==> op.SetProp? || op.AddListener? || op.RemoveListener?
  {
    if xs != [] {
      var i := xs[0];
      var effs := Effects(fs, xs);
      AllCommittableTail(fs, xs);
      assert effs[1..] == Effects(fs, xs[1..]);
      RunOpsOnlyUpdates(fs, xs[1..]);
      if fs[i].effectTag == Some(Update) && fs[i].dom.Some? {
        var n := fs[i].dom.value;
        assert LinksOk(fs, i);
        UpdateDomSkipsChildren(n, fs[fs[i].alternate.value].props, fs[i].props);
      }
      assert effs[0].Some?;
    }
  }

  /** `commitWork` of a deleted fiber `d` (as `deletions.forEach` calls it)
      does not stop at `d`'s subtree: once that completes, the next host
      calls are the effect of `d`'s next sibling `s`, whatever its tag, and
      then the rest of `s`'s forest. */
  lemma DeletedFiberVisitsSiblings(fs: seq<Fiber>, d: nat, s: nat)
    requires Linked(fs) && d < |fs| && fs[d].sibling == Some(s)
    requires AllCommittable(fs, Forest(fs, Some(d)))
    ensures DeletionVisits(fs, [d]) == Forest(fs, Some(d))
    ensures s < |fs| && Committable(fs, s)
    ensures AllCommittable(fs, Subtree(fs, d)) && AllCommittable(fs, Forest(fs, Some(s))[1..])
    ensures !RunOps(fs, Subtree(fs, d)).1 ==> RunOps(fs, Forest(fs, Some(d))) == RunOps(fs, Subtree(fs, d))
    ensures RunOps(fs, Subtree(fs, d)).1 && FiberOps(fs, s).Some? ==>
      RunOps(fs, Forest(fs, Some(d))) ==
      (RunOps(fs, Subtree(fs, d)).0 + FiberOps(fs, s).value + RunOps(fs, Forest(fs, Some(s))[1..]).0,
       RunOps(fs, Forest(fs, Some(s))[1..]).1)
  {
    assert [d][..0] == [];
    assert LinksOk(fs, d);
    var sub, sibs := Subtree(fs, d), Forest(fs, Some(s));
    assert Forest(fs, Some(d)) == sub + sibs;
    AllCommittableParts(fs, sub, sibs);
    RunConcat(Effects(fs, sub), Effects(fs, sibs));
    assert RunOps(fs, Forest(fs, Some(d))) ==
      if RunOps(fs, sub).1 then (RunOps(fs, sub).0 + RunOps(fs, sibs).0, RunOps(fs, sibs).1) else RunOps(fs, sub);
    RunFirst(fs, sibs);
    if RunOps(fs, sub).1 && FiberOps(fs, s).Some? {
      Associative(RunOps(fs, sub).0, FiberOps(fs, s).value, RunOps(fs, sibs[1..]).0);
    }
  }

  /** A run over `xs` performs the effect of `xs[0]` first, then the rest. */
  lemma RunFirst(fs: seq<Fiber>, xs: seq<nat>)
    requires Linked(fs) && AllCommittable(fs, xs) && xs != []
    ensures xs[0] < |fs| && Committable(fs, xs[0]) && AllCommittable(fs, xs[1..])
    ensures RunOps(fs, xs) ==
      if FiberOps(fs, xs[0]).None? then ([], false)
      else (FiberOps(fs, xs[0]).value + RunOps(fs, xs[1..]).0, RunOps(fs, xs[1..]).1)
  {
    AllCommittableTail(fs, xs);
    assert Effects(fs, xs)[1..] == Effects(fs, xs[1..]);
  }

  lemma AllCommittableParts(fs: seq<Fiber>, a: seq<nat>, b: seq<nat>)
    requires Linked(fs) && AllCommittable(fs, a + b)
    ensures AllCommittable(fs, a) && AllCommittable(fs, b)
    ensures Effects(fs, a + b) == Effects(fs, a) + Effects(fs, b)
  {
    forall k | 0 <= k < |a| ensures a[k] < |fs| && Committable(fs, a[k]) {
      assert (a + b)[k] == a[k];
    }
    forall k | 0 <= k < |b| ensures b[k] < |fs| && Committable(fs, b[k]) {
      assert (a + b)[|a| + k] == b[k];
    }
    AllCommittableConcat(fs, a, b);
  }

  /** A run over one effect, then `c`, then `s`: a throw in one part skips
      the parts after it. */
  lemma RunThree(e: Option<seq<HostOp>>, c: seq<Option<seq<HostOp>>>, s: seq<Option<seq<HostOp>>>)
    ensures Run([e] + c + s) ==
      if e.None? then ([], false)
      else if !Run(c).1 then (e.value + Run(c).0, false)
      else (e.value + Run(c).0 + Run(s).0, Run(s).1)
  {
    RunConcat([e] + c, s);
    RunConcat([e], c);
    if e.Some? {
      assert Run([e]) == (e.value + [], true);
      assert e.value + [] == e.value;
    }
  }

  /** `commitWork(i)` in three parts: the effect of fiber `i` itself, then
      `commitWork` of its child, then of its sibling. */
  lemma ForestRun(fs: seq<Fiber>, i: nat)
    requires Linked(fs) && i < |fs| && AllCommittable(fs, Forest(fs, Some(i)))
    ensures LinksOk(fs, i) && Committable(fs, i)
    ensures AllCommittable(fs, Forest(fs, fs[i].child)) && AllCommittable(fs, Forest(fs, fs[i].sibling))
    ensures RunOps(fs, Forest(fs, Some(i))) ==
      Run([FiberOps(fs, i)] + Effects(fs, Forest(fs, fs[i].child)) + Effects(fs, Forest(fs, fs[i].sibling)))
  {
    assert LinksOk(fs, i);
    var cs, ss := Forest(fs, fs[i].child), Forest(fs, fs[i].sibling);
    assert Forest(fs, Some(i)) == [i] + cs + ss;
    EffectsCons(fs, i, cs, ss);
  }

  /** The effects of one fiber followed by two runs of fibers. */
  lemma EffectsCons(fs: seq<Fiber>, i: nat, cs: seq<nat>, ss: seq<nat>)
    requires Linked(fs) && AllCommittable(fs, [i] + cs + ss)
    ensures i < |fs| && Committable(fs, i) && AllCommittable(fs, cs) && AllCommittable(fs, ss)
    ensures Effects(fs, [i] + cs + ss) == [FiberOps(fs, i)] + Effects(fs, cs) + Effects(fs, ss)
  {
    AllCommittableParts(fs, [i] + cs, ss);
    AllCommittableParts(fs, [i], cs);
    assert ([i] + cs + ss)[0] == i;
    assert Effects(fs, [i]) == [FiberOps(fs, i)];
  }

  // ---------------------------------------------------------------------
  // What `commitRoot` visits

  /** Every `UPDATE` fiber has an alternate. */
  ghost predicate UpdatesHaveAlternates(fs: seq<Fiber>)
  {
    forall i :: 0 <= i < |fs| && fs[i].effectTag == Some(Update) ==> fs[i].alternate.Some?
  }

  /** `deletions.forEach(commitWork)`: each deleted fiber's forest, in order. */
  function DeletionVisits(fs: seq<Fiber>, dels: seq<nat>): (xs: seq<nat>)
    requires Linked(fs) && forall k :: 0 <= k < |dels| ==> dels[k] < |fs|
    ensures forall k :: 0 <= k < |xs| ==> xs[k] < |fs|
  {
    if dels == [] then []
    else DeletionVisits(fs, dels[..|dels| - 1]) + Forest(fs, Some(dels[|dels| - 1]))
  }

  lemma DeletionVisitsStep(fs: seq<Fiber>, dels: seq<nat>, k: nat)
    requires Linked(fs) && k < |dels| && forall j :: 0 <= j < |dels| ==> dels[j] < |fs|
    ensures DeletionVisits(fs, dels[..k + 1]) == DeletionVisits(fs, dels[..k]) + Forest(fs, Some(dels[k]))
  {
    assert dels[..k + 1][..k] == dels[..k];
  }

  /** The fibers `commitRoot` hands to `commitWork`, in order. */
  function CommitOrder(fs: seq<Fiber>, dels: seq<nat>, root: nat): (xs: seq<nat>)
    requires Linked(fs) && root < |fs| && forall k :: 0 <= k < |dels| ==> dels[k] < |fs|
    ensures forall k :: 0 <= k < |xs| ==> xs[k] < |fs|
  {
    assert LinksOk(fs, root);
    DeletionVisits(fs, dels) + Forest(fs, fs[root].child)
  }

  /** Below a fiber with a parent, every fiber has a parent. */
  lemma {:induction false} SubtreeHasParents(fs: seq<Fiber>, i: nat)
    requires Linked(fs) && ParentsAgree(fs) && i < |fs| && fs[i].parent.Some?
    ensures forall k :: 0 <= k < |Subtree(fs, i)| ==> fs[Subtree(fs, i)[k]].parent.Some?
    decreases |fs| - i, 1
  {
    assert LinksOk(fs, i) && AgreesAt(fs, i);
    ForestHasParents(fs, fs[i].child);
  }

  lemma {:induction false} ForestHasParents(fs: seq<Fiber>, c: Option<nat>)
    requires Linked(fs) && ParentsAgree(fs)
    requires c.Some? ==> c.value < |fs| && fs[c.value].parent.Some?
    ensures forall k :: 0 <= k < |Forest(fs, c)| ==> fs[Forest(fs, c)[k]].parent.Some?
    decreases if c.Some? then |fs| - c.value else 0, 2
  {
    if c.Some? {
      var x := c.value;
      assert LinksOk(fs, x) && AgreesAt(fs, x);
      SubtreeHasParents(fs, x);
      ForestHasParents(fs, fs[x].sibling);
    }
  }

  /** Fibers with a parent can all be committed, given that roots own nodes
      and updates have alternates. */
  lemma ParentedCommittable(fs: seq<Fiber>, xs: seq<nat>)
    requires Linked(fs) && RootsOwnNodes(fs) && UpdatesHaveAlternates(fs)
    requires forall k :: 0 <= k < |xs| ==> xs[k] < |fs| && fs[xs[k]].parent.Some?
    ensures AllCommittable(fs, xs)
  {
    forall k | 0 <= k < |xs| ensures Committable(fs, xs[k]) {
      DomParentExists(fs, xs[k]);
    }
  }

  lemma {:induction false} DeletionVisitsHaveParents(fs: seq<Fiber>, dels: seq<nat>)
    requires Linked(fs) && ParentsAgree(fs)
    requires forall k :: 0 <= k < |dels| ==> dels[k] < |fs| && fs[dels[k]].parent.Some?
    ensures forall k :: 0 <= k < |DeletionVisits(fs, dels)| ==> fs[DeletionVisits(fs, dels)[k]].parent.Some?
  {
    if dels != [] {
      var init := dels[..|dels| - 1];
      DeletionVisitsHaveParents(fs, init);
      ForestHasParents(fs, Some(dels[|dels| - 1]));
      var a, b := DeletionVisits(fs, init), Forest(fs, Some(dels[|dels| - 1]));
      forall k | 0 <= k < |a + b| ensures fs[(a + b)[k]].parent.Some? {
        if k < |a| { assert (a + b)[k] == a[k]; } else { assert (a + b)[k] == b[k - |a|]; }
      }
    }
  }

  /** Everything `commitRoot` visits can be committed: the deleted fibers and
      the work root's child all have parents, and so does everything below
      them. */
  lemma CommitOrderCommittable(fs: seq<Fiber>, dels: seq<nat>, root: nat)
    requires Linked(fs) && ParentsAgree(fs) && RootsOwnNodes(fs) && UpdatesHaveAlternates(fs) && root < |fs|
    requires forall k :: 0 <= k < |dels| ==> dels[k] < |fs| && fs[dels[k]].parent.Some?
    ensures AllCommittable(fs, DeletionVisits(fs, dels))
    ensures AllCommittable(fs, CommitOrder(fs, dels, root))
  {
    assert LinksOk(fs, root) && AgreesAt(fs, root);
    var a, b := DeletionVisits(fs, dels), Forest(fs, fs[root].child);
    DeletionVisitsHaveParents(fs, dels);
    ForestHasParents(fs, fs[root].child);
    forall k | 0 <= k < |a + b| ensures fs[(a + b)[k]].parent.Some? {
      if k < |a| { assert (a + b)[k] == a[k]; } else { assert (a + b)[k] == b[k - |a|]; }
    }
    ParentedCommittable(fs, a);
    ParentedCommittable(fs, a + b);
  }

  /** Committing runs the deletions' effects first and the work tree's only
      when none of them threw; a throw in the work tree ends the run there. */
  lemma CommitOrderRun(fs: seq<Fiber>, dels: seq<nat>, root: nat)
    requires Linked(fs) && ParentsAgree(fs) && RootsOwnNodes(fs) && UpdatesHaveAlternates(fs) && root < |fs|
    requires forall k :: 0 <= k < |dels| ==> dels[k] < |fs| && fs[dels[k]].parent.Some?
    ensures fs[root].child.Some? ==> fs[root].child.value < |fs|
    ensures AllCommittable(fs, DeletionVisits(fs, dels)) && AllCommittable(fs, Forest(fs, fs[root].child))
    ensures AllCommittable(fs, CommitOrder(fs, dels, root))
    ensures RunOps(fs, CommitOrder(fs, dels, root)) ==
      if RunOps(fs, DeletionVisits(fs, dels)).1
      then (RunOps(fs, DeletionVisits(fs, dels)).0 + RunOps(fs, Forest(fs, fs[root].child)).0,
            RunOps(fs, Forest(fs, fs[root].child)).1)
      else RunOps(fs, DeletionVisits(fs, dels))
  {
    CommitOrderCommittable(fs, dels, root);
    assert LinksOk(fs, root);
    var a, b := DeletionVisits(fs, dels), Forest(fs, fs[root].child);
    assert CommitOrder(fs, dels, root) == a + b;
    AllCommittableParts(fs, a, b);
    RunConcat(Effects(fs, a), Effects(fs, b));
  }

  // ---------------------------------------------------------------------
  // How the link invariants survive the renderer's updates

  /** Appending a leaf whose parent and alternate are already in the arena. */
  lemma AppendKeepsLinks(fs: seq<Fiber>, f: Fiber)
    requires Linked(fs) && ParentsAgree(fs)
    requires f.parent.Some? ==> f.parent.value < |fs|
    requires f.alternate.Some? ==> f.alternate.value < |fs|
    requires f.child.None? && f.sibling.None?
    ensures Linked(fs + [f]) && ParentsAgree(fs + [f])
  {
    var gs := fs + [f];
    forall i | 0 <= i < |gs| ensures LinksOk(gs, i) {
      if i < |fs| { assert LinksOk(fs, i); }
    }
    forall i | 0 <= i < |gs| ensures AgreesAt(gs, i) {
      if i < |fs| { assert LinksOk(fs, i) && AgreesAt(fs, i); }
    }
  }

  /** Replacing a fiber by one with the same links. */
  lemma SameLinksKeepLinks(fs: seq<Fiber>, i: nat, f: Fiber)
    requires Linked(fs) && ParentsAgree(fs) && i < |fs|
    requires f.parent == fs[i].parent && f.child == fs[i].child
    requires f.sibling == fs[i].sibling && f.alternate == fs[i].alternate
    ensures Linked(fs[i := f]) && ParentsAgree(fs[i := f])
  {
    var gs := fs[i := f];
    forall j | 0 <= j < |gs| ensures LinksOk(gs, j) && AgreesAt(gs, j) {
      assert LinksOk(fs, j) && AgreesAt(fs, j);
    }
  }

  /** A deleted fiber that owns a node removes exactly that node from its
      DOM parent. */
  lemma DeletedOwnerRemoved(fs: seq<Fiber>, i: nat, p: NodeId)
    requires Linked(fs) && i < |fs| && fs[i].effectTag == Some(Deletion) && fs[i].dom.Some?
    requires DomParent(fs, i) == Some(p)
    ensures Committable(fs, i) && FiberOps(fs, i) == Some([RemoveChild(p, fs[i].dom.value)])
  {
    assert ChildPath(fs, i)[0] == i;
  }

  /** Two adjacent deleted siblings without children, both owning a node:
      `deletions.forEach(commitWork)` visits the second twice, once through
      the first one's `sibling` link and once on its own, so it asks the
      host to remove the second node twice. */
  lemma DeletedSiblingRemovedTwice(fs: seq<Fiber>, d: nat, s: nat, p: NodeId)
    requires Linked(fs) && d < |fs| && s < |fs| && fs[d].sibling == Some(s)
    requires fs[d].effectTag == Some(Deletion) && fs[s].effectTag == Some(Deletion)
    requires fs[d].child.None? && fs[s].child.None? && fs[s].sibling.None?
    requires fs[d].dom.Some? && fs[s].dom.Some?
    requires DomParent(fs, d) == Some(p) && DomParent(fs, s) == Some(p)
    ensures DeletionVisits(fs, [d, s]) == [d, s, s]
    ensures AllCommittable(fs, [d, s, s])
    ensures RunOps(fs, [d, s, s]) ==
      ([RemoveChild(p, fs[d].dom.value), RemoveChild(p, fs[s].dom.value), RemoveChild(p, fs[s].dom.value)], true)
  {
    SiblingsVisitedTwice(fs, d, s);
    DeletedOwnerRemoved(fs, d, p);
    DeletedOwnerRemoved(fs, s, p);
    RunRemovals(fs, d, s, RemoveChild(p, fs[d].dom.value), RemoveChild(p, fs[s].dom.value));
  }

  /** `deletions.forEach(commitWork)` over two adjacent siblings without
      children visits the second one twice. */
  lemma SiblingsVisitedTwice(fs: seq<Fiber>, d: nat, s: nat)
    requires Linked(fs) && d < |fs| && s < |fs| && fs[d].sibling == Some(s)
    requires fs[d].child.None? && fs[s].child.None? && fs[s].sibling.None?
    ensures DeletionVisits(fs, [d, s]) == [d, s, s]
  {
    TwoDeletionVisits(fs, d, s);
    OneDeletionVisit(fs, d);
    LeafForest(fs, s, None);
    LeafForest(fs, d, Some(s));
    assert Forest(fs, None) == [];
    assert [d] + ([s] + []) + ([s] + []) == [d, s, s];
  }

  /** A fiber without children: its forest is itself, then its siblings'. */
  lemma LeafForest(fs: seq<Fiber>, x: nat, sib: Option<nat>)
    requires Linked(fs) && x < |fs| && fs[x].child.None? && fs[x].sibling == sib
    ensures sib.Some? ==> sib.value < |fs|
    ensures Forest(fs, Some(x)) == [x] + Forest(fs, sib)
  {
    assert LinksOk(fs, x);
    assert Subtree(fs, x) == [x] + Forest(fs, None) == [x];
  }

  /** `forEach(commitWork)` over two deleted fibers: the first one's visits,
      then the second one's forest. */
  lemma TwoDeletionVisits(fs: seq<Fiber>, d: nat, s: nat)
    requires Linked(fs) && d < |fs| && s < |fs|
    ensures DeletionVisits(fs, [d, s]) == DeletionVisits(fs, [d]) + Forest(fs, Some(s))
  {
  }

  /** `forEach(commitWork)` over one deleted fiber visits its forest. */
  lemma OneDeletionVisit(fs: seq<Fiber>, d: nat)
    requires Linked(fs) && d < |fs|
    ensures DeletionVisits(fs, [d]) == Forest(fs, Some(d))
  {
    assert [d][..0] == [];
  }

  /** A fiber that performs one call, followed by `rest`. */
  lemma RunOneCall(fs: seq<Fiber>, xs: seq<nat>, op: HostOp)
    requires Linked(fs) && xs != [] && xs[0] < |fs| && Committable(fs, xs[0]) && AllCommittable(fs, xs[1..])
    requires FiberOps(fs, xs[0]) == Some([op])
    ensures AllCommittable(fs, xs)
    ensures RunOps(fs, xs) == ([op] + RunOps(fs, xs[1..]).0, RunOps(fs, xs[1..]).1)
  {
    forall k | 0 <= k < |xs| ensures xs[k] < |fs| && Committable(fs, xs[k]) {
      if k > 0 { assert xs[k] == xs[1..][k - 1]; }
    }
    RunFirst(fs, xs);
  }

  /** The run over `[d, s, s]` when `d` and `s` each perform one call. */
  lemma RunRemovals(fs: seq<Fiber>, d: nat, s: nat, rd: HostOp, rs: HostOp)
    requires Linked(fs) && d < |fs| && s < |fs| && Committable(fs, d) && Committable(fs, s)
    requires FiberOps(fs, d) == Some([rd]) && FiberOps(fs, s) == Some([rs])
    ensures AllCommittable(fs, [d, s, s]) && RunOps(fs, [d, s, s]) == ([rd, rs, rs], true)
  {
    var xs: seq<nat> := [d, s, s];
    assert xs[1..] == [s, s] && xs[1..][1..] == [s] && xs[1..][1..][1..] == [];
    assert AllCommittable(fs, []) && RunOps(fs, []) == ([], true);
    RunOneCall(fs, xs[1..][1..], rs);
    RunOneCall(fs, xs[1..], rs);
    RunOneCall(fs, xs, rd);
    assert [rs] + [] == [rs] && [rs] + [rs] == [rs, rs] && [rd] + [rs, rs] == [rd, rs, rs];
  }
}
