/** The renderer's module-level state and the functions that update it:
    `render`, the setter `useState` returns, the work loop and its units of
    work, `reconcileChildren`, and the commit phase. Every fiber lives in the
    arena `fibers`; host-node calls are appended to `log`. */
module Engine {
  import opened Elements
  import opened Dom
  import opened Fibers
  import opened Reconcile

  /** A function component, as the renderer sees it when it calls it: the
      initial values it passes to `useState`, one call per value and in that
      order, and the element it returns given its props and the states those
      calls returned. */
  datatype Body = Body(
    initials: seq<(string, Prop)> -> seq<Value>,
    view: (seq<(string, Prop)>, seq<Value>) -> Node)

  /** The `setState` closure `useState` returns: it closes over one hook
      cell, the `hook`-th of fiber `fiber`. */
  datatype Setter = Setter(fiber: nat, hook: nat)

  /** Every component returns a well-formed node. */
  ghost predicate ViewsWellFormed(bodies: nat -> Body)
  {
    forall id: nat, props: seq<(string, Prop)>, states: seq<Value> :: WellFormedNode(bodies(id).view(props, states))
  }

  /** What every fiber the renderer builds satisfies: exactly the roots lack
      a type, and the props are well formed. */
  ghost predicate FiberOk(fs: seq<Fiber>, i: nat)
    requires i < |fs|
  {
    (fs[i].kind.None? <==> fs[i].parent.None?) && WellFormedProps(fs[i].props)
  }

  /** The invariants of the arena itself. */
  ghost predicate ArenaOk(fs: seq<Fiber>)
  {
    Linked(fs) && ParentsAgree(fs) && RootsOwnNodes(fs) && UpdatesHaveAlternates(fs)
    && forall i :: 0 <= i < |fs| ==> FiberOk(fs, i)
  }

  /** Appending a fiber: a leaf under an existing parent, or a new root that
      owns a node. */
  lemma AppendOk(fs: seq<Fiber>, f: Fiber)
    requires ArenaOk(fs)
    requires f.parent.Some? ==> f.parent.value < |fs|
    requires f.alternate.Some? ==> f.alternate.value < |fs|
    requires f.child.None? && f.sibling.None?
    requires f.parent.None? ==> f.dom.Some?
    requires f.effectTag == Some(Update) ==> f.alternate.Some?
    requires (f.kind.None? <==> f.parent.None?) && WellFormedProps(f.props)
    ensures ArenaOk(fs + [f])
  {
    AppendKeepsLinks(fs, f);
    var gs := fs + [f];
    forall i | 0 <= i < |gs| ensures FiberOk(gs, i) {
      if i < |fs| { assert FiberOk(fs, i) && gs[i] == fs[i]; }
    }
  }

  /** Replacing a fiber by one that differs at most in its effect tag and
      its hooks. */
  lemma RetagOk(fs: seq<Fiber>, i: nat, f: Fiber)
    requires ArenaOk(fs) && i < |fs|
    requires f.(effectTag := fs[i].effectTag, hooks := fs[i].hooks) == fs[i]
    requires f.effectTag == Some(Update) ==> f.alternate.Some?
    ensures ArenaOk(fs[i := f])
  {
    SameLinksKeepLinks(fs, i, f);
    var gs := fs[i := f];
    forall j | 0 <= j < |gs| ensures FiberOk(gs, j) {
      assert FiberOk(fs, j);
    }
  }

  /** Giving a fiber its host node. */
  lemma SetDomOk(fs: seq<Fiber>, i: nat, n: NodeId)
    requires ArenaOk(fs) && i < |fs|
    ensures ArenaOk(fs[i := fs[i].(dom := Some(n))])
  {
    SameLinksKeepLinks(fs, i, fs[i].(dom := Some(n)));
    var gs := fs[i := fs[i].(dom := Some(n))];
    forall j | 0 <= j < |gs| ensures FiberOk(gs, j) {
      assert FiberOk(fs, j);
    }
  }

  /** Reconciling keeps the arena's invariants, and every fiber it puts on
      the deletion list is in the arena and has a parent. */
  lemma ReconcileKeepsArena(fs0: seq<Fiber>, d0: seq<nat>, fs1: seq<Fiber>, d1: seq<nat>, w: nat, els: seq<Node>)
    requires ArenaOk(fs0) && Reconciled(fs0, d0, fs1, d1, w, els)
    requires forall j :: 0 <= j < |els| ==> WellFormedNode(els[j])
    requires forall k :: 0 <= k < |d0| ==> d0[k] < |fs0| && fs0[d0[k]].parent.Some?
    ensures ArenaOk(fs1)
    ensures forall k :: 0 <= k < |fs0| ==> fs1[k].parent == fs0[k].parent
    ensures forall k :: 0 <= k < |d1| ==> d1[k] < |fs1| && fs1[d1[k]].parent.Some?
  {
    var base := |fs0|;
    var olds := OldChildren(fs0, w);
    ReconciledAgree(fs0, d0, fs1, d1, w, els);
    forall i | 0 <= i < |fs1|
      ensures FiberOk(fs1, i)
      ensures fs1[i].parent.None? ==> fs1[i].dom.Some?
      ensures fs1[i].effectTag == Some(Update) ==> fs1[i].alternate.Some?
      ensures i < base ==> fs1[i].parent == fs0[i].parent
    {
      if i < base {
        ReconciledOld(fs0, d0, fs1, d1, w, els, i);
        assert FiberOk(fs0, i);
      } else {
        ReconciledNew(fs0, d0, fs1, d1, w, els, i - base);
        assert WellFormedNode(els[i - base]);
      }
    }
    var dels := Deleted(fs0, olds, els, Max(|els|, |olds|));
    DeletedExactly(fs0, olds, els, Max(|els|, |olds|));
    OldChildrenHaveParent(fs0, w);
    forall k | 0 <= k < |d1| ensures d1[k] < |fs1| && fs1[d1[k]].parent.Some? {
      if k >= |d0| {
        assert d1[k] in dels;
      }
    }
  }

  /** The renderer's invariant on the values of its fields: the arena
      invariants, components that return well-formed nodes, both roots and
      both cursors in the arena, and only fibers with a parent on the
      deletion list. */
  ghost predicate EngineOk(bodies: nat -> Body, fs: seq<Fiber>, dels: seq<nat>, currentRoot: Option<nat>,
                           wipRoot: Option<nat>, nextUnitOfWork: Option<nat>, wipFiber: Option<nat>)
  {
    ArenaOk(fs)
    && ViewsWellFormed(bodies)
    && IsRoot(fs, currentRoot) && IsRoot(fs, wipRoot)
    && InArena(fs, nextUnitOfWork) && InArena(fs, wipFiber)
    && (forall k :: 0 <= k < |dels| ==> dels[k] < |fs| && fs[dels[k]].parent.Some?)
  }

  /** Giving a fiber its host node keeps the renderer's invariant. */
  lemma SetDomKeepsEngine(bodies: nat -> Body, fs: seq<Fiber>, dels: seq<nat>, i: nat, n: NodeId,
                          currentRoot: Option<nat>, wipRoot: Option<nat>, nextUnitOfWork: Option<nat>, wipFiber: Option<nat>)
    requires EngineOk(bodies, fs, dels, currentRoot, wipRoot, nextUnitOfWork, wipFiber) && i < |fs|
    ensures EngineOk(bodies, fs[i := fs[i].(dom := Some(n))], dels, currentRoot, wipRoot, nextUnitOfWork, wipFiber)
  {
    SetDomOk(fs, i, n);
  }

  /** Reconciling keeps the renderer's invariant. */
  lemma ReconcileKeepsEngine(bodies: nat -> Body, fs0: seq<Fiber>, d0: seq<nat>, fs1: seq<Fiber>, d1: seq<nat>, w: nat, els: seq<Node>,
                             currentRoot: Option<nat>, wipRoot: Option<nat>, nextUnitOfWork: Option<nat>, wipFiber: Option<nat>)
    requires EngineOk(bodies, fs0, d0, currentRoot, wipRoot, nextUnitOfWork, wipFiber)
    requires Reconciled(fs0, d0, fs1, d1, w, els)
    requires forall j :: 0 <= j < |els| ==> WellFormedNode(els[j])
    ensures EngineOk(bodies, fs1, d1, currentRoot, wipRoot, nextUnitOfWork, wipFiber)
  {
    ReconcileKeepsArena(fs0, d0, fs1, d1, w, els);
  }

  predicate InArena(fs: seq<Fiber>, p: Option<nat>)
  {
    p.Some? ==> p.value < |fs|
  }

  predicate IsRoot(fs: seq<Fiber>, p: Option<nat>)
  {
    p.Some? ==> p.value < |fs| && fs[p.value].parent.None?
  }

  /** The part of the renderer's state that a unit of work changes. */
  datatype Snapshot = Snapshot(fibers: seq<Fiber>, deletions: seq<nat>, log: seq<HostOp>, nodeCount: nat)

  /** `performUnitOfWork(f)` took the renderer from `s0` to `s1`: a
      component fiber as `updateFunctionComponent` does it, with no host
      call and no new node, and any other fiber as `updateHostComponent`
      does it. */
  ghost predicate UnitWorked(bodies: nat -> Body, s0: Snapshot, s1: Snapshot, f: nat)
  {
    Linked(s0.fibers) && f < |s0.fibers| && Linked(s1.fibers) && f < |s1.fibers|
    && (if s0.fibers[f].kind.Some? && s0.fibers[f].kind.value.Component? then
          ComponentWorked(bodies, s0.fibers, s0.deletions, s1.fibers, s1.deletions, f)
          && s1.log == s0.log && s1.nodeCount == s0.nodeCount
        else
          HostWorked(s0.fibers, s0.deletions, s0.log, s0.nodeCount, s1.fibers, s1.deletions, s1.log, s1.nodeCount, f))
  }

  /** The units of work performed from `start`, in order: `visited[k]` is
      the k-th fiber worked on, and that unit took the renderer from
      `states[k]` to `states[k + 1]`; each unit is the successor of the one
      before it in the arena that unit left behind, and `next` is the
      successor of the last one. */
  ghost predicate Walked(bodies: nat -> Body, start: nat, visited: seq<nat>, states: seq<Snapshot>, next: Option<nat>)
  {
    |states| == |visited| + 1 && 0 < |visited| && visited[0] == start
    && (forall k :: 0 <= k < |visited| ==> UnitWorked(bodies, states[k], states[k + 1], visited[k]))
    && (forall k :: 0 < k < |visited| ==>
          Linked(states[k].fibers) && visited[k - 1] < |states[k].fibers|
          && Successor(states[k].fibers, visited[k - 1]) == Some(visited[k]))
    && Linked(states[|visited|].fibers) && visited[|visited| - 1] < |states[|visited|].fibers|
    && next == Successor(states[|visited|].fibers, visited[|visited| - 1])
  }

  /** Performing one more unit extends the walk: the unit worked on is the
      start, or the successor that the walk so far pointed to. */
  lemma WalkedStep(bodies: nat -> Body, start: nat, visited: seq<nat>, states: seq<Snapshot>, f: nat, s: Snapshot, next: Option<nat>)
    requires |states| == |visited| + 1
    requires visited == [] ==> f == start
    requires visited != [] ==> Walked(bodies, start, visited, states, Some(f))
    requires UnitWorked(bodies, states[|visited|], s, f) && next == Successor(s.fibers, f)
    ensures Walked(bodies, start, visited + [f], states + [s], next)
  {
    var v, st := visited + [f], states + [s];
    forall k | 0 <= k < |v| ensures UnitWorked(bodies, st[k], st[k + 1], v[k]) {
      if k < |visited| {
        assert st[k] == states[k] && st[k + 1] == states[k + 1] && v[k] == visited[k];
      } else {
        assert st[k] == states[|visited|] && st[k + 1] == s && v[k] == f;
      }
    }
    forall k | 0 < k < |v|
      ensures Linked(st[k].fibers) && v[k - 1] < |st[k].fibers| && Successor(st[k].fibers, v[k - 1]) == Some(v[k])
    {
      assert st[k] == states[k] && v[k - 1] == visited[k - 1];
      if k < |visited| { assert v[k] == visited[k]; }
    }
    assert st[|v|] == s;
  }

  /** A unit of work has one outcome: from a given state, performing fiber
      `f` leads to exactly one state. */
  lemma UnitWorkedUnique(bodies: nat -> Body, s0: Snapshot, s1: Snapshot, s2: Snapshot, f: nat)
    requires UnitWorked(bodies, s0, s1, f) && UnitWorked(bodies, s0, s2, f)
    ensures s1 == s2
  {
    var f0 := s0.fibers[f];
    if f0.kind.Some? && f0.kind.value.Component? {
      var body := bodies(f0.kind.value.id);
      var hooks := FreshHooks(s0.fibers, f, body.initials(f0.props));
      ReconciledUnique(s0.fibers[f := f0.(hooks := hooks)], s0.deletions, s1.fibers, s1.deletions,
                       s2.fibers, s2.deletions, f, [body.view(f0.props, States(hooks))]);
    } else if f0.dom.Some? {
      ReconciledUnique(s0.fibers, s0.deletions, s1.fibers, s1.deletions,
                       s2.fibers, s2.deletions, f, ChildrenOf(f0.props).value);
    } else {
      ReconciledUnique(s0.fibers[f := f0.(dom := Some(s0.nodeCount))], s0.deletions, s1.fibers, s1.deletions,
                       s2.fibers, s2.deletions, f, ChildrenOf(f0.props).value);
    }
  }

  /** Two walks from the same start and the same state agree unit by unit
      for as long as both run. */
  lemma {:induction false} WalkedAgree(bodies: nat -> Body, start: nat, v1: seq<nat>, st1: seq<Snapshot>, n1: Option<nat>,
                                       v2: seq<nat>, st2: seq<Snapshot>, n2: Option<nat>, k: nat)
    requires Walked(bodies, start, v1, st1, n1) && Walked(bodies, start, v2, st2, n2)
    requires st1[0] == st2[0] && k < |v1| && k < |v2|
    ensures v1[k] == v2[k] && st1[k + 1] == st2[k + 1]
    decreases k
  {
    if k == 0 {
      UnitWorkedUnique(bodies, st1[0], st1[1], st2[1], start);
    } else {
      WalkedAgree(bodies, start, v1, st1, n1, v2, st2, n2, k - 1);
      assert Successor(st1[k].fibers, v1[k - 1]) == Some(v1[k]);
      assert Successor(st2[k].fibers, v2[k - 1]) == Some(v2[k]);
      UnitWorkedUnique(bodies, st1[k], st1[k + 1], st2[k + 1], v1[k]);
    }
  }

  /** The work loop is deterministic: two walks of the same length from the
      same start and state visit the same units, pass through the same
      states and leave the same next unit. */
  lemma WalkedUnique(bodies: nat -> Body, start: nat, v1: seq<nat>, st1: seq<Snapshot>, n1: Option<nat>,
                     v2: seq<nat>, st2: seq<Snapshot>, n2: Option<nat>)
    requires Walked(bodies, start, v1, st1, n1) && Walked(bodies, start, v2, st2, n2)
    requires st1[0] == st2[0] && |v1| == |v2|
    ensures v1 == v2 && st1 == st2 && n1 == n2
  {
    WalkedSameUnits(bodies, start, v1, st1, n1, v2, st2, n2);
    WalkedSameStates(bodies, start, v1, st1, n1, v2, st2, n2);
  }

  /** Two equally long walks from the same state visit the same units. */
  lemma WalkedSameUnits(bodies: nat -> Body, start: nat, v1: seq<nat>, st1: seq<Snapshot>, n1: Option<nat>,
                        v2: seq<nat>, st2: seq<Snapshot>, n2: Option<nat>)
    requires Walked(bodies, start, v1, st1, n1) && Walked(bodies, start, v2, st2, n2)
    requires st1[0] == st2[0] && |v1| == |v2|
    ensures v1 == v2
  {
    forall k | 0 <= k < |v1| ensures v1[k] == v2[k] {
      WalkedAgree(bodies, start, v1, st1, n1, v2, st2, n2, k);
    }
  }

  /** Two equally long walks from the same state pass through the same states. */
  lemma WalkedSameStates(bodies: nat -> Body, start: nat, v1: seq<nat>, st1: seq<Snapshot>, n1: Option<nat>,
                         v2: seq<nat>, st2: seq<Snapshot>, n2: Option<nat>)
    requires Walked(bodies, start, v1, st1, n1) && Walked(bodies, start, v2, st2, n2)
    requires st1[0] == st2[0] && |v1| == |v2|
    ensures st1 == st2
  {
    forall k | 0 < k < |st1| ensures st1[k] == st2[k] {
      WalkedAgree(bodies, start, v1, st1, n1, v2, st2, n2, k - 1);
    }
  }

  /** Indexing the states of two joined walks, the second starting from the
      state the first ended in. */
  lemma JoinedStates(st1: seq<Snapshot>, st2: seq<Snapshot>)
    requires |st1| > 0 && |st2| > 0 && st1[|st1| - 1] == st2[0]
    ensures |st1 + st2[1..]| == |st1| + |st2| - 1
    ensures forall k :: 0 <= k < |st1| ==> (st1 + st2[1..])[k] == st1[k]
    ensures forall k :: |st1| - 1 <= k < |st1| + |st2| - 1 ==> (st1 + st2[1..])[k] == st2[k - (|st1| - 1)]
  {
    var st := st1 + st2[1..];
    forall k | |st1| - 1 <= k < |st1| + |st2| - 1 ensures st[k] == st2[k - (|st1| - 1)] {
      if k >= |st1| { assert st[k] == st2[1..][k - |st1|]; }
    }
  }

  /** Every unit of two joined walks is performed as `UnitWorked` states. */
  lemma JoinedUnits(bodies: nat -> Body, start: nat, v1: seq<nat>, st1: seq<Snapshot>, m: nat,
                    v2: seq<nat>, st2: seq<Snapshot>, next: Option<nat>)
    requires Walked(bodies, start, v1, st1, Some(m)) && Walked(bodies, m, v2, st2, next)
    requires st1[|v1|] == st2[0]
    ensures |st1 + st2[1..]| == |v1 + v2| + 1
    ensures forall k :: 0 <= k < |v1 + v2| ==>
      UnitWorked(bodies, (st1 + st2[1..])[k], (st1 + st2[1..])[k + 1], (v1 + v2)[k])
  {
    var v, st := v1 + v2, st1 + st2[1..];
    var b := |v1|;
    JoinedStates(st1, st2);
    forall k | 0 <= k < |v| ensures UnitWorked(bodies, st[k], st[k + 1], v[k]) {
      if k < b {
        assert st[k] == st1[k] && st[k + 1] == st1[k + 1] && v[k] == v1[k];
      } else {
        assert st[k] == st2[k - b] && st[k + 1] == st2[k - b + 1] && v[k] == v2[k - b];
      }
    }
  }

  /** Two successor chains, the second starting at the successor of the
      first one's last unit, join into one chain. */
  lemma JoinedChain(v1: seq<nat>, st1: seq<Snapshot>, v2: seq<nat>, st2: seq<Snapshot>)
    requires |st1| == |v1| + 1 && |st2| == |v2| + 1 && 0 < |v1| && 0 < |v2| && st1[|v1|] == st2[0]
    requires forall k :: 0 < k < |v1| ==>
      Linked(st1[k].fibers) && v1[k - 1] < |st1[k].fibers| && Successor(st1[k].fibers, v1[k - 1]) == Some(v1[k])
    requires forall k :: 0 < k < |v2| ==>
      Linked(st2[k].fibers) && v2[k - 1] < |st2[k].fibers| && Successor(st2[k].fibers, v2[k - 1]) == Some(v2[k])
    requires Linked(st1[|v1|].fibers) && v1[|v1| - 1] < |st1[|v1|].fibers|
      && Successor(st1[|v1|].fibers, v1[|v1| - 1]) == Some(v2[0])
    ensures |st1 + st2[1..]| == |v1 + v2| + 1
    ensures forall k :: 0 < k < |v1 + v2| ==>
      Linked((st1 + st2[1..])[k].fibers) && (v1 + v2)[k - 1] < |(st1 + st2[1..])[k].fibers|
      && Successor((st1 + st2[1..])[k].fibers, (v1 + v2)[k - 1]) == Some((v1 + v2)[k])
  {
    var v, st := v1 + v2, st1 + st2[1..];
    var b := |v1|;
    JoinedStates(st1, st2);
    forall k | 0 < k < |v|
      ensures Linked(st[k].fibers) && v[k - 1] < |st[k].fibers| && Successor(st[k].fibers, v[k - 1]) == Some(v[k])
    {
      if k < b {
        assert st[k] == st1[k] && v[k - 1] == v1[k - 1] && v[k] == v1[k];
      } else if k == b {
        assert st[k] == st1[b] && v[k - 1] == v1[b - 1] && v[k] == v2[0];
      } else {
        assert st[k] == st2[k - b] && v[k - 1] == v2[k - b - 1] && v[k] == v2[k - b];
      }
    }
  }

  /** The unit after the last of two joined walks is the second walk's next. */
  lemma JoinedLast(bodies: nat -> Body, start: nat, v1: seq<nat>, st1: seq<Snapshot>, m: nat,
                   v2: seq<nat>, st2: seq<Snapshot>, next: Option<nat>)
    requires Walked(bodies, start, v1, st1, Some(m)) && Walked(bodies, m, v2, st2, next)
    requires st1[|v1|] == st2[0]
    ensures var st, v := st1 + st2[1..], v1 + v2;
      |st| == |v| + 1 && Linked(st[|v|].fibers) && v[|v| - 1] < |st[|v|].fibers|
      && next == Successor(st[|v|].fibers, v[|v| - 1])
  {
    var v, st := v1 + v2, st1 + st2[1..];
    assert st[|v|] == st2[1..][|v2| - 1] == st2[|v2|];
    assert v[|v| - 1] == v2[|v2| - 1];
  }

  /** A walk that stops at `m` and a walk that resumes at `m` from the state
      the first one left form one walk. */
  lemma WalkedConcat(bodies: nat -> Body, start: nat, v1: seq<nat>, st1: seq<Snapshot>, m: nat,
                     v2: seq<nat>, st2: seq<Snapshot>, next: Option<nat>)
    requires Walked(bodies, start, v1, st1, Some(m)) && Walked(bodies, m, v2, st2, next)
    requires st1[|v1|] == st2[0]
    ensures Walked(bodies, start, v1 + v2, st1 + st2[1..], next)
  {
    JoinedUnits(bodies, start, v1, st1, m, v2, st2, next);
    JoinedChain(v1, st1, v2, st2);
    JoinedLast(bodies, start, v1, st1, m, v2, st2, next);
    assert (v1 + v2)[0] == start;
  }

  /** Yield and resume: running the units of work in two stretches, the
      second resuming where the first yielded, ends in the same state, with
      the same next unit, as one uninterrupted stretch of the same total
      length. */
  lemma YieldResume(bodies: nat -> Body, start: nat, v1: seq<nat>, st1: seq<Snapshot>, m: nat,
                    v2: seq<nat>, st2: seq<Snapshot>, next: Option<nat>,
                    v: seq<nat>, st: seq<Snapshot>, n: Option<nat>)
    requires Walked(bodies, start, v1, st1, Some(m)) && Walked(bodies, m, v2, st2, next)
    requires st1[|v1|] == st2[0]
    requires Walked(bodies, start, v, st, n) && st[0] == st1[0] && |v| == |v1| + |v2|
    ensures v == v1 + v2 && st[|v|] == st2[|v2|] && n == next
  {
    WalkedConcat(bodies, start, v1, st1, m, v2, st2, next);
    WalkedUnique(bodies, start, v, st, n, v1 + v2, st1 + st2[1..], next);
    assert (st1 + st2[1..])[|v|] == st2[1..][|v2| - 1];
  }

  /** The states of a fiber's hooks, in order. */
  function States(hooks: seq<Hook>): (s: seq<Value>)
    ensures |s| == |hooks| && forall k :: 0 <= k < |hooks| ==> s[k] == hooks[k].state
  {
    seq(|hooks|, k requires 0 <= k < |hooks| => hooks[k].state)
  }

  /** What `updateHostComponent(f)` does, from arena `fs0`, deletion list
      `d0`, log `log0` and node count `n0`: a fiber without a node gets a
      new one, created by `createDom`; then the children under the props'
      "children" key are reconciled against the old ones. */
  ghost predicate HostWorked(fs0: seq<Fiber>, d0: seq<nat>, log0: seq<HostOp>, n0: nat,
                             fs1: seq<Fiber>, d1: seq<nat>, log1: seq<HostOp>, n1: nat, f: nat)
    requires f < |fs0|
  {
    var f0 := fs0[f];
    ChildrenOf(f0.props).Some?
    && (f0.dom.Some? ==>
          log1 == log0 && n1 == n0 && Reconciled(fs0, d0, fs1, d1, f, ChildrenOf(f0.props).value))
    && (f0.dom.None? ==>
          f0.kind.Some? && f0.kind.value.Host? && n1 == n0 + 1
          && log1 == log0 + CreateDomOps(n0, f0.kind.value, f0.props)
          && Reconciled(fs0[f := f0.(dom := Some(n0))], d0, fs1, d1, f, ChildrenOf(f0.props).value))
  }

  /** What `updateFunctionComponent(f)` does: the component runs with fresh
      hooks, one per `useState` call, whose states come from the
      alternate's hooks; its one returned element is reconciled. */
  ghost predicate ComponentWorked(bodies: nat -> Body, fs0: seq<Fiber>, d0: seq<nat>, fs1: seq<Fiber>, d1: seq<nat>, f: nat)
    requires Linked(fs0) && f < |fs0|
  {
    var f0 := fs0[f];
    f0.kind.Some? && f0.kind.value.Component?
    && var body := bodies(f0.kind.value.id);
    var hooks := FreshHooks(fs0, f, body.initials(f0.props));
    Reconciled(fs0[f := f0.(hooks := hooks)], d0, fs1, d1, f, [body.view(f0.props, States(hooks))])
  }

  class Renderer {
    /** The components, by identity. */
    const bodies: nat -> Body
    var fibers: seq<Fiber>
    var currentRoot: Option<nat>
    var wipRoot: Option<nat>
    var nextUnitOfWork: Option<nat>
    var deletions: seq<nat>
    var wipFiber: Option<nat>
    var hookIndex: nat
    /** The calls made on the host adapter so far. */
    var log: seq<HostOp>
    /** The number of host nodes created so far; the next one gets this id. */
    var nodeCount: nat

    ghost predicate Valid()
      reads this
    {
      EngineOk(bodies, fibers, deletions, currentRoot, wipRoot, nextUnitOfWork, wipFiber)
    }

    constructor(bodies: nat -> Body)
      requires ViewsWellFormed(bodies)
      ensures Valid()
      ensures this.bodies == bodies && fibers == [] && log == [] && nodeCount == 0
      ensures currentRoot.None? && wipRoot.None? && nextUnitOfWork.None? && wipFiber.None?
      ensures deletions == [] && hookIndex == 0
    {
      this.bodies := bodies;
      fibers := [];
      currentRoot := None;
      wipRoot := None;
      nextUnitOfWork := None;
      deletions := [];
      wipFiber := None;
      hookIndex := 0;
      log := [];
      nodeCount := 0;
    }

    /** `render(element, container)`: a new work root over the container,
        whose only child is `element`, with the current root as alternate. */
    method Render(element: Node, container: NodeId)
      requires Valid() && WellFormedNode(element)
      modifies this`fibers, this`wipRoot, this`deletions, this`nextUnitOfWork
      ensures Valid()
      ensures fibers == old(fibers) + [Fiber(None, [(ChildrenKey, Kids([element]))], Some(container), None, None, None, currentRoot, None, [])]
      ensures wipRoot == Some(|old(fibers)|) && nextUnitOfWork == wipRoot && deletions == []
    {
      var props := [(ChildrenKey, Kids([element]))];
      assert WellFormedEntry(props[0]);
      AppendOk(fibers, Fiber(None, props, Some(container), None, None, None, currentRoot, None, []));
      fibers := fibers + [Fiber(None, props, Some(container), None, None, None, currentRoot, None, [])];
      wipRoot := Some(|fibers| - 1);
      deletions := [];
      nextUnitOfWork := wipRoot;
    }

    /** `setState(action)` of the setter `s`: queue the action on its hook,
        and start a new work root that copies the current root. */
    method SetState(s: Setter, action: Action)
      requires Valid() && currentRoot.Some?
      requires s.fiber < |fibers| && s.hook < |fibers[s.fiber].hooks|
      modifies this`fibers, this`wipRoot, this`deletions, this`nextUnitOfWork
      ensures Valid()
      ensures |fibers| == |old(fibers)| + 1
      ensures var h := old(fibers)[s.fiber].hooks[s.hook];
        fibers[..|old(fibers)|] == old(fibers)[s.fiber := old(fibers)[s.fiber].(hooks := old(fibers)[s.fiber].hooks[s.hook := h.(queue := h.queue + [action])])]
      ensures var cur := old(fibers)[currentRoot.value];
        fibers[|old(fibers)|] == Fiber(None, cur.props, cur.dom, None, None, None, currentRoot, None, [])
      ensures wipRoot == Some(|old(fibers)|) && nextUnitOfWork == wipRoot && deletions == []
    {
      var cur := fibers[currentRoot.value];
      assert FiberOk(fibers, currentRoot.value) && WellFormedProps(cur.props);
      assert cur.parent.None? && cur.dom.Some?;
      var f := fibers[s.fiber];
      var h := f.hooks[s.hook];
      var queued := f.(hooks := f.hooks[s.hook := h.(queue := h.queue + [action])]);
      RetagOk(fibers, s.fiber, queued);
      fibers := fibers[s.fiber := queued];
      var root := Fiber(None, cur.props, cur.dom, None, None, None, currentRoot, None, []);
      AppendOk(fibers, root);
      assert (fibers + [root])[..|fibers|] == fibers;
      fibers := fibers + [root];
      wipRoot := Some(|fibers| - 1);
      nextUnitOfWork := wipRoot;
      deletions := [];
    }

    /** `useState(initial)` while fiber `wipFiber` runs: the state is the old
        hook's queue replayed over its state (or `initial` without an old
        hook), and a fresh hook holding it is pushed on the fiber. */
    method UseState(initial: Value) returns (state: Value, setter: Setter)
      requires Valid() && wipFiber.Some?
      modifies this`fibers, this`hookIndex
      ensures Valid()
      ensures var w := wipFiber.value;
        state == HookState(old(fibers), w, old(hookIndex), initial)
        && fibers == old(fibers)[w := old(fibers)[w].(hooks := old(fibers)[w].hooks + [Hook(state, [])])]
        && setter == Setter(w, |old(fibers)[w].hooks|)
      ensures hookIndex == old(hookIndex) + 1
    {
      var w := wipFiber.value;
      assert LinksOk(fibers, w);
      var oldHook: Option<Hook> := None;
      if fibers[w].alternate.Some? && hookIndex < |fibers[fibers[w].alternate.value].hooks| {
        oldHook := Some(fibers[fibers[w].alternate.value].hooks[hookIndex]);
      }
      state := if oldHook.Some? then oldHook.value.state else initial;
      var actions := if oldHook.Some? then oldHook.value.queue else [];
      ghost var start := state;
      var k := 0;
      while k < |actions|
        invariant 0 <= k <= |actions|
        invariant state == Replay(start, actions[..k])
      {
        assert actions[..k + 1][..k] == actions[..k];
        state := match actions[k]
          case Apply(g) => g(state)
          case Replace(v) => v;
        k := k + 1;
      }
      assert actions[..k] == actions;
      setter := Setter(w, |fibers[w].hooks|);
      RetagOk(fibers, w, fibers[w].(hooks := fibers[w].hooks + [Hook(state, [])]));
      fibers := fibers[w := fibers[w].(hooks := fibers[w].hooks + [Hook(state, [])])];
      hookIndex := hookIndex + 1;
    }

    // -------------------------------------------------------------------
    // Render phase

    /** `createDom(fiber)` for host fiber `i`: a fresh node, created as a
        text node or as an element of the fiber's tag, with the fiber's
        props applied. */
    method CreateDom(i: nat) returns (n: NodeId)
      requires i < |fibers| && fibers[i].kind.Some? && fibers[i].kind.value.Host?
      modifies this`log, this`nodeCount
      ensures n == old(nodeCount) && nodeCount == n + 1
      ensures log == old(log) + CreateDomOps(n, fibers[i].kind.value, fibers[i].props)
    {
      n := nodeCount;
      nodeCount := nodeCount + 1;
      var create := if fibers[i].kind.value == TextElement then CreateTextNode(n) else CreateNode(n, fibers[i].kind.value.tag);
      log := log + [create] + UpdateDomOps(n, [], fibers[i].props);
      Associative(old(log), [create], UpdateDomOps(n, [], fibers[i].props));
    }

    /** `updateHostComponent(fiber)` */
    method UpdateHostComponent(f: nat)
      requires Valid() && f < |fibers| && !(fibers[f].kind.Some? && fibers[f].kind.value.Component?)
      modifies this`fibers, this`deletions, this`log, this`nodeCount
      ensures Valid()
      ensures HostWorked(old(fibers), old(deletions), old(log), old(nodeCount), fibers, deletions, log, nodeCount, f)
    {
      assert FiberOk(fibers, f);
      if fibers[f].dom.None? {
        var n := CreateDom(f);
        SetDomKeepsEngine(bodies, fibers, deletions, f, n, currentRoot, wipRoot, nextUnitOfWork, wipFiber);
        fibers := fibers[f := fibers[f].(dom := Some(n))];
      }
      WellFormedChildren(fibers[f].props);
      ghost var fs1, d1 := fibers, deletions;
      ReconcileChildren(f, ChildrenOf(fibers[f].props).value);
      ReconcileKeepsEngine(bodies, fs1, d1, fibers, deletions, f, ChildrenOf(fs1[f].props).value,
                           currentRoot, wipRoot, nextUnitOfWork, wipFiber);
    }

    /** `updateFunctionComponent(fiber)`: the fiber becomes `wipFiber` with
        no hooks; the component's `useState` calls, one per initial value,
        each push a hook; its element is reconciled as the only child. */
    method UpdateFunctionComponent(f: nat)
      requires Valid() && f < |fibers| && fibers[f].kind.Some? && fibers[f].kind.value.Component?
      modifies this`fibers, this`deletions, this`wipFiber, this`hookIndex
      ensures Valid()
      ensures ComponentWorked(bodies, old(fibers), old(deletions), fibers, deletions, f)
      ensures wipFiber == Some(f)
      ensures hookIndex == |bodies(old(fibers)[f].kind.value.id).initials(old(fibers)[f].props)|
    {
      ghost var fs0 := fibers;
      wipFiber := Some(f);
      hookIndex := 0;
      RetagOk(fibers, f, fibers[f].(hooks := []));
      fibers := fibers[f := fibers[f].(hooks := [])];
      var props := fibers[f].props;
      var body := bodies(fibers[f].kind.value.id);
      var inits := body.initials(props);
      var states := CallHooks(f, inits);
      FreshHooksOwnHooks(fs0, f, [], inits);
      assert fibers == fs0[f := fs0[f].(hooks := FreshHooks(fs0, f, inits))];
      assert props == fs0[f].props && body == bodies(fs0[f].kind.value.id);
      ghost var fs1, d1 := fibers, deletions;
      ReconcileChildren(f, [body.view(props, states)]);
      ReconcileKeepsEngine(bodies, fs1, d1, fibers, deletions, f, [body.view(props, states)],
                           currentRoot, wipRoot, nextUnitOfWork, wipFiber);
    }

    /** The component body's `useState` calls, one per initial value, in
        order, on a fiber whose hook list was just emptied. */
    method CallHooks(f: nat, inits: seq<Value>) returns (states: seq<Value>)
      requires Valid() && f < |fibers| && wipFiber == Some(f) && hookIndex == 0 && fibers[f].hooks == []
      modifies this`fibers, this`hookIndex
      ensures Valid()
      ensures fibers == old(fibers)[f := old(fibers)[f].(hooks := FreshHooks(old(fibers), f, inits))]
      ensures states == States(FreshHooks(old(fibers), f, inits))
      ensures hookIndex == |inits|
    {
      ghost var fs0 := fibers;
      ghost var hooks := FreshHooks(fs0, f, inits);
      states := [];
      assert fs0[f := fs0[f].(hooks := hooks[..0])] == fs0;
      while hookIndex < |inits|
        invariant Valid() && wipFiber == Some(f) && hookIndex <= |inits|
        invariant fibers == fs0[f := fs0[f].(hooks := hooks[..hookIndex])]
        invariant states == States(hooks[..hookIndex])
      {
        HookStateOwnHooks(fs0, f, hooks[..hookIndex], hookIndex, inits[hookIndex]);
        assert hooks[..hookIndex + 1] == hooks[..hookIndex] + [hooks[hookIndex]];
        var state, _ := UseState(inits[hookIndex]);
        states := states + [state];
      }
      assert hooks[..hookIndex] == hooks;
    }

    /** The end of `performUnitOfWork(fiber)`: the fiber's child, else the
        sibling of the fiber or of its nearest ancestor that has one. */
    method NextUnit(f: nat) returns (next: Option<nat>)
      requires Linked(fibers) && f < |fibers|
      ensures next == Successor(fibers, f)
    {
      assert LinksOk(fibers, f);
      if fibers[f].child.Some? {
        return fibers[f].child;
      }
      var nextFiber: Option<nat> := Some(f);
      while nextFiber.Some?
        invariant nextFiber.Some? ==> nextFiber.value < |fibers| && Up(fibers, nextFiber.value) == Up(fibers, f)
        invariant nextFiber.None? ==> Up(fibers, f).None?
        decreases if nextFiber.Some? then nextFiber.value + 1 else 0
      {
        assert LinksOk(fibers, nextFiber.value);
        if fibers[nextFiber.value].sibling.Some? {
          return fibers[nextFiber.value].sibling;
        }
        nextFiber := fibers[nextFiber.value].parent;
      }
      return None;
    }

    /** `performUnitOfWork(fiber)`: update the fiber as a function component
        or as a host fiber, then return the next unit of work. */
    method PerformUnitOfWork(f: nat) returns (next: Option<nat>)
      requires Valid() && f < |fibers|
      modifies this`fibers, this`deletions, this`log, this`nodeCount, this`wipFiber, this`hookIndex
      ensures Valid()
      ensures old(fibers)[f].kind.Some? && old(fibers)[f].kind.value.Component? ==>
        ComponentWorked(bodies, old(fibers), old(deletions), fibers, deletions, f)
        && log == old(log) && nodeCount == old(nodeCount) && wipFiber == Some(f)
      ensures !(old(fibers)[f].kind.Some? && old(fibers)[f].kind.value.Component?) ==>
        HostWorked(old(fibers), old(deletions), old(log), old(nodeCount), fibers, deletions, log, nodeCount, f)
        && wipFiber == old(wipFiber) && hookIndex == old(hookIndex)
      ensures f < |fibers| && next == Successor(fibers, f)
    {
      if fibers[f].kind.Some? && fibers[f].kind.value.Component? {
        UpdateFunctionComponent(f);
      } else {
        UpdateHostComponent(f);
      }
      next := NextUnit(f);
    }

    /** The statement `nextUnitOfWork = performUnitOfWork(nextUnitOfWork)`:
        the unit is performed as `PerformUnitOfWork` states, the invariant is
        kept, and the next unit is the successor of the one just performed. */
    method WorkOnce()
      requires Valid() && nextUnitOfWork.Some?
      modifies this`fibers, this`deletions, this`log, this`nodeCount, this`wipFiber, this`hookIndex, this`nextUnitOfWork
      ensures Valid() && old(nextUnitOfWork).value < |fibers|
      ensures UnitWorked(bodies, Snapshot(old(fibers), old(deletions), old(log), old(nodeCount)),
                         Snapshot(fibers, deletions, log, nodeCount), old(nextUnitOfWork).value)
      ensures nextUnitOfWork == Successor(fibers, old(nextUnitOfWork).value)
    {
      nextUnitOfWork := PerformUnitOfWork(nextUnitOfWork.value);
    }

    /** The loop of `workLoop(deadline)`: performs units of work while
        there are any and the deadline has time left. `budget` stands for
        the deadline: the idle period runs out after `budget` units, and the
        loop always performs at least one. In ghost outputs, the units
        performed, and the renderer's state before the first and after each. */
    method PerformUnits(budget: nat) returns (ghost visited: seq<nat>, ghost states: seq<Snapshot>)
      requires Valid()
      modifies this`fibers, this`deletions, this`log, this`nodeCount, this`wipFiber, this`hookIndex, this`nextUnitOfWork
      ensures Valid()
      ensures |states| == |visited| + 1
      ensures states[0] == Snapshot(old(fibers), old(deletions), old(log), old(nodeCount))
      ensures states[|visited|] == Snapshot(fibers, deletions, log, nodeCount)
      ensures old(nextUnitOfWork).None? ==> visited == [] && nextUnitOfWork.None?
      ensures old(nextUnitOfWork).Some? ==> Walked(bodies, old(nextUnitOfWork).value, visited, states, nextUnitOfWork)
      ensures |visited| <= Max(budget, 1)
      ensures nextUnitOfWork.Some? ==> |visited| == Max(budget, 1)
    {
      var shouldYield := false;
      var done := 0;
      visited, states := [], [Snapshot(fibers, deletions, log, nodeCount)];
      while nextUnitOfWork.Some? && !shouldYield
        invariant Valid()
        invariant done == |visited| && (shouldYield <==> done >= Max(budget, 1))
        invariant done <= Max(budget, 1)
        invariant |states| == done + 1
        invariant states[0] == Snapshot(old(fibers), old(deletions), old(log), old(nodeCount))
        invariant states[done] == Snapshot(fibers, deletions, log, nodeCount)
        invariant done == 0 ==> nextUnitOfWork == old(nextUnitOfWork)
        invariant done > 0 ==>
          old(nextUnitOfWork).Some? && Walked(bodies, old(nextUnitOfWork).value, visited, states, nextUnitOfWork)
        decreases Max(budget, 1) - done
      {
        var f := nextUnitOfWork.value;
        WorkOnce();
        WalkedStep(bodies, old(nextUnitOfWork).value, visited, states, f, Snapshot(fibers, deletions, log, nodeCount), nextUnitOfWork);
        visited, states := visited + [f], states + [Snapshot(fibers, deletions, log, nodeCount)];
        done := done + 1;
        shouldYield := done >= budget;
      }
    }

    /** `workLoop(deadline)`: the units of work the deadline allows
        (`PerformUnits`), then the commit of the work root once no work is
        left. Returns whether it committed and whether the commit went
        through; in ghost outputs, the units performed with the renderer's
        state before the first and after each, and the log as it stood
        before the commit. */
    method WorkLoop(budget: nat) returns (committed: bool, ok: bool, ghost visited: seq<nat>, ghost states: seq<Snapshot>,
                                          ghost preCommitLog: seq<HostOp>)
      requires Valid()
      modifies this`fibers, this`deletions, this`log, this`nodeCount, this`wipFiber, this`hookIndex
      modifies this`nextUnitOfWork, this`currentRoot, this`wipRoot
      ensures Valid()
      ensures |states| == |visited| + 1
      ensures states[0] == Snapshot(old(fibers), old(deletions), old(log), old(nodeCount))
      ensures states[|visited|] == Snapshot(fibers, deletions, preCommitLog, nodeCount)
      ensures old(nextUnitOfWork).None? ==> visited == [] && nextUnitOfWork.None?
      ensures old(nextUnitOfWork).Some? ==> Walked(bodies, old(nextUnitOfWork).value, visited, states, nextUnitOfWork)
      ensures |visited| <= Max(budget, 1)
      ensures nextUnitOfWork.Some? ==> |visited| == Max(budget, 1)
      ensures committed <==> nextUnitOfWork.None? && old(wipRoot).Some?
      ensures committed ==>
        old(wipRoot).value < |fibers|
        && AllCommittable(fibers, CommitOrder(fibers, deletions, old(wipRoot).value))
        && log == preCommitLog + RunOps(fibers, CommitOrder(fibers, deletions, old(wipRoot).value)).0
        && ok == RunOps(fibers, CommitOrder(fibers, deletions, old(wipRoot).value)).1
      ensures !committed ==> log == preCommitLog && ok
      ensures committed && ok ==> currentRoot == old(wipRoot) && wipRoot.None?
      ensures !(committed && ok) ==> currentRoot == old(currentRoot) && wipRoot == old(wipRoot)
    {
      visited, states := PerformUnits(budget);
      preCommitLog := log;
      committed, ok := false, true;
      if nextUnitOfWork.None? && wipRoot.Some? {
        ok := CommitRoot();
        committed := true;
      }
    }

    /** `reconcileChildren(w, elements)`: walks the elements and the old
        children side by side; builds an `UPDATE` fiber where the types
        match, a `PLACEMENT` fiber for any other element, and tags every
        unmatched old fiber `DELETION`. */
    method ReconcileChildren(w: nat, elements: seq<Node>)
      requires Linked(fibers) && w < |fibers| && NilsTrailing(elements)
      modifies this`fibers, this`deletions
      ensures Reconciled(old(fibers), old(deletions), fibers, deletions, w, elements)
    {
      ghost var fs0 := fibers;
      ghost var olds := OldChildren(fs0, w);
      ghost var live := LiveCount(elements);
      OldChildrenFirst(fs0, w);
      var index := 0;
      var oldFiber: Option<nat> := None;
      if fibers[w].alternate.Some? {
        oldFiber := fibers[fibers[w].alternate.value].child;
      }
      var prevSibling: Option<nat> := None;
      ProgressStart(fs0, deletions, w, elements);
      while index < |elements| || oldFiber.Some?
        invariant w < |fs0| <= |fibers|
        invariant Progress(fs0, old(deletions), fibers, deletions, w, elements, index)
        invariant oldFiber == if index < |olds| then Some(olds[index]) else None
        invariant prevSibling == if 0 < index <= live then Some(|fs0| + index - 1) else None
        decreases Max(|elements|, |olds|) - index
      {
        oldFiber, prevSibling := ReconcileStep(w, elements, index, oldFiber, prevSibling, fs0, old(deletions));
        index := index + 1;
      }
      ProgressBounds(fs0, old(deletions), fibers, deletions, w, elements, index);
      assert index == Max(|elements|, |olds|);
      ProgressDone(fs0, old(deletions), fibers, deletions, w, elements);
    }

    /** One iteration of the loop of `reconcileChildren`, as the loop sees
        it: `Progress` moves on by one position, and so do both cursors. */
    method ReconcileStep(w: nat, elements: seq<Node>, index: nat, oldFiber: Option<nat>, prevSibling: Option<nat>,
                         ghost fs0: seq<Fiber>, ghost d0: seq<nat>)
      returns (nextOld: Option<nat>, newFiber: Option<nat>)
      requires w < |fs0| <= |fibers|
      requires Progress(fs0, d0, fibers, deletions, w, elements, index)
      requires index < |elements| || oldFiber.Some?
      requires oldFiber == if index < |OldChildren(fs0, w)| then Some(OldChildren(fs0, w)[index]) else None
      requires prevSibling == if 0 < index <= LiveCount(elements) then Some(|fs0| + index - 1) else None
      modifies this`fibers, this`deletions
      ensures w < |fs0| <= |fibers|
      ensures Progress(fs0, d0, fibers, deletions, w, elements, index + 1)
      ensures nextOld == if index + 1 < |OldChildren(fs0, w)| then Some(OldChildren(fs0, w)[index + 1]) else None
      ensures newFiber == if 0 < index + 1 <= LiveCount(elements) then Some(|fs0| + index) else None
    {
      ghost var before, beforeDels := fibers, deletions;
      ghost var olds := OldChildren(fs0, w);
      ProgressBounds(fs0, d0, before, beforeDels, w, elements, index);
      if oldFiber.Some? {
        assert before[olds[index]].(effectTag := fs0[olds[index]].effectTag, child := fs0[olds[index]].child) == fs0[olds[index]];
      }
      nextOld, newFiber := ReconcileOne(w, elements, index, oldFiber, prevSibling, fs0);
      RoundProgress(fs0, d0, before, beforeDels, w, elements, index);
    }

    /** One round of the loop of `reconcileChildren`: build the fiber for
        `elements[index]` and link it in as the first child of `w` or as
        the previous new fiber's sibling. Returns the next old fiber and
        the new fiber. */
    method ReconcileOne(w: nat, elements: seq<Node>, index: nat, oldFiber: Option<nat>, prevSibling: Option<nat>, ghost fs0: seq<Fiber>)
      returns (nextOld: Option<nat>, newFiber: Option<nat>)
      requires Linked(fs0) && w < |fs0| && NilsTrailing(elements)
      requires |fibers| == |fs0| + Min(index, LiveCount(elements))
      requires index < |elements| || oldFiber.Some?
      requires oldFiber == if index < |OldChildren(fs0, w)| then Some(OldChildren(fs0, w)[index]) else None
      requires oldFiber.Some? ==>
        var o := oldFiber.value;
        fibers[o].kind == fs0[o].kind && fibers[o].dom == fs0[o].dom && fibers[o].sibling == fs0[o].sibling
      requires prevSibling == if 0 < index <= LiveCount(elements) then Some(|fs0| + index - 1) else None
      modifies this`fibers, this`deletions
      ensures fibers == Round(fs0, old(fibers), w, elements, index)
      ensures deletions == old(deletions) + Gone(fs0, OldChildren(fs0, w), elements, index)
      ensures nextOld == if index + 1 < |OldChildren(fs0, w)| then Some(OldChildren(fs0, w)[index + 1]) else None
      ensures newFiber == if index < LiveCount(elements) then Some(|fs0| + index) else None
    {
      ghost var olds, fs := OldChildren(fs0, w), fibers;
      ghost var hasEl := index < |elements| && elements[index].El?;
      assert hasEl <==> index < LiveCount(elements);
      assert hasEl ==> |fs| == |fs0| + index;
      newFiber := BuildOne(w, elements, index, oldFiber, fs0);
      assert newFiber == if hasEl then Some(|fs|) else None;
      nextOld := None;
      if oldFiber.Some? {
        assert LinksOk(fs0, w);
        ChainNext(fs0, fs0[fs0[w].alternate.value].child, index);
        nextOld := fibers[oldFiber.value].sibling;
      }
      ghost var built := fibers;
      assert built == Built(fs0, fs, w, elements, index);
      if index == 0 {
        fibers := fibers[w := fibers[w].(child := newFiber)];
      } else if index < |elements| && elements[index].El? {
        assert prevSibling.value == |fs| - 1 && |fs0| < |fs|;
        fibers := fibers[prevSibling.value := fibers[prevSibling.value].(sibling := newFiber)];
      }
    }

    /** The first half of a round of `reconcileChildren`: the new fiber for
        `elements[index]`, an update of the old fiber when the types match
        and a placement otherwise, appended to the arena; and the old fiber
        tagged `DELETION` and pushed on the deletion list when it is not
        reused. */
    method BuildOne(w: nat, elements: seq<Node>, index: nat, oldFiber: Option<nat>, ghost fs0: seq<Fiber>)
      returns (newFiber: Option<nat>)
      requires Linked(fs0) && w < |fs0| <= |fibers| && NilsTrailing(elements)
      requires oldFiber == if index < |OldChildren(fs0, w)| then Some(OldChildren(fs0, w)[index]) else None
      requires oldFiber.Some? ==> fibers[oldFiber.value].kind == fs0[oldFiber.value].kind && fibers[oldFiber.value].dom == fs0[oldFiber.value].dom
      modifies this`fibers, this`deletions
      ensures fibers == Built(fs0, old(fibers), w, elements, index)
      ensures deletions == old(deletions) + Gone(fs0, OldChildren(fs0, w), elements, index)
      ensures newFiber == if index < LiveCount(elements) then Some(|old(fibers)|) else None
    {
      ghost var olds := OldChildren(fs0, w);
      assert index < |elements| && elements[index].El? <==> index < LiveCount(elements);
      var element: Option<Element> := None;
      if index < |elements| && elements[index].El? {
        element := Some(elements[index].e);
      }
      var sameType := oldFiber.Some? && element.Some? && fibers[oldFiber.value].kind == Some(element.value.kind);
      assert sameType <==> element.Some? && SameType(fs0, olds, elements, index);
      newFiber := None;
      if sameType {
        var o := fibers[oldFiber.value];
        fibers := fibers + [Fiber(o.kind, element.value.props, o.dom, Some(w), None, None, oldFiber, Some(Update), [])];
        newFiber := Some(|fibers| - 1);
      }
      if element.Some? && !sameType {
        fibers := fibers + [Fiber(Some(element.value.kind), element.value.props, None, Some(w), None, None, None, Some(Placement), [])];
        newFiber := Some(|fibers| - 1);
      }
      assert fibers == if element.Some? then old(fibers) + [Placed(fs0, w, olds, elements, index, None)] else old(fibers);
      if oldFiber.Some? && !sameType {
        fibers := fibers[oldFiber.value := fibers[oldFiber.value].(effectTag := Some(Deletion))];
        deletions := deletions + [oldFiber.value];
      }
    }

    // -------------------------------------------------------------------
    // Commit phase

    /** The loop at the top of `commitWork`: the node of the nearest strict
        ancestor of `i` that owns one. */
    method FindDomParent(i: nat) returns (n: NodeId)
      requires Linked(fibers) && i < |fibers| && DomParent(fibers, i).Some?
      ensures Some(n) == DomParent(fibers, i)
    {
      assert LinksOk(fibers, i);
      var domParentFiber: nat := fibers[i].parent.value;
      while fibers[domParentFiber].dom.None?
        invariant domParentFiber < |fibers|
        invariant OwnerDom(fibers, domParentFiber) == DomParent(fibers, i)
        decreases domParentFiber
      {
        OwnerDomStep(fibers, domParentFiber);
        domParentFiber := fibers[domParentFiber].parent.value;
      }
      n := fibers[domParentFiber].dom.value;
    }

    /** `commitDeletion(fiber, domParent)`: removes the node of the first
        fiber down the child path that owns one. Returns false where the
        source throws: the path ends without a node. */
    method CommitDeletion(i: nat, domParent: NodeId) returns (ok: bool)
      requires Linked(fibers) && i < |fibers|
      modifies this`log
      ensures ok <==> DeletionOps(fibers, i, domParent).Some?
      ensures ok ==> log == old(log) + DeletionOps(fibers, i, domParent).value
      ensures !ok ==> log == old(log)
      decreases |fibers| - i
    {
      if fibers[i].dom.Some? {
        log := log + [RemoveChild(domParent, fibers[i].dom.value)];
        ok := true;
      } else {
        DeletionOpsStep(fibers, i, domParent);
        if fibers[i].child.None? {
          ok := false;
        } else {
          ok := CommitDeletion(fibers[i].child.value, domParent);
        }
      }
    }

    /** The middle of `commitWork(fiber)`: the host calls for fiber `i`
        itself, by its effect tag. Returns false where the source throws. */
    method CommitEffect(i: nat) returns (ok: bool)
      requires Linked(fibers) && i < |fibers| && Committable(fibers, i)
      modifies this`log
      ensures ok <==> FiberOps(fibers, i).Some?
      ensures ok ==> log == old(log) + FiberOps(fibers, i).value
      ensures !ok ==> log == old(log)
    {
      assert LinksOk(fibers, i);
      var fiber := fibers[i];
      var domParent := FindDomParent(i);
      ok := true;
      if fiber.effectTag == Some(Placement) && fiber.dom.Some? {
        log := log + [AppendChild(domParent, fiber.dom.value)];
      } else if fiber.effectTag == Some(Update) && fiber.dom.Some? {
        log := log + UpdateDomOps(fiber.dom.value, fibers[fiber.alternate.value].props, fiber.props);
      } else if fiber.effectTag == Some(Deletion) {
        ok := CommitDeletion(i, domParent);
      }
    }

    /** `commitWork(fiber)`: the effect of each fiber of the forest from `f`
        in pre-order, stopping where the source throws. */
    method CommitWork(f: Option<nat>) returns (ok: bool)
      requires Linked(fibers) && (f.Some? ==> f.value < |fibers|)
      requires AllCommittable(fibers, Forest(fibers, f))
      modifies this`log
      ensures log == old(log) + RunOps(fibers, Forest(fibers, f)).0
      ensures ok == RunOps(fibers, Forest(fibers, f)).1
      decreases if f.Some? then |fibers| - f.value else 0
    {
      if f.None? {
        return true;
      }
      var i := f.value;
      ForestRun(fibers, i);
      var fiber := fibers[i];
      ghost var e := FiberOps(fibers, i);
      ghost var rc := RunOps(fibers, Forest(fibers, fiber.child));
      ghost var rs := RunOps(fibers, Forest(fibers, fiber.sibling));
      RunThree(e, Effects(fibers, Forest(fibers, fiber.child)), Effects(fibers, Forest(fibers, fiber.sibling)));
      ok := CommitEffect(i);
      if !ok {
        return;
      }
      ghost var before := log;
      ok := CommitWork(fiber.child);
      Associative(old(log), e.value, rc.0);
      if !ok {
        return;
      }
      before := log;
      ok := CommitWork(fiber.sibling);
      Associative(old(log), e.value + rc.0, rs.0);
    }

    /** `deletions.forEach(commitWork)`, stopping where the source throws. */
    method CommitDeletions() returns (ok: bool)
      requires Linked(fibers) && ParentsAgree(fibers) && RootsOwnNodes(fibers) && UpdatesHaveAlternates(fibers)
      requires forall k :: 0 <= k < |deletions| ==> deletions[k] < |fibers| && fibers[deletions[k]].parent.Some?
      modifies this`log
      ensures AllCommittable(fibers, DeletionVisits(fibers, deletions))
      ensures log == old(log) + RunOps(fibers, DeletionVisits(fibers, deletions)).0
      ensures ok == RunOps(fibers, DeletionVisits(fibers, deletions)).1
    {
      ok := true;
      var k := 0;
      while k < |deletions|
        invariant 0 <= k <= |deletions|
        invariant AllCommittable(fibers, DeletionVisits(fibers, deletions[..k]))
        invariant log == old(log) + RunOps(fibers, DeletionVisits(fibers, deletions[..k])).0
        invariant ok == RunOps(fibers, DeletionVisits(fibers, deletions[..k])).1
      {
        ghost var before := DeletionVisits(fibers, deletions[..k]);
        ghost var visit := Forest(fibers, Some(deletions[k]));
        DeletionVisitsStep(fibers, deletions, k);
        DeletionVisitsHaveParents(fibers, deletions[..k + 1]);
        ParentedCommittable(fibers, before + visit);
        AllCommittableParts(fibers, before, visit);
        RunConcat(Effects(fibers, before), Effects(fibers, visit));
        if ok {
          ok := CommitWork(Some(deletions[k]));
          Associative(old(log), RunOps(fibers, before).0, RunOps(fibers, visit).0);
        }
        k := k + 1;
      }
      assert deletions[..k] == deletions;
    }

    /** `commitRoot()`: commit every deletion, then the work root's child,
        then make the work root current. When a commit throws, the roots are
        left as they were. */
    method CommitRoot() returns (ok: bool)
      requires Valid() && wipRoot.Some?
      modifies this`log, this`currentRoot, this`wipRoot
      ensures Valid()
      ensures AllCommittable(fibers, CommitOrder(fibers, deletions, old(wipRoot).value))
      ensures log == old(log) + RunOps(fibers, CommitOrder(fibers, deletions, old(wipRoot).value)).0
      ensures ok == RunOps(fibers, CommitOrder(fibers, deletions, old(wipRoot).value)).1
      ensures ok ==> currentRoot == old(wipRoot) && wipRoot.None?
      ensures !ok ==> currentRoot == old(currentRoot) && wipRoot == old(wipRoot)
    {
      var root := wipRoot.value;
      CommitOrderRun(fibers, deletions, root);
      ok := CommitDeletions();
      if ok {
        ok := CommitWork(fibers[root].child);
        Associative(old(log), RunOps(fibers, DeletionVisits(fibers, deletions)).0,
                    RunOps(fibers, Forest(fibers, fibers[root].child)).0);
      }
      if ok {
        currentRoot := wipRoot;
        wipRoot := None;
      }
    }
  }
}
