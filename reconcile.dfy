/** What `reconcileChildren` decides at each position when it walks the new
    elements and the old child chain side by side, by index only. */
module Reconcile {
  import opened Elements
  import opened Fibers

  /** The previous children of work fiber `w`: the sibling chain that starts
      at `w.alternate.child` (`wipFiber.alternate && wipFiber.alternate.child`). */
  function OldChildren(fs: seq<Fiber>, w: nat): (olds: seq<nat>)
    requires Linked(fs) && w < |fs|
    ensures forall k :: 0 <= k < |olds| ==> olds[k] < |fs|
  {
    assert LinksOk(fs, w);
    match fs[w].alternate
    case None => []
    case Some(a) =>
      assert LinksOk(fs, a);
      Chain(fs, fs[a].child)
  }

  /** Every fiber of a sibling chain that starts under `p` hangs under `p`. */
  lemma {:induction false} ChainParent(fs: seq<Fiber>, start: Option<nat>, p: nat)
    requires Linked(fs) && ParentsAgree(fs)
    requires start.Some? ==> start.value < |fs| && fs[start.value].parent == Some(p)
    ensures forall k :: 0 <= k < |Chain(fs, start)| ==> fs[Chain(fs, start)[k]].parent == Some(p)
    decreases if start.Some? then |fs| - start.value else 0
  {
    if start.Some? {
      var i := start.value;
      assert LinksOk(fs, i) && AgreesAt(fs, i);
      ChainParent(fs, fs[i].sibling, p);
    }
  }

  /** The loop of `reconcileChildren` starts at the first old child. */
  lemma OldChildrenFirst(fs: seq<Fiber>, w: nat)
    requires Linked(fs) && w < |fs|
    ensures fs[w].alternate.None? ==> OldChildren(fs, w) == []
    ensures fs[w].alternate.Some? ==>
      var a := fs[w].alternate.value;
      a < |fs| && fs[a].child == if 0 < |OldChildren(fs, w)| then Some(OldChildren(fs, w)[0]) else None
  {
    assert LinksOk(fs, w);
  }

  /** The previous children of `w` all have a parent (the alternate), so each
      of them can go on the deletion list. */
  lemma OldChildrenHaveParent(fs: seq<Fiber>, w: nat)
    requires Linked(fs) && ParentsAgree(fs) && w < |fs|
    ensures forall k :: 0 <= k < |OldChildren(fs, w)| ==> fs[OldChildren(fs, w)[k]].parent.Some?
  {
    assert LinksOk(fs, w);
    if fs[w].alternate.Some? {
      var a := fs[w].alternate.value;
      assert LinksOk(fs, a) && AgreesAt(fs, a);
      ChainParent(fs, fs[a].child, a);
    }
  }

  /** `sameType` at position `j`: an old fiber and a (non-null) element are
      both there and have the same type. */
  predicate SameType(fs: seq<Fiber>, olds: seq<nat>, els: seq<Node>, j: nat)
    requires forall k :: 0 <= k < |olds| ==> olds[k] < |fs|
  {
    j < |olds| && j < |els| && els[j].El? && fs[olds[j]].kind == Some(els[j].e.kind)
  }

  /** The fiber built for the element at position `j`, given the index of
      its next sibling: an `UPDATE` that takes over the old fiber's node, or
      a `PLACEMENT` with no node and no alternate. */
  function Placed(fs: seq<Fiber>, w: nat, olds: seq<nat>, els: seq<Node>, j: nat, next: Option<nat>): (f: Fiber)
    requires forall k :: 0 <= k < |olds| ==> olds[k] < |fs|
    requires j < |els| && els[j].El?
    ensures f.kind == Some(els[j].e.kind) && f.props == els[j].e.props
    ensures f.parent == Some(w) && f.child.None? && f.sibling == next && f.hooks == []
    ensures SameType(fs, olds, els, j) ==>
      f.effectTag == Some(Update) && f.alternate == Some(olds[j]) && f.dom == fs[olds[j]].dom
    ensures !SameType(fs, olds, els, j) ==>
      f.effectTag == Some(Placement) && f.alternate.None? && f.dom.None?
  {
    var e := els[j].e;
    if SameType(fs, olds, els, j) then
      Fiber(fs[olds[j]].kind, e.props, fs[olds[j]].dom, Some(w), None, next, Some(olds[j]), Some(Update), [])
    else
      Fiber(Some(e.kind), e.props, None, Some(w), None, next, None, Some(Placement), [])
  }

  /** The old fibers tagged `DELETION` at positions `0 .. n-1`, in order. */
  function Deleted(fs: seq<Fiber>, olds: seq<nat>, els: seq<Node>, n: nat): (d: seq<nat>)
    requires forall k :: 0 <= k < |olds| ==> olds[k] < |fs|
  {
    if n == 0 then []
    else
      Deleted(fs, olds, els, n - 1)
      + (if n - 1 < |olds| && !SameType(fs, olds, els, n - 1) then [olds[n - 1]] else [])
  }

  /** An old fiber is deleted exactly when its position has no element of
      the same type; nothing else is ever put on the deletion list. */
  lemma {:induction false} DeletedExactly(fs: seq<Fiber>, olds: seq<nat>, els: seq<Node>, n: nat)
    requires forall k :: 0 <= k < |olds| ==> olds[k] < |fs|
    ensures forall j :: 0 <= j < n && j < |olds| && !SameType(fs, olds, els, j) ==> olds[j] in Deleted(fs, olds, els, n)
    ensures forall d :: d in Deleted(fs, olds, els, n) ==>
      exists j :: 0 <= j < n && j < |olds| && olds[j] == d && !SameType(fs, olds, els, j)
  {
    if n > 0 {
      DeletedExactly(fs, olds, els, n - 1);
    }
  }

  /** Re-rendering with elements whose types match the old children position
      by position deletes nothing, and every fiber built is an `UPDATE`. */
  lemma {:induction false} SameTypesOnlyUpdate(fs: seq<Fiber>, olds: seq<nat>, els: seq<Node>, w: nat, n: nat)
    requires forall k :: 0 <= k < |olds| ==> olds[k] < |fs|
    requires |olds| == |els|
    requires forall j :: 0 <= j < |els| ==> els[j].El? && fs[olds[j]].kind == Some(els[j].e.kind)
    ensures Deleted(fs, olds, els, n) == []
    ensures forall j, next :: 0 <= j < |els| ==> Placed(fs, w, olds, els, j, next).effectTag == Some(Update)
  {
    if n > 0 {
      SameTypesOnlyUpdate(fs, olds, els, w, n - 1);
      assert n - 1 < |olds| ==> SameType(fs, olds, els, n - 1);
    }
  }

  /** A type swap at position `j` builds a new `PLACEMENT` fiber there and
      puts the old fiber on the deletion list: two fibers, not a reused one. */
  lemma TypeSwapPlacesAndDeletes(fs: seq<Fiber>, olds: seq<nat>, els: seq<Node>, w: nat, j: nat, n: nat, next: Option<nat>)
    requires forall k :: 0 <= k < |olds| ==> olds[k] < |fs|
    requires j < |olds| && j < |els| && els[j].El? && fs[olds[j]].kind != Some(els[j].e.kind)
    requires j < n
    ensures Placed(fs, w, olds, els, j, next).effectTag == Some(Placement)
    ensures Placed(fs, w, olds, els, j, next).alternate.None?
    ensures olds[j] in Deleted(fs, olds, els, n)
  {
    DeletedExactly(fs, olds, els, n);
  }

  /** The step from one fiber of a chain to the next is its `sibling`. */
  lemma {:induction false} ChainNext(fs: seq<Fiber>, start: Option<nat>, k: nat)
    requires Linked(fs) && (start.Some? ==> start.value < |fs|) && k < |Chain(fs, start)|
    ensures fs[Chain(fs, start)[k]].sibling ==
      if k + 1 < |Chain(fs, start)| then Some(Chain(fs, start)[k + 1]) else None
    decreases k
  {
    var i := start.value;
    assert LinksOk(fs, i);
    if k > 0 {
      ChainNext(fs, fs[i].sibling, k - 1);
    }
  }

  function Max(a: nat, b: nat): (m: nat) { if a < b then b else a }

  function Min(a: nat, b: nat): (m: nat) { if a < b then a else b }

  /** The fiber built at position `j` of `live` new children, linked to the
      next one. */
  function NewChild(fs: seq<Fiber>, w: nat, olds: seq<nat>, els: seq<Node>, j: nat, live: nat): (f: Fiber)
    requires forall k :: 0 <= k < |olds| ==> olds[k] < |fs|
    requires j < |els| && els[j].El?
  {
    Placed(fs, w, olds, els, j, if j + 1 < live then Some(|fs| + j + 1) else None)
  }

  /** The arena `fs1` and deletion list `d1` after `reconcileChildren(w, els)`
      ran on `fs0` and `d0`: one new fiber per leading non-null element,
      appended in order and linked as `w`'s child chain; the unmatched old
      children tagged `DELETION` and pushed on the deletion list; nothing
      else changed. */
  ghost predicate Reconciled(fs0: seq<Fiber>, d0: seq<nat>, fs1: seq<Fiber>, d1: seq<nat>, w: nat, els: seq<Node>)
  {
    Linked(fs0) && w < |fs0| && NilsTrailing(els)
    && var olds := OldChildren(fs0, w);
    var base := |fs0|;
    var live := LiveCount(els);
    var dels := Deleted(fs0, olds, els, Max(|els|, |olds|));
    |fs1| == base + live
    && d1 == d0 + dels
    && (forall j :: 0 <= j < live ==> fs1[base + j] == NewChild(fs0, w, olds, els, j, live))
    && (forall k :: 0 <= k < base ==> fs1[k].(effectTag := fs0[k].effectTag, child := fs0[k].child) == fs0[k])
    && (forall k :: 0 <= k < base ==> fs1[k].effectTag == if k in dels then Some(Deletion) else fs0[k].effectTag)
    && (forall k :: 0 <= k < base && k != w ==> fs1[k].child == fs0[k].child)
    && fs1[w].child == if |els| == 0 && |olds| == 0 then fs0[w].child else if live > 0 then Some(base) else None
  }

  /** `reconcileChildren(w, els)` has one outcome: two arenas and deletion
      lists that both reconcile `els` under `w` from the same start are
      equal. */
  lemma ReconciledUnique(fs0: seq<Fiber>, d0: seq<nat>, fs1: seq<Fiber>, d1: seq<nat>,
                         fs2: seq<Fiber>, d2: seq<nat>, w: nat, els: seq<Node>)
    requires Reconciled(fs0, d0, fs1, d1, w, els) && Reconciled(fs0, d0, fs2, d2, w, els)
    ensures fs1 == fs2 && d1 == d2
  {
    ReconciledIs(fs0, d0, fs1, d1, w, els);
    ReconciledIs(fs0, d0, fs2, d2, w, els);
  }

  /** The arena after reconciling, entry by entry: the old fibers with their
      effect tag and child set, then the new fibers. */
  lemma ReconciledIs(fs0: seq<Fiber>, d0: seq<nat>, fs1: seq<Fiber>, d1: seq<nat>, w: nat, els: seq<Node>)
    requires Reconciled(fs0, d0, fs1, d1, w, els)
    ensures fs1 == Reconciliation(fs0, w, els)
  {
    var fs := Reconciliation(fs0, w, els);
    forall k | 0 <= k < |fs1| ensures fs1[k] == fs[k] {
      if k < |fs0| {
        assert fs1[k].(effectTag := fs0[k].effectTag, child := fs0[k].child) == fs0[k];
      } else {
        var j := k - |fs0|;
        assert fs1[|fs0| + j] == NewChild(fs0, w, OldChildren(fs0, w), els, j, LiveCount(els));
      }
    }
  }

  /** The arena that `Reconciled` describes, built entry by entry. */
  function Reconciliation(fs0: seq<Fiber>, w: nat, els: seq<Node>): (fs1: seq<Fiber>)
    requires Linked(fs0) && w < |fs0| && NilsTrailing(els)
    ensures |fs1| == |fs0| + LiveCount(els)
  {
    var olds := OldChildren(fs0, w);
    var live := LiveCount(els);
    var dels := Deleted(fs0, olds, els, Max(|els|, |olds|));
    seq(|fs0| + live, k requires 0 <= k < |fs0| + live =>
      if k < |fs0| then
        fs0[k].(effectTag := if k in dels then Some(Deletion) else fs0[k].effectTag,
                child := if k != w then fs0[k].child
                         else if |els| == 0 && |olds| == 0 then fs0[w].child
                         else if live > 0 then Some(|fs0|) else None)
      else NewChild(fs0, w, olds, els, k - |fs0|, live))
  }

  /** After `reconcileChildren(w, els)`, the child chain of `w` is exactly
      the new fibers, one per leading non-null element, in order, each with
      that element's type and props. The one exception is a call that finds
      neither elements nor old children: its loop never runs, so a child
      `w` already had is left in place. */
  lemma ReconciledChildChain(fs0: seq<Fiber>, d0: seq<nat>, fs1: seq<Fiber>, d1: seq<nat>, w: nat, els: seq<Node>)
    requires Reconciled(fs0, d0, fs1, d1, w, els) && Linked(fs1)
    requires |els| > 0 || |OldChildren(fs0, w)| > 0 || fs0[w].child.None?
    ensures w < |fs1| && NilsTrailing(els) && ChildChainIs(fs1, w, |fs0|, els)
  {
    ReconciledChildFacts(fs0, d0, fs1, d1, w, els);
    ChildChainOfRun(fs1, |fs0|, w, els);
  }

  /** The child chain of `w` is the fibers `base`, `base + 1`, ..., one per
      leading non-null element of `els`, each with that element's type and
      props. */
  ghost predicate ChildChainIs(fs: seq<Fiber>, w: nat, base: nat, els: seq<Node>)
    requires Linked(fs) && w < |fs| && NilsTrailing(els)
  {
    assert LinksOk(fs, w);
    var c := Chain(fs, fs[w].child);
    |c| == LiveCount(els)
    && forall j :: 0 <= j < |c| ==>
         c[j] == base + j && fs[c[j]].kind == Some(els[j].e.kind) && fs[c[j]].props == els[j].e.props
  }

  /** The arena ends in a run of fibers from `base` on, one per leading
      non-null element of `els`, each under `w`, linked to the next and
      carrying its element's type and props; `w`'s child is the first of
      them, or none when there are none. */
  ghost predicate NewRun(fs: seq<Fiber>, base: nat, w: nat, els: seq<Node>)
  {
    Linked(fs) && w < |fs| && NilsTrailing(els) && |fs| == base + LiveCount(els)
    && fs[w].child == (if LiveCount(els) > 0 then Some(base) else None)
    && (forall n :: base <= n < |fs| ==>
          fs[n].parent == Some(w) && fs[n].child.None? && fs[n].sibling == if n + 1 < |fs| then Some(n + 1) else None)
    && (forall j :: 0 <= j < LiveCount(els) ==>
          base + j < |fs| && els[j].El? && fs[base + j].kind == Some(els[j].e.kind) && fs[base + j].props == els[j].e.props)
  }

  /** The new fibers that `Reconciled` describes form such a run. */
  lemma ReconciledChildFacts(fs0: seq<Fiber>, d0: seq<nat>, fs1: seq<Fiber>, d1: seq<nat>, w: nat, els: seq<Node>)
    requires Reconciled(fs0, d0, fs1, d1, w, els) && Linked(fs1)
    requires |els| > 0 || |OldChildren(fs0, w)| > 0 || fs0[w].child.None?
    ensures NewRun(fs1, |fs0|, w, els)
  {
    ReconciledNewFibers(fs0, d0, fs1, d1, w, els);
  }

  /** Such a run is the child chain of `w`. */
  lemma ChildChainOfRun(fs: seq<Fiber>, base: nat, w: nat, els: seq<Node>)
    requires NewRun(fs, base, w, els)
    ensures ChildChainIs(fs, w, base, els)
  {
    if LiveCount(els) > 0 {
      RunChain(fs, base);
      var c := Chain(fs, Some(base));
      forall j | 0 <= j < |c|
        ensures c[j] == base + j && fs[c[j]].kind == Some(els[j].e.kind) && fs[c[j]].props == els[j].e.props
      {
        assert c[j] == base + j;
      }
    }
  }

  /** A run of fibers from `n` to the end of the arena, each linked to the
      next, is the sibling chain that starts at `n`. */
  lemma {:induction false} RunChain(fs: seq<Fiber>, n: nat)
    requires Linked(fs) && n < |fs|
    requires forall m :: n <= m < |fs| ==> fs[m].sibling == if m + 1 < |fs| then Some(m + 1) else None
    ensures |Chain(fs, Some(n))| == |fs| - n
    ensures forall k :: 0 <= k < |fs| - n ==> Chain(fs, Some(n))[k] == n + k
    decreases |fs| - n
  {
    assert LinksOk(fs, n);
    var c := Chain(fs, Some(n));
    if n + 1 < |fs| {
      RunChain(fs, n + 1);
      var c' := Chain(fs, Some(n + 1));
      assert c == [n] + c';
      forall k | 0 <= k < |fs| - n ensures c[k] == n + k {
        if k > 0 {
          assert c[k] == c'[k - 1];
        }
      }
    } else {
      assert c == [n];
    }
  }

  // ---------------------------------------------------------------------
  // The loop of `reconcileChildren`, round by round

  /** The first `m` new fibers are in place after the old arena, linked in
      a chain. */
  ghost predicate NewPrefix(fs0: seq<Fiber>, fs: seq<Fiber>, w: nat, els: seq<Node>, m: nat)
    requires Linked(fs0) && w < |fs0| && NilsTrailing(els)
  {
    var olds := OldChildren(fs0, w);
    |fs| == |fs0| + m && m <= LiveCount(els)
    && forall j :: 0 <= j < m ==> fs[|fs0| + j] == NewChild(fs0, w, olds, els, j, m)
  }

  /** The old fibers differ from `fs0` only in the `DELETION` tags of the
      fibers in `dels` and in the child of `w`. */
  ghost predicate OldKept(fs0: seq<Fiber>, fs: seq<Fiber>, w: nat, dels: seq<nat>)
  {
    |fs0| <= |fs|
    && (forall k :: 0 <= k < |fs0| ==> fs[k].(effectTag := fs0[k].effectTag, child := fs0[k].child) == fs0[k])
    && (forall k :: 0 <= k < |fs0| ==> fs[k].effectTag == if k in dels then Some(Deletion) else fs0[k].effectTag)
    && (forall k :: 0 <= k < |fs0| && k != w ==> fs[k].child == fs0[k].child)
  }

  /** The arena and deletion list after the first `index` rounds of the
      loop of `reconcileChildren(w, els)`. */
  ghost predicate Progress(fs0: seq<Fiber>, d0: seq<nat>, fs: seq<Fiber>, ds: seq<nat>, w: nat, els: seq<Node>, index: nat)
  {
    Linked(fs0) && w < |fs0| && NilsTrailing(els)
    && var olds := OldChildren(fs0, w);
    var live := LiveCount(els);
    index <= Max(|els|, |olds|)
    && NewPrefix(fs0, fs, w, els, Min(index, live))
    && ds == d0 + Deleted(fs0, olds, els, index)
    && OldKept(fs0, fs, w, Deleted(fs0, olds, els, index))
    && fs[w].child == if index == 0 then fs0[w].child else if live > 0 then Some(|fs0|) else None
  }

  /** The old fiber round `index` puts on the deletion list, if any. */
  function Gone(fs: seq<Fiber>, olds: seq<nat>, els: seq<Node>, index: nat): (gone: seq<nat>)
    requires forall k :: 0 <= k < |olds| ==> olds[k] < |fs|
  {
    if index < |olds| && !SameType(fs, olds, els, index) then [olds[index]] else []
  }

  /** Round `index` before linking: the new fiber appended if the element
      is not null, and the old fiber tagged if it is not reused. */
  ghost function Built(fs0: seq<Fiber>, fs: seq<Fiber>, w: nat, els: seq<Node>, index: nat): (fs2: seq<Fiber>)
    requires Linked(fs0) && w < |fs0| <= |fs|
    ensures |fs2| == |fs| + (if index < |els| && els[index].El? then 1 else 0)
  {
    var olds := OldChildren(fs0, w);
    var fs1 := if index < |els| && els[index].El? then fs + [Placed(fs0, w, olds, els, index, None)] else fs;
    if index < |olds| && !SameType(fs0, olds, els, index)
    then fs1[olds[index] := fs1[olds[index]].(effectTag := Some(Deletion))] else fs1
  }

  /** The arena after round `index`: `Built`, then the new fiber linked in
      as the first child of `w` or as the previous new fiber's sibling. */
  ghost function Round(fs0: seq<Fiber>, fs: seq<Fiber>, w: nat, els: seq<Node>, index: nat): seq<Fiber>
    requires Linked(fs0) && w < |fs0| <= |fs|
  {
    var fs2 := Built(fs0, fs, w, els, index);
    var hasEl := index < |els| && els[index].El?;
    var nf := if hasEl then Some(|fs|) else None;
    if index == 0 then fs2[w := fs2[w].(child := nf)]
    else if hasEl && |fs0| < |fs| then fs2[|fs| - 1 := fs2[|fs| - 1].(sibling := nf)]
    else fs2
  }

  /** An old fiber after reconciling: only its tag, and for `w` its child,
      may have changed. */
  lemma ReconciledOld(fs0: seq<Fiber>, d0: seq<nat>, fs1: seq<Fiber>, d1: seq<nat>, w: nat, els: seq<Node>, k: nat)
    requires Reconciled(fs0, d0, fs1, d1, w, els) && k < |fs0|
    ensures k < |fs1|
    ensures fs1[k].(effectTag := fs0[k].effectTag, child := fs0[k].child) == fs0[k]
    ensures fs1[k].parent == fs0[k].parent && fs1[k].sibling == fs0[k].sibling
    ensures k != w ==> fs1[k].child == fs0[k].child
    ensures k == w ==>
      fs1[k].child == fs0[k].child || fs1[k].child.None? || (0 < LiveCount(els) && fs1[k].child == Some(|fs0|))
  {
  }

  /** A new fiber after reconciling: a leaf under `w`, linked to the next
      new fiber. */
  lemma ReconciledNew(fs0: seq<Fiber>, d0: seq<nat>, fs1: seq<Fiber>, d1: seq<nat>, w: nat, els: seq<Node>, j: nat)
    requires Reconciled(fs0, d0, fs1, d1, w, els) && j < LiveCount(els)
    ensures |fs0| + j < |fs1| && els[j].El?
    ensures fs1[|fs0| + j].parent == Some(w) && fs1[|fs0| + j].child.None?
    ensures fs1[|fs0| + j].sibling == if j + 1 < LiveCount(els) then Some(|fs0| + j + 1) else None
    ensures fs1[|fs0| + j].kind == Some(els[j].e.kind) && fs1[|fs0| + j].props == els[j].e.props
    ensures fs1[|fs0| + j].alternate.Some? ==> fs1[|fs0| + j].alternate.value < |fs0|
    ensures fs1[|fs0| + j].effectTag == Some(Update) ==> fs1[|fs0| + j].alternate.Some?
    ensures fs1[|fs0| + j].effectTag != Some(Deletion)
  {
    var olds := OldChildren(fs0, w);
    assert fs1[|fs0| + j] == NewChild(fs0, w, olds, els, j, LiveCount(els));
  }

  /** Reconciling keeps the arena's links in order. */
  lemma ReconciledLinked(fs0: seq<Fiber>, d0: seq<nat>, fs1: seq<Fiber>, d1: seq<nat>, w: nat, els: seq<Node>)
    requires Reconciled(fs0, d0, fs1, d1, w, els)
    ensures Linked(fs1)
  {
    forall i | 0 <= i < |fs1| ensures LinksOk(fs1, i) {
      if i < |fs0| {
        ReconciledOldLinks(fs0, d0, fs1, d1, w, els, i);
      } else {
        ReconciledNewLinks(fs0, d0, fs1, d1, w, els, i - |fs0|);
      }
    }
  }

  /** A new fiber's links are in order after reconciling. */
  lemma ReconciledNewLinks(fs0: seq<Fiber>, d0: seq<nat>, fs1: seq<Fiber>, d1: seq<nat>, w: nat, els: seq<Node>, j: nat)
    requires Reconciled(fs0, d0, fs1, d1, w, els) && j < LiveCount(els)
    ensures |fs0| + j < |fs1| && LinksOk(fs1, |fs0| + j)
  {
    ReconciledNew(fs0, d0, fs1, d1, w, els, j);
  }

  /** An old fiber's links stay in order after reconciling. */
  lemma ReconciledOldLinks(fs0: seq<Fiber>, d0: seq<nat>, fs1: seq<Fiber>, d1: seq<nat>, w: nat, els: seq<Node>, i: nat)
    requires Reconciled(fs0, d0, fs1, d1, w, els) && i < |fs0|
    ensures i < |fs1| && LinksOk(fs1, i)
  {
    assert LinksOk(fs0, i);
    ReconciledOld(fs0, d0, fs1, d1, w, els, i);
  }

  /** An old fiber keeps its parent and sibling, and its child is either its
      old child or the first new fiber. */
  lemma ReconciledAgreeOld(fs0: seq<Fiber>, d0: seq<nat>, fs1: seq<Fiber>, d1: seq<nat>, w: nat, els: seq<Node>, i: nat)
    requires Reconciled(fs0, d0, fs1, d1, w, els) && i < |fs0| && AgreesAt(fs0, i)
    ensures i < |fs1| && AgreesAt(fs1, i)
  {
    assert LinksOk(fs0, i);
    ReconciledOld(fs0, d0, fs1, d1, w, els, i);
    if fs0[i].sibling.Some? {
      ReconciledOld(fs0, d0, fs1, d1, w, els, fs0[i].sibling.value);
    }
    if fs0[i].child.Some? {
      ReconciledOld(fs0, d0, fs1, d1, w, els, fs0[i].child.value);
    }
    if fs1[i].child == Some(|fs0|) {
      ReconciledNew(fs0, d0, fs1, d1, w, els, 0);
    }
    KeptAgrees(fs0, fs1, w, i);
  }

  /** The agreement at an old fiber survives when its parent, its sibling's
      parent and its child's parent stay as they were, or its child becomes
      a fiber whose parent it is. */
  lemma KeptAgrees(fs0: seq<Fiber>, fs1: seq<Fiber>, w: nat, i: nat)
    requires i < |fs0| <= |fs1| && LinksOk(fs0, i) && AgreesAt(fs0, i)
    requires fs1[i].parent == fs0[i].parent && fs1[i].sibling == fs0[i].sibling
    requires fs0[i].sibling.Some? ==> fs1[fs0[i].sibling.value].parent == fs0[fs0[i].sibling.value].parent
    requires fs0[i].child.Some? ==> fs1[fs0[i].child.value].parent == fs0[fs0[i].child.value].parent
    requires fs1[i].child.Some? ==>
      fs1[i].child == fs0[i].child || (fs1[i].child.value < |fs1| && fs1[fs1[i].child.value].parent == Some(i))
    ensures AgreesAt(fs1, i)
  {
  }

  /** The new fibers are leaves under `w`, each linked to the next and
      carrying one element's type and props, in order. */
  lemma ReconciledNewFibers(fs0: seq<Fiber>, d0: seq<nat>, fs1: seq<Fiber>, d1: seq<nat>, w: nat, els: seq<Node>)
    requires Reconciled(fs0, d0, fs1, d1, w, els)
    ensures forall n :: |fs0| <= n < |fs1| ==>
      fs1[n].parent == Some(w) && fs1[n].child.None? && fs1[n].sibling == if n + 1 < |fs1| then Some(n + 1) else None
    ensures forall j :: 0 <= j < LiveCount(els) ==>
      |fs0| + j < |fs1| && els[j].El? && fs1[|fs0| + j].kind == Some(els[j].e.kind) && fs1[|fs0| + j].props == els[j].e.props
  {
    forall n | |fs0| <= n < |fs1|
      ensures fs1[n].parent == Some(w) && fs1[n].child.None? && fs1[n].sibling == if n + 1 < |fs1| then Some(n + 1) else None
    {
      ReconciledNew(fs0, d0, fs1, d1, w, els, n - |fs0|);
    }
    forall j | 0 <= j < LiveCount(els)
      ensures |fs0| + j < |fs1| && els[j].El? && fs1[|fs0| + j].kind == Some(els[j].e.kind) && fs1[|fs0| + j].props == els[j].e.props
    {
      ReconciledNew(fs0, d0, fs1, d1, w, els, j);
    }
  }

  /** A run of leaves under `w`, each linked to the next, agrees with its
      links. */
  lemma NewFibersAgree(fs: seq<Fiber>, base: nat, w: nat)
    requires forall n :: base <= n < |fs| ==>
      fs[n].parent == Some(w) && fs[n].child.None? && fs[n].sibling == if n + 1 < |fs| then Some(n + 1) else None
    ensures forall n :: base <= n < |fs| ==> AgreesAt(fs, n)
  {
    forall n | base <= n < |fs| ensures AgreesAt(fs, n) {
      if n + 1 < |fs| {
        assert fs[n + 1].parent == Some(w);
      }
      LeafAgrees(fs, w, n);
    }
  }

  /** A leaf whose sibling has the same parent agrees with its links. */
  lemma LeafAgrees(fs: seq<Fiber>, w: nat, n: nat)
    requires n < |fs| && fs[n].parent == Some(w) && fs[n].child.None?
    requires fs[n].sibling.Some? && fs[n].sibling.value < |fs| ==> fs[fs[n].sibling.value].parent == Some(w)
    ensures AgreesAt(fs, n)
  {
  }

  /** Reconciling keeps the arena's links in order and in agreement: the
      new chain hangs under `w`, and the old fibers keep their links. */
  lemma ReconciledAgree(fs0: seq<Fiber>, d0: seq<nat>, fs1: seq<Fiber>, d1: seq<nat>, w: nat, els: seq<Node>)
    requires Reconciled(fs0, d0, fs1, d1, w, els) && ParentsAgree(fs0)
    ensures Linked(fs1) && ParentsAgree(fs1)
  {
    ReconciledLinked(fs0, d0, fs1, d1, w, els);
    ReconciledNewFibers(fs0, d0, fs1, d1, w, els);
    NewFibersAgree(fs1, |fs0|, w);
    forall i | 0 <= i < |fs0| ensures AgreesAt(fs1, i) {
      ReconciledAgreeOld(fs0, d0, fs1, d1, w, els, i);
    }
  }

  /** The arena size and the position the loop has reached. */
  lemma ProgressBounds(fs0: seq<Fiber>, d0: seq<nat>, fs: seq<Fiber>, ds: seq<nat>, w: nat, els: seq<Node>, index: nat)
    requires Progress(fs0, d0, fs, ds, w, els, index)
    ensures index <= Max(|els|, |OldChildren(fs0, w)|)
    ensures |fs| == |fs0| + Min(index, LiveCount(els))
  {
  }

  /** Before the first round nothing has changed. */
  lemma ProgressStart(fs0: seq<Fiber>, d0: seq<nat>, w: nat, els: seq<Node>)
    requires Linked(fs0) && w < |fs0| && NilsTrailing(els)
    ensures Progress(fs0, d0, fs0, d0, w, els, 0)
  {
    assert Min(0, LiveCount(els)) == 0;
  }

  /** Nothing is left to do once both the elements and the old children
      are used up, and the arena is then as `Reconciled` describes. */
  lemma ProgressDone(fs0: seq<Fiber>, d0: seq<nat>, fs: seq<Fiber>, ds: seq<nat>, w: nat, els: seq<Node>)
    requires Linked(fs0) && w < |fs0| && NilsTrailing(els)
    requires Progress(fs0, d0, fs, ds, w, els, Max(|els|, |OldChildren(fs0, w)|))
    ensures Reconciled(fs0, d0, fs, ds, w, els)
  {
    var olds := OldChildren(fs0, w);
    var live := LiveCount(els);
    assert Min(Max(|els|, |olds|), live) == live;
  }

  /** Round `index` on the new fibers: the element's fiber is appended and
      the previous one is linked to it. */
  lemma RoundNew(fs0: seq<Fiber>, fs: seq<Fiber>, w: nat, els: seq<Node>, index: nat)
    requires Linked(fs0) && w < |fs0| && NilsTrailing(els)
    requires NewPrefix(fs0, fs, w, els, Min(index, LiveCount(els)))
    ensures NewPrefix(fs0, Round(fs0, fs, w, els, index), w, els, Min(index + 1, LiveCount(els)))
  {
    var olds := OldChildren(fs0, w);
    var base := |fs0|;
    var live := LiveCount(els);
    var fs2 := Built(fs0, fs, w, els, index);
    var fs' := Round(fs0, fs, w, els, index);
    var hasEl := index < |els| && els[index].El?;
    assert hasEl <==> index < live;
    assert forall k :: base <= k < |fs| ==> fs2[k] == fs[k];
    if hasEl {
      var m' := index + 1;
      assert Min(index, live) == index && Min(index + 1, live) == m';
      assert fs2[base + index] == Placed(fs0, w, olds, els, index, None);
      forall j | 0 <= j < m'
        ensures fs'[base + j] == NewChild(fs0, w, olds, els, j, m')
      {
        if j + 1 < index {
          assert fs'[base + j] == fs[base + j] == NewChild(fs0, w, olds, els, j, index);
        } else if j + 1 == index {
          var f := NewChild(fs0, w, olds, els, j, index);
          assert fs[base + j] == f == Placed(fs0, w, olds, els, j, None);
          assert fs'[base + j] == f.(sibling := Some(base + index));
        }
      }
    } else {
      assert Min(index, live) == live && Min(index + 1, live) == live;
      forall j | 0 <= j < live
        ensures fs'[base + j] == NewChild(fs0, w, olds, els, j, live)
      {
        assert fs'[base + j] == fs[base + j];
      }
    }
  }

  /** Round `index` on one old fiber: it is tagged `DELETION` if it is the
      round's unmatched old child, and only `w` may get a new child, in
      the first round. */
  lemma RoundAt(fs0: seq<Fiber>, fs: seq<Fiber>, w: nat, els: seq<Node>, index: nat, k: nat)
    requires Linked(fs0) && w < |fs0| <= |fs| && k < |fs0|
    ensures Round(fs0, fs, w, els, index)[k].(effectTag := fs[k].effectTag, child := fs[k].child) == fs[k]
    ensures Round(fs0, fs, w, els, index)[k].effectTag ==
      if k in Gone(fs0, OldChildren(fs0, w), els, index) then Some(Deletion) else fs[k].effectTag
    ensures k != w || index > 0 ==> Round(fs0, fs, w, els, index)[k].child == fs[k].child
  {
    var olds := OldChildren(fs0, w);
    var fs2 := Built(fs0, fs, w, els, index);
    assert fs2[k] == if k in Gone(fs0, olds, els, index) then fs[k].(effectTag := Some(Deletion)) else fs[k];
  }

  /** Round `index` on the old fibers: at most one more `DELETION` tag, and
      at most a new child of `w`. */
  lemma RoundOld(fs0: seq<Fiber>, fs: seq<Fiber>, w: nat, els: seq<Node>, index: nat)
    requires Linked(fs0) && w < |fs0| && |fs0| <= |fs|
    requires OldKept(fs0, fs, w, Deleted(fs0, OldChildren(fs0, w), els, index))
    ensures OldKept(fs0, Round(fs0, fs, w, els, index), w, Deleted(fs0, OldChildren(fs0, w), els, index + 1))
  {
    var olds := OldChildren(fs0, w);
    var D := Deleted(fs0, olds, els, index);
    var g := Gone(fs0, olds, els, index);
    var D' := Deleted(fs0, olds, els, index + 1);
    assert D' == D + g;
    var fs' := Round(fs0, fs, w, els, index);
    forall k | 0 <= k < |fs0|
      ensures fs'[k].(effectTag := fs0[k].effectTag, child := fs0[k].child) == fs0[k]
      ensures fs'[k].effectTag == if k in D' then Some(Deletion) else fs0[k].effectTag
      ensures k != w ==> fs'[k].child == fs0[k].child
    {
      RoundAt(fs0, fs, w, els, index, k);
      assert k in D' <==> k in D || k in g;
    }
  }

  /** After round `index` the child of `w` is the first new fiber, or none
      when there are no elements; later rounds leave it alone. */
  lemma RoundChild(fs0: seq<Fiber>, fs: seq<Fiber>, w: nat, els: seq<Node>, index: nat)
    requires Linked(fs0) && w < |fs0| <= |fs| && NilsTrailing(els)
    requires index == 0 ==> |fs| == |fs0|
    ensures Round(fs0, fs, w, els, index)[w].child ==
      if index == 0 then (if LiveCount(els) > 0 then Some(|fs0|) else None) else fs[w].child
  {
    var hasEl := index < |els| && els[index].El?;
    assert index == 0 ==> (hasEl <==> LiveCount(els) > 0);
    RoundAt(fs0, fs, w, els, index, w);
  }

  /** One round keeps `Progress`. */
  lemma RoundProgress(fs0: seq<Fiber>, d0: seq<nat>, fs: seq<Fiber>, ds: seq<nat>, w: nat, els: seq<Node>, index: nat)
    requires Progress(fs0, d0, fs, ds, w, els, index)
    requires index < |els| || index < |OldChildren(fs0, w)|
    ensures Progress(fs0, d0, Round(fs0, fs, w, els, index), ds + Gone(fs0, OldChildren(fs0, w), els, index), w, els, index + 1)
  {
    var olds := OldChildren(fs0, w);
    RoundNew(fs0, fs, w, els, index);
    RoundOld(fs0, fs, w, els, index);
    RoundChild(fs0, fs, w, els, index);
    assert Deleted(fs0, olds, els, index + 1) == Deleted(fs0, olds, els, index) + Gone(fs0, olds, els, index);
    Associative(d0, Deleted(fs0, olds, els, index), Gone(fs0, olds, els, index));
  }

}
