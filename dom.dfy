/** Prop diffing (`updateDom`) as a log of operations on abstract host nodes.
    The host adapter itself is not modelled; each operation records one call
    the engine makes on it. */
module Dom {
  import opened Elements

  /** A handle on a host node. */
  type NodeId = nat

  /** One call on the host adapter. */
  datatype HostOp =
    | CreateNode(node: NodeId, tag: string)
    | CreateTextNode(node: NodeId)
    | SetProp(node: NodeId, name: string, value: Prop)
    | AddListener(node: NodeId, event: string, handler: Prop)
    | RemoveListener(node: NodeId, event: string, handler: Prop)
    | AppendChild(parent: NodeId, child: NodeId)
    | RemoveChild(parent: NodeId, child: NodeId)

  /** `isEvent`: the key starts with "on". */
  predicate IsEvent(key: string)
  {
    |key| >= 2 && key[..2] == "on"
  }

  /** `isProperty`: neither "children" nor an event. */
  predicate IsProperty(key: string)
  {
    key != ChildrenKey && !IsEvent(key)
  }

  /** `isNew(prev, next)(key)`: `prev[key] !== next[key]`. */
  predicate IsNew(prev: seq<(string, Prop)>, next: seq<(string, Prop)>, key: string)
  {
    Get(prev, key) != Get(next, key)
  }

  /** `isGone(prev, next)(key)`: `!(key in next)`. */
  predicate IsGone(next: seq<(string, Prop)>, key: string)
  {
    !Has(next, key)
  }

  /** ASCII lower-casing of one character. */
  function ToLower(c: char): (d: char)
    ensures 'A' <= c <= 'Z' ==> d as int == c as int + 32
    ensures !('A' <= c <= 'Z') ==> d == c
  {
    if 'A' <= c <= 'Z' then (c as int + 32) as char else c
  }

  function LowerCase(s: string): (r: string)
    ensures |r| == |s|
    ensures forall i :: 0 <= i < |s| ==> r[i] == ToLower(s[i])
  {
    seq(|s|, i requires 0 <= i < |s| => ToLower(s[i]))
  }

  /** `key.toLowerCase().substring(2)`: the event type of an event key. */
  function EventName(key: string): (name: string)
    requires IsEvent(key)
    ensures |name| == |key| - 2
    ensures forall i :: 0 <= i < |name| ==> name[i] == ToLower(key[i + 2])
  {
    LowerCase(key)[2..]
  }

  /** Phase 1: listeners under a previous key that is gone or changed. */
  function RemovedListeners(n: NodeId, keys: seq<string>, prev: seq<(string, Prop)>, next: seq<(string, Prop)>): (ops: seq<HostOp>)
    ensures forall op :: op in ops ==>
      op.RemoveListener? && op.node == n &&
      exists k :: k in keys && IsEvent(k) && (IsGone(next, k) || IsNew(prev, next, k))
                && op == RemoveListener(n, EventName(k), Get(prev, k))
    ensures forall k :: k in keys && IsEvent(k) && (IsGone(next, k) || IsNew(prev, next, k)) ==>
      RemoveListener(n, EventName(k), Get(prev, k)) in ops
  {
    if keys == [] then []
    else
      var k := keys[0];
      (if IsEvent(k) && (IsGone(next, k) || IsNew(prev, next, k))
       then [RemoveListener(n, EventName(k), Get(prev, k))] else [])
      + RemovedListeners(n, keys[1..], prev, next)
  }

  /** Phase 2: plain properties whose key is gone are set to "". */
  function ClearedProps(n: NodeId, keys: seq<string>, next: seq<(string, Prop)>): (ops: seq<HostOp>)
    ensures forall op :: op in ops ==>
      op.SetProp? && op.node == n && op.name in keys && IsProperty(op.name)
      && IsGone(next, op.name) && op.value == Val(Str(""))
    ensures forall k :: k in keys && IsProperty(k) && IsGone(next, k) ==> SetProp(n, k, Val(Str(""))) in ops
  {
    if keys == [] then []
    else
      var k := keys[0];
      (if IsProperty(k) && IsGone(next, k) then [SetProp(n, k, Val(Str("")))] else [])
      + ClearedProps(n, keys[1..], next)
  }

  /** Phase 3: plain properties that are new or changed take the next value. */
  function AssignedProps(n: NodeId, keys: seq<string>, prev: seq<(string, Prop)>, next: seq<(string, Prop)>): (ops: seq<HostOp>)
    ensures forall op :: op in ops ==>
      op.SetProp? && op.node == n && op.name in keys && IsProperty(op.name)
      && IsNew(prev, next, op.name) && op.value == Get(next, op.name)
    ensures forall k :: k in keys && IsProperty(k) && IsNew(prev, next, k) ==> SetProp(n, k, Get(next, k)) in ops
  {
    if keys == [] then []
    else
      var k := keys[0];
      (if IsProperty(k) && IsNew(prev, next, k) then [SetProp(n, k, Get(next, k))] else [])
      + AssignedProps(n, keys[1..], prev, next)
  }

  /** Phase 4: listeners under a key that is new or changed are added. */
  function AddedListeners(n: NodeId, keys: seq<string>, prev: seq<(string, Prop)>, next: seq<(string, Prop)>): (ops: seq<HostOp>)
    ensures forall op :: op in ops ==>
      op.AddListener? && op.node == n &&
      exists k :: k in keys && IsEvent(k) && IsNew(prev, next, k)
                && op == AddListener(n, EventName(k), Get(next, k))
    ensures forall k :: k in keys && IsEvent(k) && IsNew(prev, next, k) ==>
      AddListener(n, EventName(k), Get(next, k)) in ops
  {
    if keys == [] then []
    else
      var k := keys[0];
      (if IsEvent(k) && IsNew(prev, next, k) then [AddListener(n, EventName(k), Get(next, k))] else [])
      + AddedListeners(n, keys[1..], prev, next)
  }

  /** `updateDom(dom, prevProps, nextProps)`: the four phases in order. */
  function UpdateDomOps(n: NodeId, prev: seq<(string, Prop)>, next: seq<(string, Prop)>): (ops: seq<HostOp>)
  {
    RemovedListeners(n, Keys(prev), prev, next)
    + ClearedProps(n, Keys(prev), next)
    + AssignedProps(n, Keys(next), prev, next)
    + AddedListeners(n, Keys(next), prev, next)
  }

  /** No operation of `updateDom` is about the "children" key: property
      writes name a plain property, and listener operations are on the
      event of some "on..." key. Every operation targets the given node. */
  lemma UpdateDomSkipsChildren(n: NodeId, prev: seq<(string, Prop)>, next: seq<(string, Prop)>)
    ensures forall op :: op in UpdateDomOps(n, prev, next) ==>
      (op.SetProp? && op.node == n && IsProperty(op.name) && op.name != ChildrenKey)
      || (op.RemoveListener? && op.node == n && exists k :: k in Keys(prev) && IsEvent(k) && op.event == EventName(k))
      || (op.AddListener? && op.node == n && exists k :: k in Keys(next) && IsEvent(k) && op.event == EventName(k))
  {
  }

  /** The operations `updateDom` emits, both directions: a listener is removed
      exactly for a previous event key that is gone or changed, a property is
      cleared exactly for a previous plain key that is gone, a property is set
      exactly for a next plain key whose value differs, and a listener is added
      exactly for a next event key whose value differs. */
  lemma UpdateDomExactly(n: NodeId, prev: seq<(string, Prop)>, next: seq<(string, Prop)>)
    ensures forall k :: Has(prev, k) && IsEvent(k) && (IsGone(next, k) || IsNew(prev, next, k)) ==>
      RemoveListener(n, EventName(k), Get(prev, k)) in UpdateDomOps(n, prev, next)
    ensures forall k :: Has(prev, k) && IsProperty(k) && IsGone(next, k) ==>
      SetProp(n, k, Val(Str(""))) in UpdateDomOps(n, prev, next)
    ensures forall k :: Has(next, k) && IsProperty(k) && IsNew(prev, next, k) ==>
      SetProp(n, k, Get(next, k)) in UpdateDomOps(n, prev, next)
    ensures forall k :: Has(next, k) && IsEvent(k) && IsNew(prev, next, k) ==>
      AddListener(n, EventName(k), Get(next, k)) in UpdateDomOps(n, prev, next)
    ensures forall op :: op in UpdateDomOps(n, prev, next) && op.SetProp? ==>
      op.node == n && IsProperty(op.name)
      && ((Has(prev, op.name) && IsGone(next, op.name) && op.value == Val(Str("")))
          || (Has(next, op.name) && IsNew(prev, next, op.name) && op.value == Get(next, op.name)))
    ensures forall op :: op in UpdateDomOps(n, prev, next) && op.RemoveListener? ==>
      exists k :: Has(prev, k) && IsEvent(k) && (IsGone(next, k) || IsNew(prev, next, k))
                && op == RemoveListener(n, EventName(k), Get(prev, k))
    ensures forall op :: op in UpdateDomOps(n, prev, next) && op.AddListener? ==>
      exists k :: Has(next, k) && IsEvent(k) && IsNew(prev, next, k)
                && op == AddListener(n, EventName(k), Get(next, k))
  {
    forall k ensures (k in Keys(prev) <==> Has(prev, k)) && (k in Keys(next) <==> Has(next, k)) {
      KeysHas(prev, k);
      KeysHas(next, k);
    }
  }

  lemma {:induction false} NoRemovalsFromSelf(n: NodeId, keys: seq<string>, props: seq<(string, Prop)>)
    requires forall k :: k in keys ==> Has(props, k)
    ensures RemovedListeners(n, keys, props, props) == []
    ensures ClearedProps(n, keys, props) == []
    ensures AssignedProps(n, keys, props, props) == []
    ensures AddedListeners(n, keys, props, props) == []
  {
    if keys != [] {
      NoRemovalsFromSelf(n, keys[1..], props);
    }
  }

  /** Diffing a props object against itself emits nothing. */
  lemma UpdateDomSameProps(n: NodeId, props: seq<(string, Prop)>)
    ensures UpdateDomOps(n, props, props) == []
  {
    forall k | k in Keys(props) ensures Has(props, k) {
      KeysHas(props, k);
    }
    NoRemovalsFromSelf(n, Keys(props), props);
  }

  /** Against empty previous props (a node's creation), nothing is removed or
      cleared: only properties are set and listeners added. */
  lemma UpdateDomFromEmpty(n: NodeId, next: seq<(string, Prop)>)
    ensures forall op :: op in UpdateDomOps(n, [], next) ==> op.SetProp? || op.AddListener?
    ensures forall op :: op in UpdateDomOps(n, [], next) && op.SetProp? ==> op.value == Get(next, op.name) && op.value != Val(Undefined)
  {
    assert Keys([]) == [];
  }

  /** `createDom(fiber)` for a fiber of host type `kind`: a text node for
      "TEXT_ELEMENT", an element of that tag otherwise, then `updateDom`
      from empty props to the fiber's props. */
  function CreateDomOps(n: NodeId, kind: ElemType, props: seq<(string, Prop)>): (ops: seq<HostOp>)
    requires kind.Host?
  {
    [if kind == TextElement then CreateTextNode(n) else CreateNode(n, kind.tag)] + UpdateDomOps(n, [], props)
  }

  /** A new node is created first; after that it only receives its fiber's
      props and listeners: every plain prop whose value is not `undefined`
      is set, and every event prop gets a listener. Nothing is removed. */
  lemma CreateDomApplies(n: NodeId, kind: ElemType, props: seq<(string, Prop)>)
    requires kind.Host?
    ensures var ops := CreateDomOps(n, kind, props);
      |ops| >= 1 && (ops[0] == CreateTextNode(n) <==> kind == TextElement)
      && (ops[0] == CreateNode(n, kind.tag) <==> kind != TextElement)
    ensures forall op :: op in CreateDomOps(n, kind, props)[1..] ==>
      (op.SetProp? && op.node == n && IsProperty(op.name) && Has(props, op.name)
       && op.value == Get(props, op.name) && op.value != Val(Undefined))
      || (op.AddListener? && exists k :: Has(props, k) && IsEvent(k) && Get(props, k) != Val(Undefined)
                                       && op == AddListener(n, EventName(k), Get(props, k)))
    ensures forall k :: Has(props, k) && IsProperty(k) && Get(props, k) != Val(Undefined) ==>
      SetProp(n, k, Get(props, k)) in CreateDomOps(n, kind, props)
    ensures forall k :: Has(props, k) && IsEvent(k) && Get(props, k) != Val(Undefined) ==>
      AddListener(n, EventName(k), Get(props, k)) in CreateDomOps(n, kind, props)
  {
    var ops := CreateDomOps(n, kind, props);
    assert ops[1..] == UpdateDomOps(n, [], props);
    UpdateDomFromEmpty(n, props);
    UpdateDomExactly(n, [], props);
    assert Lookup([], "") == None;
    forall k ensures Get([], k) == Val(Undefined) {
      assert Lookup([], k) == None;
    }
  }
}
