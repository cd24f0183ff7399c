/** Element descriptions: the immutable trees that `createElement` builds and
    the reconciler consumes. Props are kept as an ordered association list so
    that the key order of `Object.keys` is part of the model. */
module Elements {

  datatype Option<T> = None | Some(value: T)

  /** A JavaScript value as it can appear as a prop, a text node's value or a
      hook's state. Functions (event handlers, callbacks) are opaque and
      compared by identity, which `Func(id)` models. */
  datatype Value = Undefined | Null | Bool(b: bool) | Num(n: int) | Str(s: string) | Func(id: nat)

  /** The `type` of an element: a string (a host tag, or the "TEXT_ELEMENT"
      sentinel of text elements), or a function component, identified by the
      component's identity. */
  datatype ElemType = Host(tag: string) | Component(id: nat)

  /** The type of the elements `createTextElement` builds. */
  const TextElement: ElemType := Host("TEXT_ELEMENT")

  /** `{type, props}`; the props hold the `children` key. */
  datatype Element = Element(kind: ElemType, props: seq<(string, Prop)>)

  /** The value stored under a props key: a plain value, or the array of
      children stored under "children". */
  datatype Prop = Val(v: Value) | Kids(nodes: seq<Node>)

  /** An entry of a children array: an element, or `null`. */
  datatype Node = El(e: Element) | Nil

  /** An argument passed to `createElement` as a child: an object (an element),
      or any other JavaScript value (`Plain(Null)` is `null`). */
  datatype Child = Obj(e: Element) | Plain(v: Value)

  const ChildrenKey: string := "children"
  const NodeValueKey: string := "nodeValue"

  /** `key in props` */
  predicate Has(props: seq<(string, Prop)>, key: string)
  {
    exists i :: 0 <= i < |props| && props[i].0 == key
  }

  /** `props[key]`: the value of the first entry under `key`, if any. */
  function Lookup(props: seq<(string, Prop)>, key: string): (r: Option<Prop>)
    ensures r.Some? <==> Has(props, key)
    ensures r.Some? ==> exists i :: 0 <= i < |props| && props[i] == (key, r.value)
  {
    if props == [] then None
    else if props[0].0 == key then Some(props[0].1)
    else
      var r := Lookup(props[1..], key);
      assert r.Some? ==> exists i :: 0 <= i < |props[1..]| && props[1..][i] == (key, r.value);
      assert Has(props[1..], key) ==> Has(props, key) by {
        if Has(props[1..], key) {
          var i :| 0 <= i < |props[1..]| && props[1..][i].0 == key;
          assert props[i + 1].0 == key;
        }
      }
      assert Has(props, key) ==> Has(props[1..], key) by {
        if Has(props, key) {
          var i :| 0 <= i < |props| && props[i].0 == key;
          assert props[1..][i - 1].0 == key;
        }
      }
      r
  }

  /** `props[key]`, reading `undefined` for a missing key. */
  function Get(props: seq<(string, Prop)>, key: string): (v: Prop)
  {
    match Lookup(props, key)
    case Some(p) => p
    case None => Val(Undefined)
  }

  /** The keys of a props object, in order (`Object.keys`). */
  function Keys(props: seq<(string, Prop)>): (ks: seq<string>)
    ensures |ks| == |props|
    ensures forall i :: 0 <= i < |props| ==> ks[i] == props[i].0
  {
    if props == [] then [] else [props[0].0] + Keys(props[1..])
  }

  lemma KeysHas(props: seq<(string, Prop)>, key: string)
    ensures key in Keys(props) <==> Has(props, key)
  {
    if key in Keys(props) {
      var i :| 0 <= i < |Keys(props)| && Keys(props)[i] == key;
      assert props[i].0 == key;
    }
    if Has(props, key) {
      var i :| 0 <= i < |props| && props[i].0 == key;
      assert Keys(props)[i] == key;
    }
  }

  /** Concatenation is associative. */
  lemma Associative<T>(a: seq<T>, b: seq<T>, c: seq<T>)
    ensures (a + b) + c == a + (b + c)
  {
  }

  /** Lookups, keys and membership in a list with one more entry in front. */
  lemma LookupCons(e: (string, Prop), rest: seq<(string, Prop)>)
    ensures forall k :: Lookup([e] + rest, k) == if e.0 == k then Some(e.1) else Lookup(rest, k)
    ensures forall k :: Has([e] + rest, k) <==> e.0 == k || Has(rest, k)
    ensures Keys([e] + rest) == [e.0] + Keys(rest)
  {
    var s := [e] + rest;
    assert s[1..] == rest && s[0] == e;
    forall k ensures Lookup(s, k) == if e.0 == k then Some(e.1) else Lookup(rest, k) {
    }
    forall k ensures Has(s, k) <==> e.0 == k || Has(rest, k) {
      assert Lookup(s, k).Some? <==> Has(s, k);
      assert Lookup(rest, k).Some? <==> Has(rest, k);
    }
  }

  /** The recursive case of `Put`: an entry under another key in front of
      both lists keeps the relation between them. */
  lemma PutStep(e: (string, Prop), tail: seq<(string, Prop)>, key: string, p: Prop, rest: seq<(string, Prop)>)
    requires e.0 != key
    requires Lookup(rest, key) == Some(p)
    requires forall k :: k != key ==> Lookup(rest, k) == Lookup(tail, k)
    requires Keys(rest) == if Has(tail, key) then Keys(tail) else Keys(tail) + [key]
    ensures Lookup([e] + rest, key) == Some(p)
    ensures forall k :: k != key ==> Lookup([e] + rest, k) == Lookup([e] + tail, k)
    ensures Keys([e] + rest) == if Has([e] + tail, key) then Keys([e] + tail) else Keys([e] + tail) + [key]
  {
    LookupCons(e, rest);
    LookupCons(e, tail);
    assert Has([e] + tail, key) == Has(tail, key);
    if !Has(tail, key) {
      Associative([e.0], Keys(tail), [key]);
      assert Keys([e] + rest) == [e.0] + (Keys(tail) + [key]);
    }
  }

  /** `{...props, [key]: p}`: an existing key keeps its position and takes the
      new value; a new key is appended at the end. */
  function Put(props: seq<(string, Prop)>, key: string, p: Prop): (r: seq<(string, Prop)>)
    ensures Lookup(r, key) == Some(p)
    ensures forall k :: k != key ==> Lookup(r, k) == Lookup(props, k)
    ensures Keys(r) == if Has(props, key) then Keys(props) else Keys(props) + [key]
  {
    if props == [] then [(key, p)]
    else
      assert props == [props[0]] + props[1..];
      if props[0].0 == key then
        var rest := Replaced(props[1..], key, p);
        LookupCons(props[0], props[1..]);
        LookupCons((key, p), rest);
        [(key, p)] + rest
      else
        var rest := Put(props[1..], key, p);
        PutStep(props[0], props[1..], key, p, rest);
        [props[0]] + rest
  }

  /** Every entry under `key` takes the value `p`; the order is kept. */
  function Replaced(props: seq<(string, Prop)>, key: string, p: Prop): (r: seq<(string, Prop)>)
    ensures Keys(r) == Keys(props)
    ensures Lookup(r, key) == if Has(props, key) then Some(p) else None
    ensures forall k :: k != key ==> Lookup(r, k) == Lookup(props, k)
  {
    if props == [] then []
    else
      assert props == [props[0]] + props[1..];
      LookupCons(props[0], props[1..]);
      var e := if props[0].0 == key then (key, p) else props[0];
      var rest := Replaced(props[1..], key, p);
      LookupCons(e, rest);
      [e] + rest
  }

  /** `createTextElement(text)` */
  function CreateTextElement(text: Value): (e: Element)
    ensures e.kind == TextElement
    ensures Keys(e.props) == [NodeValueKey, ChildrenKey]
    ensures Get(e.props, NodeValueKey) == Val(text) && Get(e.props, ChildrenKey) == Kids([])
  {
    Element(TextElement, [(NodeValueKey, Val(text)), (ChildrenKey, Kids([]))])
  }

  /** `typeof child === "object"`: elements, and `null`. */
  predicate IsObject(c: Child)
  {
    c.Obj? || c == Plain(Null)
  }

  /** How `createElement` stores one child argument. */
  function WrapChild(c: Child): (node: Node)
  {
    match c
    case Obj(e) => El(e)
    case Plain(v) => if v == Null then Nil else El(CreateTextElement(v))
  }

  /** `createElement(type, props, ...children)`: the given props with
      "children" set to the wrapped children. */
  function CreateElement(kind: ElemType, props: seq<(string, Prop)>, children: seq<Child>): (e: Element)
    ensures e.kind == kind
    ensures Get(e.props, ChildrenKey).Kids?
    ensures var ns := Get(e.props, ChildrenKey).nodes;
      |ns| == |children| &&
      forall i :: 0 <= i < |children| ==>
        (children[i].Obj? ==> ns[i] == El(children[i].e)) &&
        (children[i] == Plain(Null) ==> ns[i] == Nil) &&
        (!IsObject(children[i]) ==> ns[i] == El(CreateTextElement(children[i].v)))
    ensures forall k :: k != ChildrenKey ==> Lookup(e.props, k) == Lookup(props, k)
    ensures Keys(e.props) == if Has(props, ChildrenKey) then Keys(props) else Keys(props) + [ChildrenKey]
  {
    Element(kind, Put(props, ChildrenKey, Kids(seq(|children|, i requires 0 <= i < |children| => WrapChild(children[i])))))
  }

  /** The children array of a props object, when "children" holds one. */
  function ChildrenOf(props: seq<(string, Prop)>): (kids: Option<seq<Node>>)
  {
    match Lookup(props, ChildrenKey)
    case Some(Kids(ns)) => Some(ns)
    case _ => None
  }

  /** No element follows a `null` entry. The reconciler dereferences the fiber
      it built for the previous entry, which does not exist after a `null`. */
  predicate NilsTrailing(ns: seq<Node>)
  {
    forall i, j :: 0 <= i < j < |ns| && ns[i].Nil? ==> ns[j].Nil?
  }

  /** The number of leading non-null entries. */
  function LiveCount(ns: seq<Node>): (n: nat)
    requires NilsTrailing(ns)
    ensures n <= |ns|
    ensures forall i :: 0 <= i < |ns| ==> (ns[i].El? <==> i < n)
  {
    if ns == [] then 0
    else if ns[0].Nil? then 0
    else
      assert NilsTrailing(ns[1..]) by {
        forall i, j | 0 <= i < j < |ns[1..]| && ns[1..][i].Nil? ensures ns[1..][j].Nil? {
          assert ns[i + 1].Nil? && ns[j + 1] == ns[1..][j];
        }
      }
      1 + LiveCount(ns[1..])
  }

  /** The shape every props object reaching the reconciler has: "children" is
      an array, no element follows a `null` in any children array, and every
      nested element's props are well formed too. */
  predicate WellFormedProps(props: seq<(string, Prop)>)
    decreases props, 1
  {
    ChildrenOf(props).Some?
    && forall i :: 0 <= i < |props| ==> WellFormedEntry(props[i])
  }

  predicate WellFormedEntry(entry: (string, Prop))
    decreases entry, 0
  {
    entry.1.Kids? ==>
      NilsTrailing(entry.1.nodes)
      && forall j :: 0 <= j < |entry.1.nodes| ==> WellFormedNode(entry.1.nodes[j])
  }

  predicate WellFormedNode(n: Node)
    decreases n, 2
  {
    n.El? ==> WellFormedProps(n.e.props)
  }

  /** The children of well-formed props are well formed. */
  lemma WellFormedChildren(props: seq<(string, Prop)>)
    requires WellFormedProps(props)
    ensures NilsTrailing(ChildrenOf(props).value)
    ensures forall j :: 0 <= j < |ChildrenOf(props).value| ==> WellFormedNode(ChildrenOf(props).value[j])
  {
    var i :| 0 <= i < |props| && props[i] == (ChildrenKey, Lookup(props, ChildrenKey).value);
    assert WellFormedEntry(props[i]);
  }
}
