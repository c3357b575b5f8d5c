/** QJsonTreeItem: one node of the editable key/value tree, the builder that
    turns a parsed JSON value into a node hierarchy, and the navigation
    rules (child by row, row of a node) the view adapter relies on.

    A node owns its children in order. Its non-owning parent link is not a
    field: a node is identified by its address, the sequence of child
    positions leading to it from the root, so the parent of the node at
    `p + [i]` is the node at `p`, and the root has address `[]`. */
module TreeItem {
  import opened Wrappers
  import opened JsonValue
  import Decimal

  /** The key every freshly built node starts with. */
  const RootKey: string := "root"

  /** Key, stored value text, declared type and ordered children. */
  datatype Node = Node(key: string, value: string, kind: Kind, children: seq<Node>)

  /** A node made by the constructor with its default arguments: empty key
      and value, no children, type not yet assigned. */
  function NewItem(): Node {
    Node("", "", Unset, [])
  }

  function ChildCount(n: Node): nat {
    |n.children|
  }

  /** QJsonTreeItem::child: the child at `row`, or nothing (a null pointer)
      when `row` is outside [0, childCount). */
  function ChildAt(n: Node, row: int): (r: Option<Node>)
    ensures r.Some? <==> 0 <= row < ChildCount(n)
    ensures r.Some? ==> r.value in n.children
  {
    if 0 <= row < |n.children| then Some(n.children[row]) else None
  }

  /** QJsonTreeItem::load. An object gives one child per member, keyed by
      the member name; an array gives one child per element, keyed by the
      element's decimal index; a scalar gives a leaf holding its text. The
      new node's own key is RootKey, and the type of an object or array node
      is left for the caller to assign. */
  function Load(v: Json, text: ScalarText): (n: Node)
    ensures n.key == RootKey
    ensures v.Object? ==>
      && n.kind == Unset
      && |n.children| == |v.members|
      && forall i :: 0 <= i < |v.members| ==>
           n.children[i].key == v.members[i].key && n.children[i].kind == KindOf(v.members[i].value)
    ensures v.Array? ==>
      && n.kind == Unset
      && |n.children| == |v.elems|
      && forall i :: 0 <= i < |v.elems| ==>
           n.children[i].key == Decimal.FromNat(i) && n.children[i].kind == KindOf(v.elems[i])
    ensures v.IsScalar() ==> n.children == [] && n.kind == KindOf(v) && n.value == LeafText(v, text)
    decreases v, 0
  {
    match v
    case Object(ms) =>
      Node(RootKey, "", Unset, seq(|ms|, i requires 0 <= i < |ms| => LoadChild(ms[i].value, ms[i].key, text)))
    case Array(es) =>
      Node(RootKey, "", Unset, seq(|es|, i requires 0 <= i < |es| => LoadChild(es[i], Decimal.FromNat(i), text)))
    case _ =>
      Node(RootKey, LeafText(v, text), KindOf(v), [])
  }

  /** A child as the builder's loop finishes it: built by Load, then given
      its key and the type of the value it came from. */
  function LoadChild(v: Json, key: string, text: ScalarText): (n: Node)
    ensures n.key == key && n.kind == KindOf(v)
    decreases v, 1
  {
    Load(v, text).(key := key, kind := KindOf(v))
  }

  /** The node at address `path`, if there is one. */
  function NodeAt(root: Node, path: seq<nat>): Option<Node>
    decreases |path|
  {
    if path == [] then Some(root)
    else if path[0] < |root.children| then NodeAt(root.children[path[0]], path[1..])
    else None
  }

  /** Addresses extend one child at a time: the node at `p + [i]` is child
      `i` of the node at `p`. */
  lemma {:induction false} NodeAtSnoc(root: Node, p: seq<nat>, i: nat)
    requires NodeAt(root, p).Some?
    ensures NodeAt(root, p + [i]) == ChildAt(NodeAt(root, p).value, i)
    decreases |p|
  {
    if p != [] {
      assert (p + [i])[0] == p[0] && (p + [i])[1..] == p[1..] + [i];
      NodeAtSnoc(root.children[p[0]], p[1..], i);
    }
  }

  function ParentAddress(path: seq<nat>): seq<nat>
    requires path != []
  {
    path[..|path| - 1]
  }

  /** QJsonTreeItem::row: a node without a parent reports row 0; any other
      node reports its position among its parent's children. */
  function RowOf(root: Node, path: seq<nat>): (r: nat)
    requires NodeAt(root, path).Some?
    ensures path == [] ==> r == 0
    ensures path != [] ==>
      && NodeAt(root, ParentAddress(path)).Some?
      && ChildAt(NodeAt(root, ParentAddress(path)).value, r) == NodeAt(root, path)
  {
    if path == [] then 0
    else
      var last := path[|path| - 1];
      assert path == ParentAddress(path) + [last];
      ParentExists(root, ParentAddress(path), [last]);
      NodeAtSnoc(root, ParentAddress(path), last);
      last
  }

  /** A node's ancestors exist. */
  lemma {:induction false} ParentExists(root: Node, p: seq<nat>, q: seq<nat>)
    requires NodeAt(root, p + q).Some?
    ensures NodeAt(root, p).Some?
    decreases |p|
  {
    if p != [] {
      assert (p + q)[0] == p[0] && (p + q)[1..] == p[1..] + q;
      ParentExists(root.children[p[0]], p[1..], q);
    }
  }

  /** The parent's list of child handles: the addresses of its children.
      Like pointers to distinct items, no two handles are equal, and each
      one leads back to its child. */
  function ChildAddresses(root: Node, parent: seq<nat>): (r: seq<seq<nat>>)
    requires NodeAt(root, parent).Some?
    ensures |r| == ChildCount(NodeAt(root, parent).value)
    ensures Distinct(r)
    ensures forall i :: 0 <= i < |r| ==> NodeAt(root, r[i]) == ChildAt(NodeAt(root, parent).value, i)
    ensures forall i :: 0 <= i < |r| ==> r[i] == parent + [i]
  {
    var n := |NodeAt(root, parent).value.children|;
    var r := seq(n, i requires 0 <= i < n => parent + [i]);
    forall i, j | 0 <= i < j < n ensures r[i] != r[j] {
      assert r[i][|parent|] == i && r[j][|parent|] == j;
    }
    forall i | 0 <= i < n ensures NodeAt(root, r[i]) == ChildAt(NodeAt(root, parent).value, i) {
      NodeAtSnoc(root, parent, i);
    }
    r
  }

  /** QList::indexOf: the first position holding `x`, or -1. */
  method IndexOf<T(==)>(xs: seq<T>, x: T) returns (r: int)
    ensures r == -1 <==> x !in xs
    ensures r != -1 ==> 0 <= r < |xs| && xs[r] == x && x !in xs[..r]
  {
    var i := 0;
    while i < |xs|
      invariant 0 <= i <= |xs|
      invariant x !in xs[..i]
    {
      if xs[i] == x {
        return i;
      }
      assert xs[..i + 1] == xs[..i] + [xs[i]];
      i := i + 1;
    }
    assert xs[..i] == xs;
    return -1;
  }

  /** QJsonTreeItem::row as the source computes it: search the parent's
      child list for this node's handle. */
  method Row(root: Node, path: seq<nat>) returns (r: int)
    requires NodeAt(root, path).Some?
    ensures path == [] ==> r == 0
    ensures path != [] ==> r == path[|path| - 1]
    ensures r == RowOf(root, path)
  {
    if path == [] {
      return 0;
    }
    var parent := ParentAddress(path);
    assert path == parent + [path[|path| - 1]];
    ParentExists(root, parent, [path[|path| - 1]]);
    var siblings := ChildAddresses(root, parent);
    NodeAtSnoc(root, parent, path[|path| - 1]);
    r := IndexOf(siblings, path);
    assert siblings[path[|path| - 1]] == path;
  }

  function ChildKeys(n: Node): (ks: seq<string>)
    ensures |ks| == |n.children|
    ensures forall i :: 0 <= i < |ks| ==> ks[i] == n.children[i].key
  {
    seq(|n.children|, i requires 0 <= i < |n.children| => n.children[i].key)
  }

  /** Child `i` of a built node is the child the builder makes of element
      or member `i`. */
  lemma LoadedChildAt(v: Json, key: string, text: ScalarText, i: nat)
    requires i < Arity(v)
    ensures v.Array? ==> LoadChild(v, key, text).children[i] == LoadChild(v.elems[i], Decimal.FromNat(i), text)
    ensures v.Object? ==> LoadChild(v, key, text).children[i] == LoadChild(v.members[i].value, v.members[i].key, text)
  {
    assert LoadChild(v, key, text).children == Load(v, text).children;
  }

  /** Every subtree of a built tree is what the builder makes of the value
      at the same address, keyed as its parent keyed it: the tree has a
      node exactly where the value has an element or member. */
  lemma {:induction false} SubtreesAreLoaded(v: Json, key: string, text: ScalarText, path: seq<nat>)
    ensures NodeAt(LoadChild(v, key, text), path).Some? <==> JsonAt(v, path).Some?
    ensures JsonAt(v, path).Some? ==>
      var n := NodeAt(LoadChild(v, key, text), path).value;
      n == LoadChild(JsonAt(v, path).value, n.key, text)
    decreases |path|
  {
    if path != [] {
      var i := path[0];
      var n := LoadChild(v, key, text);
      match v
      case Array(es) =>
        if i < |es| {
          LoadedChildAt(v, key, text, i);
          SubtreesAreLoaded(es[i], Decimal.FromNat(i), text, path[1..]);
        }
      case Object(ms) =>
        if i < |ms| {
          LoadedChildAt(v, key, text, i);
          SubtreesAreLoaded(ms[i].value, ms[i].key, text, path[1..]);
        }
      case _ =>
    }
  }

  /** The node a built tree has at an address shows the value at that
      address: its type is the value's kind, it has one child per element
      or member, and a leaf holds the value's text. */
  lemma LoadedNodeMirrorsValue(v: Json, key: string, text: ScalarText, path: seq<nat>)
    requires NodeAt(LoadChild(v, key, text), path).Some?
    ensures JsonAt(v, path).Some?
    ensures
      var n := NodeAt(LoadChild(v, key, text), path).value;
      var w := JsonAt(v, path).value;
      && n.kind == KindOf(w)
      && |n.children| == Arity(w)
      && (w.IsScalar() ==> n.value == LeafText(w, text))
  {
    SubtreesAreLoaded(v, key, text, path);
  }

  /** The children of a built node carry pairwise distinct keys: distinct
      decimal indices for an array, distinct member names for an object. */
  lemma LoadedChildKeysDistinct(v: Json, key: string, text: ScalarText)
    requires UniqueKeys(v)
    ensures Distinct(ChildKeys(LoadChild(v, key, text)))
  {
    var ks := ChildKeys(LoadChild(v, key, text));
    match v
    case Array(es) =>
      forall i, j | 0 <= i < j < |ks| ensures ks[i] != ks[j] {
        Decimal.FromNatInjective(i, j);
      }
    case Object(ms) =>
      assert ks == Keys(ms);
    case _ =>
  }

  /** The same holds at every node of a built tree. */
  lemma LoadedSiblingKeysDistinct(v: Json, key: string, text: ScalarText, path: seq<nat>)
    requires UniqueKeys(v)
    requires NodeAt(LoadChild(v, key, text), path).Some?
    ensures Distinct(ChildKeys(NodeAt(LoadChild(v, key, text), path).value))
  {
    SubtreesAreLoaded(v, key, text, path);
    var n := NodeAt(LoadChild(v, key, text), path).value;
    UniqueKeysAt(v, path);
    LoadedChildKeysDistinct(JsonAt(v, path).value, n.key, text);
  }
}
