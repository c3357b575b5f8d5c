/** What survives the round trip from a parsed value through the tree and
    back through genJson. The tree stores every scalar as text and genJson
    rebuilds every leaf as a JSON string, so the round trip keeps the
    nesting, the array lengths and the member names in order, and turns each
    scalar leaf into a string of its text. It is the identity exactly on
    values whose leaves are all strings. */
module RoundTrip {
  import opened Wrappers
  import opened JsonValue
  import opened TreeItem
  import opened JsonModel

  /** `v` with every scalar leaf replaced by a string of its stored text. */
  function Stringify(v: Json, text: ScalarText): Json {
    match v
    case Array(es) =>
      Array(seq(|es|, i requires 0 <= i < |es| => Stringify(es[i], text)))
    case Object(ms) =>
      Object(seq(|ms|, i requires 0 <= i < |ms| => Member(ms[i].key, Stringify(ms[i].value, text))))
    case _ =>
      String(LeafText(v, text))
  }

  /** Every scalar leaf of `v` is a string. */
  predicate AllStrings(v: Json) {
    match v
    case Array(es) => forall i :: 0 <= i < |es| ==> AllStrings(es[i])
    case Object(ms) => forall i :: 0 <= i < |ms| ==> AllStrings(ms[i].value)
    case _ => v.String?
  }

  /** `a` and `b` nest alike: arrays of equal length, objects with the same
      member names in the same order, and scalars (of any kind) in the same
      places. */
  predicate SameShape(a: Json, b: Json) {
    match a
    case Array(xs) =>
      && b.Array? && |xs| == |b.elems|
      && forall i :: 0 <= i < |xs| ==> SameShape(xs[i], b.elems[i])
    case Object(ms) =>
      && b.Object? && Keys(ms) == Keys(b.members)
      && forall i :: 0 <= i < |ms| ==> SameShape(ms[i].value, b.members[i].value)
    case _ => b.IsScalar()
  }

  /** The round trip: the value genJson rebuilds from a built tree is the
      original value with its scalars turned into strings of their text. */
  lemma {:induction false} RoundTrip(v: Json, key: string, text: ScalarText)
    requires UniqueKeys(v)
    ensures GenJson(LoadChild(v, key, text)) == Stringify(v, text)
    decreases v, 1
  {
    if v.Array? {
      RoundTripArray(v, key, text);
    } else if v.Object? {
      RoundTripObject(v, key, text);
    }
  }

  lemma {:induction false} RoundTripArray(v: Json, key: string, text: ScalarText)
    requires v.Array? && UniqueKeys(v)
    ensures GenJson(LoadChild(v, key, text)) == Stringify(v, text)
    decreases v, 0
  {
    var n := LoadChild(v, key, text);
    var es := v.elems;
    forall i | 0 <= i < |es| ensures GenJson(n.children[i]) == Stringify(es[i], text) {
      LoadedChildAt(v, key, text, i);
      RoundTrip(es[i], Decimal.FromNat(i), text);
    }
    assert GenJson(n).elems == Stringify(v, text).elems;
  }

  lemma {:induction false} RoundTripObject(v: Json, key: string, text: ScalarText)
    requires v.Object? && UniqueKeys(v)
    ensures GenJson(LoadChild(v, key, text)) == Stringify(v, text)
    decreases v, 0
  {
    var n := LoadChild(v, key, text);
    var ms := v.members;
    LoadedChildKeysDistinct(v, key, text);
    var got := Entries(n);
    var want := Stringify(v, text).members;
    forall i | 0 <= i < |ms| ensures got[i] == want[i] {
      LoadedChildAt(v, key, text, i);
      RoundTrip(ms[i].value, ms[i].key, text);
    }
    assert got == want;
  }

  /** Whatever the tree holds, genJson produces a value whose leaves are all
      strings and in which every object has distinct member names: a child
      whose key repeats an earlier sibling's replaces that sibling's value. */
  lemma {:induction false} GenJsonWellFormed(n: Node)
    ensures UniqueKeys(GenJson(n)) && AllStrings(GenJson(n))
  {
    var v := GenJson(n);
    if n.kind == ObjectKind {
      var es := Entries(n);
      forall i | 0 <= i < |v.members| ensures UniqueKeys(v.members[i].value) && AllStrings(v.members[i].value) {
        var j :| 0 <= j < |es| && es[j] == v.members[i];
        GenJsonWellFormed(n.children[j]);
      }
    } else if n.kind == ArrayKind {
      forall i | 0 <= i < |v.elems| ensures UniqueKeys(v.elems[i]) && AllStrings(v.elems[i]) {
        GenJsonWellFormed(n.children[i]);
      }
    }
  }

  /** A value whose leaves are all strings comes back unchanged. */
  lemma {:induction false} StringifyKeepsStrings(v: Json, text: ScalarText)
    requires AllStrings(v)
    ensures Stringify(v, text) == v
  {
    match v
    case Array(es) =>
      forall i | 0 <= i < |es| ensures Stringify(es[i], text) == es[i] {
        StringifyKeepsStrings(es[i], text);
      }
      assert Stringify(v, text).elems == es;
    case Object(ms) =>
      forall i | 0 <= i < |ms| ensures Stringify(ms[i].value, text) == ms[i].value {
        StringifyKeepsStrings(ms[i].value, text);
      }
      assert Stringify(v, text).members == ms;
    case _ =>
  }

  /** Turning leaves into strings keeps the shape. */
  lemma {:induction false} StringifyKeepsShape(v: Json, text: ScalarText)
    ensures SameShape(Stringify(v, text), v)
  {
    var r := Stringify(v, text);
    match v
    case Array(es) =>
      forall i | 0 <= i < |es| ensures SameShape(r.elems[i], es[i]) {
        StringifyKeepsShape(es[i], text);
      }
    case Object(ms) =>
      assert Keys(r.members) == Keys(ms);
      forall i | 0 <= i < |ms| ensures SameShape(r.members[i].value, ms[i].value) {
        StringifyKeepsShape(ms[i].value, text);
      }
    case _ =>
  }

  /** The round trip always keeps array lengths, member names and order,
      and nesting. */
  lemma RoundTripKeepsShape(v: Json, key: string, text: ScalarText)
    requires UniqueKeys(v)
    ensures SameShape(GenJson(LoadChild(v, key, text)), v)
  {
    RoundTrip(v, key, text);
    StringifyKeepsShape(v, text);
  }

  /** The round trip is the identity exactly when every leaf is a string
      and every object has distinct member names. */
  lemma RoundTripExact(v: Json, key: string, text: ScalarText)
    ensures GenJson(LoadChild(v, key, text)) == v <==> AllStrings(v) && UniqueKeys(v)
  {
    GenJsonWellFormed(LoadChild(v, key, text));
    if AllStrings(v) && UniqueKeys(v) {
      RoundTrip(v, key, text);
      StringifyKeepsStrings(v, text);
    }
  }

  /** loadJson followed by json(): the exported document is the parsed one
      with its scalars turned into strings, and equals it exactly when every
      leaf is a string. */
  lemma ExportAfterLoad(m: Model, d: Document, text: ScalarText)
    requires Live(m) && UniqueKeys(d.ToValue())
    ensures LoadJson(m, Some(d), text).model.root.Some?
    ensures JsonDoc(LoadJson(m, Some(d), text).model).ToValue() == Stringify(d.ToValue(), text)
    ensures JsonDoc(LoadJson(m, Some(d), text).model) == d <==> AllStrings(d.ToValue())
  {
    var m' := LoadJson(m, Some(d), text).model;
    RoundTrip(d.ToValue(), RootKey, text);
    RoundTripExact(d.ToValue(), RootKey, text);
    var e := JsonDoc(m');
    assert e.ToValue() == GenJson(m'.root.value);
    if e == d {
      assert e.ToValue() == d.ToValue();
    }
    if e.ToValue() == d.ToValue() {
      match d
      case ArrayDoc(_) =>
      case ObjectDoc(_) =>
    }
  }

  /** Editing the stored text of one node of a built tree and exporting
      gives the same value as replacing that leaf of the original value by
      a string and taking the round trip. */
  lemma {:induction false} EditThenExport(v: Json, key: string, text: ScalarText, path: seq<nat>, s: string)
    requires UniqueKeys(v)
    requires JsonAt(v, path).Some? && JsonAt(v, path).value.IsScalar()
    ensures NodeAt(LoadChild(v, key, text), path).Some?
      && GenJson(SetValueAt(LoadChild(v, key, text), path, s)) == Stringify(ReplaceAt(v, path, String(s)), text)
    decreases |path|, 1
  {
    SubtreesAreLoaded(v, key, text, path);
    if path != [] {
      if v.Array? {
        EditThenExportArray(v, key, text, path, s);
      } else {
        EditThenExportObject(v, key, text, path, s);
      }
    }
  }

  lemma {:induction false} EditThenExportArray(v: Json, key: string, text: ScalarText, path: seq<nat>, s: string)
    requires v.Array? && UniqueKeys(v) && path != []
    requires JsonAt(v, path).Some? && JsonAt(v, path).value.IsScalar()
    requires NodeAt(LoadChild(v, key, text), path).Some?
    ensures GenJson(SetValueAt(LoadChild(v, key, text), path, s)) == Stringify(ReplaceAt(v, path, String(s)), text)
    decreases |path|, 0
  {
    var n := LoadChild(v, key, text);
    var n' := SetValueAt(n, path, s);
    var es := v.elems;
    var i := path[0];
    var want := Stringify(ReplaceAt(v, path, String(s)), text);
    LoadedChildAt(v, key, text, i);
    EditThenExport(es[i], Decimal.FromNat(i), text, path[1..], s);
    forall j | 0 <= j < |es| ensures GenJson(n'.children[j]) == want.elems[j] {
      if j != i {
        LoadedChildAt(v, key, text, j);
        RoundTrip(es[j], Decimal.FromNat(j), text);
      }
    }
    assert GenJson(n').elems == want.elems;
  }

  lemma {:induction false} EditThenExportObject(v: Json, key: string, text: ScalarText, path: seq<nat>, s: string)
    requires v.Object? && UniqueKeys(v) && path != []
    requires JsonAt(v, path).Some? && JsonAt(v, path).value.IsScalar()
    requires NodeAt(LoadChild(v, key, text), path).Some?
    ensures GenJson(SetValueAt(LoadChild(v, key, text), path, s)) == Stringify(ReplaceAt(v, path, String(s)), text)
    decreases |path|, 0
  {
    var n := LoadChild(v, key, text);
    var n' := SetValueAt(n, path, s);
    var ms := v.members;
    var i := path[0];
    var want := Stringify(ReplaceAt(v, path, String(s)), text).members;
    LoadedChildAt(v, key, text, i);
    EditThenExport(ms[i].value, ms[i].key, text, path[1..], s);
    LoadedChildKeysDistinct(v, key, text);
    assert ChildKeys(n') == ChildKeys(n);
    var got := Entries(n');
    forall j | 0 <= j < |ms| ensures got[j] == want[j] {
      if j != i {
        LoadedChildAt(v, key, text, j);
        RoundTrip(ms[j].value, ms[j].key, text);
      }
    }
    assert got == want;
  }

  /** Writing text into an Array or Object node changes nothing genJson
      can see. */
  lemma {:induction false} ContainerValueIsIgnored(root: Node, path: seq<nat>, s: string)
    requires NodeAt(root, path).Some?
    requires NodeAt(root, path).value.kind == ArrayKind || NodeAt(root, path).value.kind == ObjectKind
    ensures GenJson(SetValueAt(root, path, s)) == GenJson(root)
    decreases |path|
  {
    var r := SetValueAt(root, path, s);
    if path == [] {
      assert r.children == root.children;
      assert Entries(r) == Entries(root);
    } else {
      var i := path[0];
      ContainerValueIsIgnored(root.children[i], path[1..], s);
      assert forall j :: 0 <= j < |root.children| ==> GenJson(r.children[j]) == GenJson(root.children[j]);
      if root.kind == ObjectKind {
        assert Entries(r) == Entries(root);
      } else if root.kind == ArrayKind {
        assert GenJson(r).elems == GenJson(root).elems;
      }
    }
  }

  /** loadJson, then a write to a cell the model reports editable, then
      json(): the document is the parsed one with that scalar replaced by
      the written string, taken through the round trip. */
  lemma EditAfterLoadExports(m: Model, d: Document, text: ScalarText, idx: ModelIndex, s: string)
    requires Live(m) && UniqueKeys(d.ToValue())
    requires Belongs(LoadJson(m, Some(d), text).model, idx)
    requires Editable in Flags(LoadJson(m, Some(d), text).model, idx)
    ensures idx.Cell? && JsonAt(d.ToValue(), idx.path).Some?
    ensures SetData(LoadJson(m, Some(d), text).model, idx, s, EditRole).ok
    ensures JsonDoc(SetData(LoadJson(m, Some(d), text).model, idx, s, EditRole).model).ToValue()
      == Stringify(ReplaceAt(d.ToValue(), idx.path, String(s)), text)
  {
    var v := d.ToValue();
    var m1 := LoadJson(m, Some(d), text).model;
    SubtreesAreLoaded(v, RootKey, text, idx.path);
    var w := JsonAt(v, idx.path).value;
    assert ItemAt(m1, idx) == LoadChild(w, ItemAt(m1, idx).key, text);
    EditThenExport(v, RootKey, text, idx.path, s);
  }

  /** setData accepts a write to column 1 of an Array or Object node, which
      flags reports read-only, and the write leaves the exported document
      unchanged. */
  lemma ContainerWriteIsInvisible(m: Model, idx: ModelIndex, s: string)
    requires Belongs(m, idx) && idx.Cell? && idx.column == 1
    requires ItemAt(m, idx).kind == ArrayKind || ItemAt(m, idx).kind == ObjectKind
    ensures Editable !in Flags(m, idx)
    ensures SetData(m, idx, s, EditRole).ok
    ensures JsonDoc(SetData(m, idx, s, EditRole).model) == JsonDoc(m)
  {
    ContainerValueIsIgnored(m.root.value, idx.path, s);
  }
}
