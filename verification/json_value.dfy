/** The parsed JSON values the tree is built from and rebuilt into: Qt's
    QJsonValue, QJsonArray, QJsonObject and QJsonDocument, as far as the
    tree builder and its inverse use them. */
module JsonValue {
  import opened Wrappers

  /** A JSON value of one of the six kinds of section 3 of RFC 8259. A double
      is modelled as a real; an object as its members in iteration order. */
  datatype Json =
    | Null
    | Bool(b: bool)
    | Double(d: real)
    | String(s: string)
    | Array(elems: seq<Json>)
    | Object(members: seq<Member>)
  {
    predicate IsScalar() {
      !Array? && !Object?
    }
  }

  datatype Member = Member(key: string, value: Json)

  /** QJsonValue::Type. `Unset` stands for the indeterminate value of a tree
      item's type member before anything assigns it. */
  datatype Kind = NullKind | BoolKind | DoubleKind | StringKind | ArrayKind | ObjectKind | Unset

  function KindOf(v: Json): Kind {
    match v
    case Null => NullKind
    case Bool(_) => BoolKind
    case Double(_) => DoubleKind
    case String(_) => StringKind
    case Array(_) => ArrayKind
    case Object(_) => ObjectKind
  }

  /** A parsed document: QJsonDocument holds an array or an object. */
  datatype Document = ArrayDoc(elems: seq<Json>) | ObjectDoc(members: seq<Member>)
  {
    function ToValue(): Json {
      match this
      case ArrayDoc(es) => Array(es)
      case ObjectDoc(ms) => Object(ms)
    }
  }

  /** What `QJsonValue::toVariant().toString()` gives for a null, boolean or
      double. Qt's number formatting is not part of this model, so the
      conversion is a parameter of every operation that needs it. */
  type ScalarText = Json -> string

  /** The text stored for a scalar: a string is kept verbatim, any other
      scalar goes through the conversion. */
  function LeafText(v: Json, text: ScalarText): string
    requires v.IsScalar()
  {
    if v.String? then v.s else text(v)
  }

  predicate Distinct<T(==)>(s: seq<T>) {
    forall i, j :: 0 <= i < j < |s| ==> s[i] != s[j]
  }

  function Keys(ms: seq<Member>): (ks: seq<string>)
    ensures |ks| == |ms|
    ensures forall i :: 0 <= i < |ms| ==> ks[i] == ms[i].key
  {
    seq(|ms|, i requires 0 <= i < |ms| => ms[i].key)
  }

  /** Every object inside `v` has pairwise distinct member names, as every
      QJsonObject does. */
  predicate UniqueKeys(v: Json) {
    match v
    case Array(es) => forall i :: 0 <= i < |es| ==> UniqueKeys(es[i])
    case Object(ms) => Distinct(Keys(ms)) && forall i :: 0 <= i < |ms| ==> UniqueKeys(ms[i].value)
    case _ => true
  }

  /** QJsonObject::value: the value stored under `k`, if any. */
  function Lookup(ms: seq<Member>, k: string): (r: Option<Json>)
    ensures r.Some? <==> k in Keys(ms)
  {
    if ms == [] then None
    else if ms[0].key == k then Some(ms[0].value)
    else Lookup(ms[1..], k)
  }

  /** QJsonObject::insert, modelled on list order: a member already named
      `k` has its value replaced where it stands; otherwise the new member
      is appended (Qt places it at its key-sorted position instead). */
  function Insert(ms: seq<Member>, k: string, v: Json): (r: seq<Member>)
    ensures k !in Keys(ms) ==> r == ms + [Member(k, v)]
    ensures k in Keys(ms) ==> Keys(r) == Keys(ms)
    ensures Lookup(r, k) == Some(v)
    ensures Distinct(Keys(ms)) ==> Distinct(Keys(r))
    ensures forall i :: 0 <= i < |r| ==> r[i] in ms || r[i] == Member(k, v)
  {
    if ms == [] then [Member(k, v)]
    else if ms[0].key == k then
      var r := [Member(k, v)] + ms[1..];
      assert ms == [ms[0]] + ms[1..];
      KeysCons(Member(k, v), ms[1..]);
      KeysCons(ms[0], ms[1..]);
      assert r[0].key == k;
      r
    else
      var rest := Insert(ms[1..], k, v);
      var r := [ms[0]] + rest;
      KeysCons(ms[0], ms[1..]);
      KeysCons(ms[0], rest);
      assert r[0] == ms[0] && r[1..] == rest;
      assert Lookup(r, k) == Lookup(rest, k);
      assert ms == [ms[0]] + ms[1..];
      DistinctCons(ms[0].key, Keys(ms[1..]));
      DistinctCons(ms[0].key, Keys(rest));
      if k in Keys(ms[1..]) then
        assert Keys(r) == Keys(ms);
        r
      else
        KeysSnoc(ms[1..], Member(k, v));
        ConsSnoc(ms[0], ms[1..], Member(k, v));
        r
  }

  /** The object built by inserting the given members one after another
      into an empty object. Its member names are distinct whatever the
      input's are, and a member list whose names are already distinct is
      rebuilt unchanged. */
  function InsertAll(ms: seq<Member>): (r: seq<Member>)
    ensures Distinct(Keys(r))
    ensures |r| <= |ms|
    ensures forall i :: 0 <= i < |r| ==> r[i] in ms
    ensures Distinct(Keys(ms)) ==> r == ms
  {
    if ms == [] then []
    else
      var prefix := ms[..|ms| - 1];
      var last := ms[|ms| - 1];
      KeysSnoc(prefix, last);
      assert ms == prefix + [last];
      DistinctSnoc(Keys(prefix), last.key);
      Insert(InsertAll(prefix), last.key, last.value)
  }

  lemma DistinctSnoc<T>(s: seq<T>, x: T)
    ensures Distinct(s + [x]) ==> Distinct(s) && x !in s
  {
    if Distinct(s + [x]) {
      forall i, j | 0 <= i < j < |s| ensures s[i] != s[j] {
        assert (s + [x])[i] == s[i] && (s + [x])[j] == s[j];
      }
      forall i | 0 <= i < |s| ensures s[i] != x {
        assert (s + [x])[i] == s[i] && (s + [x])[|s|] == x;
      }
    }
  }

  /** Inserting under one name leaves what every other name reads unchanged. */
  lemma {:induction false} InsertKeepsOtherKeys(ms: seq<Member>, k: string, v: Json, k': string)
    requires k' != k
    ensures Lookup(Insert(ms, k, v), k') == Lookup(ms, k')
  {
    if ms != [] && ms[0].key != k {
      var rest := Insert(ms[1..], k, v);
      assert Insert(ms, k, v) == [ms[0]] + rest;
      assert ([ms[0]] + rest)[1..] == rest;
      InsertKeepsOtherKeys(ms[1..], k, v, k');
    } else if ms != [] {
      assert Insert(ms, k, v)[1..] == ms[1..];
    }
  }

  lemma KeysSnoc(ms: seq<Member>, m: Member)
    ensures Keys(ms + [m]) == Keys(ms) + [m.key]
  {
    var a := Keys(ms + [m]);
    var b := Keys(ms) + [m.key];
    forall i | 0 <= i < |a| ensures a[i] == b[i] {
      if i < |ms| { assert (ms + [m])[i] == ms[i]; }
    }
  }

  lemma DistinctCons<T>(x: T, s: seq<T>)
    ensures Distinct([x] + s) <==> x !in s && Distinct(s)
  {
    if x !in s && Distinct(s) {
      forall i, j | 0 <= i < j < |[x] + s| ensures ([x] + s)[i] != ([x] + s)[j] {
        if i > 0 { assert ([x] + s)[i] == s[i - 1]; }
        assert ([x] + s)[j] == s[j - 1];
      }
    }
    if Distinct([x] + s) {
      forall i, j | 0 <= i < j < |s| ensures s[i] != s[j] {
        assert s[i] == ([x] + s)[i + 1] && s[j] == ([x] + s)[j + 1];
      }
      forall j | 0 <= j < |s| ensures s[j] != x {
        assert ([x] + s)[0] == x && ([x] + s)[j + 1] == s[j];
      }
    }
  }

  lemma ConsSnoc<T>(a: T, s: seq<T>, b: T)
    ensures [a] + (s + [b]) == ([a] + s) + [b]
  {
  }

  lemma KeysCons(m: Member, ms: seq<Member>)
    ensures Keys([m] + ms) == [m.key] + Keys(ms)
    ensures ([m] + ms)[1..] == ms
  {
    var a := Keys([m] + ms);
    var b := [m.key] + Keys(ms);
    forall i | 0 <= i < |a| ensures a[i] == b[i] {
      if i > 0 { assert ([m] + ms)[i] == ms[i - 1]; }
    }
  }

  /** The value reached from `v` by taking, at each step, the element or
      member at the given position. */
  function JsonAt(v: Json, path: seq<nat>): Option<Json>
    decreases |path|
  {
    if path == [] then Some(v)
    else match v
      case Array(es) => if path[0] < |es| then JsonAt(es[path[0]], path[1..]) else None
      case Object(ms) => if path[0] < |ms| then JsonAt(ms[path[0]].value, path[1..]) else None
      case _ => None
  }

  /** Objects inside an object-key-unique value are themselves key-unique. */
  lemma {:induction false} UniqueKeysAt(v: Json, path: seq<nat>)
    requires UniqueKeys(v) && JsonAt(v, path).Some?
    ensures UniqueKeys(JsonAt(v, path).value)
    decreases |path|
  {
    if path != [] {
      match v
      case Array(es) => UniqueKeysAt(es[path[0]], path[1..]);
      case Object(ms) => UniqueKeysAt(ms[path[0]].value, path[1..]);
    }
  }

  /** `v` with the value at `path` replaced by `w`; every key and every
      other value stays where it was. */
  function ReplaceAt(v: Json, path: seq<nat>, w: Json): (r: Json)
    requires JsonAt(v, path).Some?
    ensures JsonAt(r, path) == Some(w)
    ensures path != [] ==> KindOf(r) == KindOf(v)
    ensures path != [] && v.Object? ==> Keys(r.members) == Keys(v.members)
    ensures path != [] && v.Array? ==> |r.elems| == |v.elems|
    decreases |path|
  {
    if path == [] then w
    else match v
      case Array(es) =>
        var i := path[0];
        var r := Array(es[i := ReplaceAt(es[i], path[1..], w)]);
        assert JsonAt(r, path) == JsonAt(r.elems[i], path[1..]);
        r
      case Object(ms) =>
        var i := path[0];
        var r := Object(ms[i := Member(ms[i].key, ReplaceAt(ms[i].value, path[1..], w))]);
        assert JsonAt(r, path) == JsonAt(r.members[i].value, path[1..]);
        assert Keys(r.members) == Keys(ms);
        r
  }

  /** The number of elements or members; 0 for a scalar. */
  function Arity(v: Json): nat {
    match v
    case Array(es) => |es|
    case Object(ms) => |ms|
    case _ => 0
  }
}
