/**
  * The types the mapper knows, the values they have, and the reflection data registered for a
  * struct. Types are finite trees, so no type contains itself.
  */
module Schema {
  import opened Text

  datatype Type =
    | TBool
    | TInt(lo: int, hi: int)
    | TString
    | TStruct(tag: string, fields: seq<Field>)
    | TArray(elem: Type)
    | TMap(elem: Type)

  /** A registered member with its options; `initial` is its value in a fresh struct. */
  datatype Field = Field(
    name: string, ty: Type, optional: bool, required: bool, notEmpty: bool,
    bounds: Option<(int, int)>, default: Option<Value>, initial: Value)

  /** `VAbsent` is an empty optional. A map keeps its entries in key order, as `std::map` does. */
  datatype Value =
    | VBool(b: bool)
    | VInt(n: int)
    | VString(s: string)
    | VAbsent
    | VStruct(members: seq<Value>)
    | VArray(items: seq<Value>)
    | VMap(entries: seq<Entry>)

  datatype Entry = Entry(key: string, value: Value)

  predicate IsScalar(ty: Type) {
    ty.TBool? || ty.TInt? || ty.TString?
  }

  // ---------- Keys ----------

  /** Lexicographic order of keys. */
  predicate KeyLess(a: string, b: string) {
    b != "" && (a == "" || a[0] < b[0] || (a[0] == b[0] && KeyLess(a[1..], b[1..])))
  }

  lemma {:induction false} KeyLessTransitive(a: string, b: string, c: string)
    requires KeyLess(a, b) && KeyLess(b, c)
    ensures KeyLess(a, c)
  {
    if a != "" && a[0] == b[0] && b[0] == c[0] {
      KeyLessTransitive(a[1..], b[1..], c[1..]);
    }
  }

  lemma {:induction false} KeyLessTotal(a: string, b: string)
    ensures KeyLess(a, b) || a == b || KeyLess(b, a)
    ensures !(KeyLess(a, b) && KeyLess(b, a)) && !KeyLess(a, a)
  {
    if a != "" && b != "" && a[0] == b[0] {
      KeyLessTotal(a[1..], b[1..]);
    }
    if a != "" {
      KeyLessTotal(a[1..], a[1..]);
    }
  }

  /** Where keys first differ the smaller character decides, and a key comes before what extends it. */
  lemma {:induction false} KeyOrder(common: string, x: char, y: char, a: string, b: string)
    ensures KeyLess(common + [x] + a, common + [y] + b) <==> x < y || (x == y && KeyLess(a, b))
    ensures KeyLess(common, common + [x] + a) && !KeyLess(common + [x] + a, common)
    decreases |common|
  {
    if common == "" {
      assert common + [x] + a == [x] + a && common + [y] + b == [y] + b;
      assert ([x] + a)[1..] == a && ([y] + b)[1..] == b;
    } else {
      assert (common + [x] + a)[1..] == common[1..] + [x] + a;
      assert (common + [y] + b)[1..] == common[1..] + [y] + b;
      KeyOrder(common[1..], x, y, a, b);
    }
  }

  ghost predicate Ascending(es: seq<Entry>) {
    forall i, j | 0 <= i < j < |es| :: KeyLess(es[i].key, es[j].key)
  }

  /** Where `key` is, or where it has to be inserted. */
  function Locate(es: seq<Entry>, key: string): (k: nat)
    ensures k <= |es|
    ensures forall i | 0 <= i < k :: KeyLess(es[i].key, key)
    ensures k < |es| ==> !KeyLess(es[k].key, key)
  {
    if es == [] || !KeyLess(es[0].key, key) then 0 else 1 + Locate(es[1..], key)
  }

  predicate Holds(es: seq<Entry>, key: string) {
    var k := Locate(es, key);
    k < |es| && es[k].key == key
  }

  /** `std::map::insert`: an existing binding stays. */
  function Insert(es: seq<Entry>, key: string, v: Value): seq<Entry> {
    var k := Locate(es, key);
    if Holds(es, key) then es else es[..k] + [Entry(key, v)] + es[k..]
  }

  lemma InsertAscending(es: seq<Entry>, key: string, v: Value)
    requires Ascending(es)
    ensures Ascending(Insert(es, key, v))
    ensures var k := Locate(es, key); k < |Insert(es, key, v)| && Insert(es, key, v)[k].key == key
  {
    var k := Locate(es, key);
    if !Holds(es, key) {
      var r := Insert(es, key, v);
      forall i, j | 0 <= i < j < |r| ensures KeyLess(r[i].key, r[j].key) {
        if k < |es| {
          KeyLessTotal(es[k].key, key);
        }
        if i == k && k < |es| && j > k + 1 {
          KeyLessTransitive(key, es[k].key, es[j - 1].key);
        }
        if i < k && j > k {
          assert r[j] == es[j - 1];
        }
      }
    }
  }

  // ---------- Typing ----------

  ghost predicate HasType(ty: Type, v: Value)
    decreases ty
  {
    match ty
    case TBool => v.VBool?
    case TInt(lo, hi) => v.VInt? && lo <= v.n <= hi
    case TString => v.VString?
    case TStruct(_, fields) =>
      && v.VStruct? && |v.members| == |fields|
      && forall i | 0 <= i < |fields| :: FieldHolds(fields[i], v.members[i])
    case TArray(elem) => v.VArray? && forall x | x in v.items :: HasType(elem, x)
    case TMap(elem) => v.VMap? && Ascending(v.entries) && forall e | e in v.entries :: HasType(elem, e.value)
  }

  ghost predicate FieldHolds(f: Field, v: Value)
    decreases f
  {
    (f.optional && v.VAbsent?) || HasType(f.ty, v)
  }

  /** What registration enforces, and what value initialisation gives. */
  ghost predicate Wf(ty: Type)
    decreases ty
  {
    match ty
    case TInt(lo, hi) => IsLongLong(lo) && IsLongLong(hi) && lo <= 0 <= hi
    case TStruct(_, fields) =>
      && (forall i, j | 0 <= i < j < |fields| :: fields[i].name != fields[j].name)
      && forall i | 0 <= i < |fields| :: WfField(fields[i])
    case TArray(elem) => Wf(elem)
    case TMap(elem) => Wf(elem)
    case _ => true
  }

  ghost predicate WfField(f: Field)
    decreases f
  {
    && Wf(f.ty)
    && (f.optional ==> IsScalar(f.ty) && !f.required)
    && (f.notEmpty ==> f.ty.TString? || f.ty.TArray? || f.ty.TMap?)
    && (f.bounds.Some? ==> f.ty.TInt?)
    && (f.default.Some? ==> HasType(f.ty, f.default.value))
    && FieldHolds(f, f.initial)
  }

  /** `T{}`. */
  function Fresh(ty: Type): Value {
    match ty
    case TBool => VBool(false)
    case TInt(_, _) => VInt(0)
    case TString => VString("")
    case TStruct(_, fields) => VStruct(seq(|fields|, i requires 0 <= i < |fields| => fields[i].initial))
    case TArray(_) => VArray([])
    case TMap(_) => VMap([])
  }

  lemma FreshHasType(ty: Type)
    requires Wf(ty)
    ensures HasType(ty, Fresh(ty))
  {
  }

  /** The index under which `members_name_index` finds a name. */
  function FindField(fields: seq<Field>, name: string): (r: Option<nat>)
    ensures r.Some? ==> r.value < |fields| && fields[r.value].name == name
    ensures r.None? ==> forall i | 0 <= i < |fields| :: fields[i].name != name
  {
    if fields == [] then None
    else if fields[0].name == name then Some(0)
    else match FindField(fields[1..], name)
      case None => None
      case Some(i) => Some(i + 1)
  }
}
