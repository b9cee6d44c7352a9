/**
  * The document of an object, and mapping it back.
  */
module ObjectRoundTrip {
  import opened Text
  import opened Documents
  import opened Schema
  import opened Cursor
  import opened Mapping
  import opened MemberLaws
  import opened ContainerLaws

  /** What the traversal of an object visits. */
  function Doc(ty: Type, v: Value): Json
    requires HasType(ty, v)
    decreases v, 1, 0
  {
    match ty
    case TBool => JBool(v.b)
    case TInt(_, _) => JInt(v.n)
    case TString => JString(v.s)
    case TStruct(_, _) => JNode(Struct, MemberDocs(ty, v, 0))
    case TArray(elem) => JNode(Array, ItemDocs(elem, v.items))
    case TMap(elem) => JNode(Struct, EntryDocs(elem, v.entries))
  }

  function FieldDoc(f: Field, v: Value): Json
    requires FieldHolds(f, v)
    decreases v, 2, 0
  {
    if v.VAbsent? then JNull else Doc(f.ty, v)
  }

  /** The members from `k` on. */
  function MemberDocs(ty: Type, v: Value, k: nat): Kids
    requires ty.TStruct? && HasType(ty, v) && k <= |ty.fields|
    decreases v, 0, |ty.fields| - k
  {
    if k == |ty.fields| then Nil
    else Cons(ty.fields[k].name, FieldDoc(ty.fields[k], v.members[k]), MemberDocs(ty, v, k + 1))
  }

  function ItemDocs(elem: Type, items: seq<Value>): Kids
    requires forall x | x in items :: HasType(elem, x)
    decreases items
  {
    if items == [] then Nil else Cons("", Doc(elem, items[0]), ItemDocs(elem, items[1..]))
  }

  function EntryDocs(elem: Type, entries: seq<Entry>): Kids
    requires forall e | e in entries :: HasType(elem, e.value)
    decreases entries
  {
    if entries == [] then Nil
    else Cons(entries[0].key, Doc(elem, entries[0].value), EntryDocs(elem, entries[1..]))
  }

  /** The `k`-th child, if there are that many. */
  function KidAt(kids: Kids, k: nat): Option<(string, Json)> {
    match kids
    case Nil => None
    case Cons(name, value, rest) => if k == 0 then Some((name, value)) else KidAt(rest, k - 1)
  }

  /**
    * A struct is visited member by member as registered, absent optionals as nulls; an array element by
    * element without names; a map by ascending keys.
    */
  lemma DocumentOrder(ty: Type, v: Value, k: nat)
    requires HasType(ty, v) && !IsScalar(ty)
    ensures ty.TStruct? ==>
              KidAt(Doc(ty, v).kids, k)
              == if k >= |ty.fields| then None
                 else (assert FieldHolds(ty.fields[k], v.members[k]);
                       Some((ty.fields[k].name,
                             if v.members[k] == VAbsent then JNull else Doc(ty.fields[k].ty, v.members[k]))))
    ensures ty.TArray? ==>
              KidAt(Doc(ty, v).kids, k) == if k >= |v.items| then None else Some(("", Doc(ty.elem, v.items[k])))
    ensures ty.TMap? ==>
              && (KidAt(Doc(ty, v).kids, k)
                  == if k >= |v.entries| then None else Some((v.entries[k].key, Doc(ty.elem, v.entries[k].value))))
              && (0 < k < |v.entries| ==> KeyLess(v.entries[k - 1].key, v.entries[k].key))
  {
    match ty
    case TStruct(_, _) => MemberAt(ty, v, 0, k);
    case TArray(elem) => ItemAt(elem, v.items, k);
    case TMap(elem) => EntryAt(elem, v.entries, k);
  }

  lemma {:induction false} MemberAt(ty: Type, v: Value, from: nat, k: nat)
    requires ty.TStruct? && HasType(ty, v) && from <= |ty.fields|
    ensures KidAt(MemberDocs(ty, v, from), k)
         == if from + k >= |ty.fields| then None
            else Some((ty.fields[from + k].name, FieldDoc(ty.fields[from + k], v.members[from + k])))
    decreases |ty.fields| - from
  {
    if from < |ty.fields| && k > 0 {
      MemberAt(ty, v, from + 1, k - 1);
    }
  }

  lemma {:induction false} ItemAt(elem: Type, items: seq<Value>, k: nat)
    requires forall x | x in items :: HasType(elem, x)
    ensures KidAt(ItemDocs(elem, items), k) == if k >= |items| then None else Some(("", Doc(elem, items[k])))
  {
    if items != [] && k > 0 {
      ItemAt(elem, items[1..], k - 1);
    }
  }

  lemma {:induction false} EntryAt(elem: Type, entries: seq<Entry>, k: nat)
    requires forall e | e in entries :: HasType(elem, e.value)
    ensures KidAt(EntryDocs(elem, entries), k)
         == if k >= |entries| then None else Some((entries[k].key, Doc(elem, entries[k].value)))
  {
    if entries != [] && k > 0 {
      EntryAt(elem, entries[1..], k - 1);
    }
  }

  /** What an entry is mapped onto: the value its key has already, else a fresh one. */
  function Base(elem: Type, found: Option<Value>): (r: Value)
    requires Wf(elem) && (found.Some? ==> HasType(elem, found.value))
    ensures HasType(elem, r)
  {
    FreshHasType(elem);
    if found.Some? then found.value else Fresh(elem)
  }

  /**
    * `v` can be rebuilt on top of `t`: an absent member has no default and is absent in `t` too, no
    * declared check rejects a value of `v`, sequences of `t` are empty, and maps of `t` hold no other
    * keys than those of `v`, with values that are the same or, when they are objects, can be rebuilt on.
    */
  predicate Restores(ty: Type, v: Value, t: Value)
    requires HasType(ty, v) && HasType(ty, t) && Wf(ty)
    decreases v, 0
  {
    match ty
    case TStruct(_, fields) =>
      forall i | 0 <= i < |fields| :: FieldRestores(fields[i], v.members[i], t.members[i])
    case TArray(elem) =>
      FreshHasType(elem);
      t.items == [] && (IsScalar(elem) || forall x | x in v.items :: Restores(elem, x, Fresh(elem)))
    case TMap(elem) =>
      && (forall e | e in t.entries :: Lookup(v.entries, e.key).Some?)
      && forall e | e in v.entries :: EntryRestores(elem, Lookup(t.entries, e.key), e.value)
    case _ => true
  }

  predicate EntryRestores(elem: Type, found: Option<Value>, x: Value)
    requires Wf(elem) && HasType(elem, x) && (found.Some? ==> HasType(elem, found.value))
    decreases x, 1
  {
    if IsScalar(elem) then found.Some? ==> found.value == x else Restores(elem, x, Base(elem, found))
  }

  predicate FieldRestores(f: Field, v: Value, t: Value)
    requires FieldHolds(f, v) && FieldHolds(f, t) && WfField(f)
    decreases v, 1
  {
    && (f.notEmpty ==> !IsEmptyValue(v))
    && if v.VAbsent? then t.VAbsent? && f.default.None?
       else if IsScalar(f.ty) then v.VInt? && f.bounds.Some? ==> f.bounds.value.0 <= v.n <= f.bounds.value.1
       else Restores(f.ty, v, t)
  }

  // ---------- The document of an object finds its way ----------

  lemma {:induction false} DocRoutable(ty: Type, v: Value)
    requires Wf(ty) && HasType(ty, v) && !IsScalar(ty)
    ensures Doc(ty, v).JNode? && Routable(ty, Doc(ty, v).kids)
    decreases v
  {
    match ty
    case TStruct(_, _) => MembersRoutable(ty, v, 0);
    case TArray(elem) => ItemsRoutable(elem, v.items);
    case TMap(elem) => EntriesRoutable(elem, v.entries);
  }

  lemma {:induction false} MembersRoutable(ty: Type, v: Value, k: nat)
    requires ty.TStruct? && Wf(ty) && HasType(ty, v) && k <= |ty.fields|
    ensures Routable(ty, MemberDocs(ty, v, k))
    decreases v, |ty.fields| - k
  {
    if k < |ty.fields| {
      var f := ty.fields[k];
      assert WfField(f) && FieldHolds(f, v.members[k]);
      MembersRoutable(ty, v, k + 1);
      FindRegistered(ty, k);
      var j := FieldDoc(f, v.members[k]);
      if !v.members[k].VAbsent? && !IsScalar(f.ty) {
        DocRoutable(f.ty, v.members[k]);
        assert NestedType(ty, f.name) == Some(f.ty);
      } else {
        assert j == if v.members[k].VAbsent? then JNull else Doc(f.ty, v.members[k]);
      }
      assert MemberDocs(ty, v, k) == Cons(f.name, j, MemberDocs(ty, v, k + 1));
    }
  }

  lemma {:induction false} ItemsRoutable(elem: Type, items: seq<Value>)
    requires Wf(elem) && forall x | x in items :: HasType(elem, x)
    ensures Routable(TArray(elem), ItemDocs(elem, items))
    decreases items
  {
    if items != [] {
      ItemsRoutable(elem, items[1..]);
      if !IsScalar(elem) {
        DocRoutable(elem, items[0]);
      }
    }
  }

  lemma {:induction false} EntriesRoutable(elem: Type, entries: seq<Entry>)
    requires Wf(elem) && forall e | e in entries :: HasType(elem, e.value)
    ensures Routable(TMap(elem), EntryDocs(elem, entries))
    decreases entries
  {
    if entries != [] {
      EntriesRoutable(elem, entries[1..]);
      if !IsScalar(elem) {
        DocRoutable(elem, entries[0].value);
      }
    }
  }

  // ---------- Mapping the document of an object back ----------

  /** What mapping one member's document does to the member. */
  function FieldMap(f: Field, v: Value, t: Value): (r: Result<Value>)
    requires WfField(f) && FieldHolds(f, v) && FieldHolds(f, t)
    ensures r.Ok? ==> FieldHolds(f, r.value)
  {
    if v.VAbsent? then Ok(t)
    else if IsScalar(f.ty) then ConvertMember(f, ScalarOfJson(Doc(f.ty, v)))
    else
      DocRoutable(f.ty, v);
      MapNode(f.ty, t, Doc(f.ty, v).kids)
  }

  ghost predicate FieldsMap(ty: Type, v: Value, o: Value, k: nat)
    requires ty.TStruct? && Wf(ty) && HasType(ty, v) && HasType(ty, o)
  {
    forall i | k <= i < |ty.fields| :: FieldMap(ty.fields[i], v.members[i], o.members[i]).Ok?
  }

  /** One member's document, and then those of the members after it. */
  lemma MemberStep(ty: Type, v: Value, o: Value, changed: set<nat>, k: nat)
    requires ty.TStruct? && Wf(ty) && HasType(ty, v) && HasType(ty, o) && k < |ty.fields|
    ensures Routable(ty, MemberDocs(ty, v, k)) && Routable(ty, MemberDocs(ty, v, k + 1))
    ensures var r := FieldMap(ty.fields[k], v.members[k], o.members[k]);
            if r.Err? then MapKids(ty, o, changed, MemberDocs(ty, v, k)) == Stopped(r.error)
            else
              var o' := VStruct(o.members[k := r.value]);
              && HasType(ty, o')
              && MapKids(ty, o, changed, MemberDocs(ty, v, k))
                 == MapKids(ty, o', if v.members[k].VAbsent? then changed else changed + {k}, MemberDocs(ty, v, k + 1))
  {
    MembersRoutable(ty, v, k);
    MembersRoutable(ty, v, k + 1);
    FindRegistered(ty, k);
    var f := ty.fields[k];
    assert WfField(f) && FieldHolds(f, v.members[k]) && FieldHolds(f, o.members[k]);
    var r := FieldMap(f, v.members[k], o.members[k]);
    if r.Ok? {
      SetMemberHasType(ty, o, k, r.value);
    }
    assert FieldDoc(f, v.members[k]) == if v.members[k].VAbsent? then JNull else Doc(f.ty, v.members[k]);
    if v.members[k].VAbsent? {
      assert o.members[k := o.members[k]] == o.members;
    } else if !IsScalar(f.ty) {
      DocRoutable(f.ty, v.members[k]);
    }
  }

  lemma {:induction false} MembersMap(ty: Type, v: Value, o: Value, changed: set<nat>, k: nat)
    requires ty.TStruct? && Wf(ty) && HasType(ty, v) && HasType(ty, o) && k <= |ty.fields|
    ensures Routable(ty, MemberDocs(ty, v, k))
    ensures var m := MapKids(ty, o, changed, MemberDocs(ty, v, k));
            && (m.Mapped? <==> FieldsMap(ty, v, o, k))
            && (m.Mapped? ==> forall i | 0 <= i < |ty.fields| ::
                  && Ok(m.local.obj.members[i])
                     == (if i < k then Ok(o.members[i]) else FieldMap(ty.fields[i], v.members[i], o.members[i]))
                  && (i in m.local.changed <==> i in changed || (i >= k && !v.members[i].VAbsent?)))
    decreases |ty.fields| - k
  {
    MembersRoutable(ty, v, k);
    if k < |ty.fields| {
      MemberStep(ty, v, o, changed, k);
      var r := FieldMap(ty.fields[k], v.members[k], o.members[k]);
      if r.Ok? {
        var o' := VStruct(o.members[k := r.value]);
        MembersMap(ty, v, o', if v.members[k].VAbsent? then changed else changed + {k}, k + 1);
        hide FieldMap, MapKids, MemberDocs;
        forall i | k < i < |ty.fields|
          ensures FieldMap(ty.fields[i], v.members[i], o'.members[i]) == FieldMap(ty.fields[i], v.members[i], o.members[i])
        {
          assert o'.members[i] == o.members[i];
        }
        assert FieldsMap(ty, v, o', k + 1) ==> FieldsMap(ty, v, o, k);
        assert FieldsMap(ty, v, o, k) ==> FieldsMap(ty, v, o', k + 1);
      }
    }
  }

  /** For one member: coming back is accepting the close and settling as in `v`. */
  lemma MemberComesBack(ty: Type, v: Value, t: Value, l: Local, i: nat)
    requires ty.TStruct? && Wf(ty) && HasType(ty, v) && HasType(ty, t) && i < |ty.fields|
    requires l.obj.VStruct? && |l.obj.members| == |ty.fields|
    requires FieldMap(ty.fields[i], v.members[i], t.members[i]) == Ok(l.obj.members[i])
    requires i in l.changed <==> !v.members[i].VAbsent?
    ensures ComesBack(ty.fields[i], v.members[i], t.members[i])
       <==> Accepts(ty.fields, l.obj.members, l.changed, i)
            && Final(ty.fields, l.obj.members, l.changed, i) == v.members[i]
  {
    var f := ty.fields[i];
    assert WfField(f) && FieldHolds(f, v.members[i]);
    assert f.required ==> HasType(f.ty, v.members[i]);
    TypedIsPresent(f.ty, v.members[i]);
  }

  lemma TypedIsPresent(ty: Type, v: Value)
    ensures HasType(ty, v) ==> !v.VAbsent?
  {
  }

  ghost predicate AllComeBack(ty: Type, v: Value, t: Value)
    requires ty.TStruct? && Wf(ty) && HasType(ty, v) && HasType(ty, t)
  {
    forall i | 0 <= i < |ty.fields| :: ComesBack(ty.fields[i], v.members[i], t.members[i])
  }

  /** Closing gives exactly the members of `v` when every member accepts and settles so. */
  lemma FinishGives(fields: seq<Field>, members: seq<Value>, changed: set<nat>, want: seq<Value>)
    requires |members| == |fields| == |want|
    ensures Finish(fields, members, changed, 0) == Ok(want)
       <==> forall i | 0 <= i < |fields| ::
              Accepts(fields, members, changed, i) && Final(fields, members, changed, i) == want[i]
  {
    FinishSettles(fields, members, changed, 0);
    var r := Finish(fields, members, changed, 0);
    if r.Ok? && forall i | 0 <= i < |fields| :: Final(fields, members, changed, i) == want[i] {
      assert r.value == want;
    }
  }

  /** A struct comes back as `v` exactly when every member goes through and settles as in `v`. */
  lemma StructComesBack(ty: Type, v: Value, t: Value)
    requires ty.TStruct? && Wf(ty) && HasType(ty, v) && HasType(ty, t)
    ensures Routable(ty, Doc(ty, v).kids)
    ensures MapNode(ty, t, Doc(ty, v).kids) == Ok(v) <==> AllComeBack(ty, v, t)
  {
    MembersMap(ty, v, t, {}, 0);
    var m := MapKids(ty, t, {}, MemberDocs(ty, v, 0));
    assert Doc(ty, v).kids == MemberDocs(ty, v, 0);
    hide MapKids, FieldMap, MemberDocs, Finish, Doc, Routable, Settle;
    if m.Mapped? {
      var l := m.local;
      forall i | 0 <= i < |ty.fields|
        ensures ComesBack(ty.fields[i], v.members[i], t.members[i])
           <==> Accepts(ty.fields, l.obj.members, l.changed, i)
                && Final(ty.fields, l.obj.members, l.changed, i) == v.members[i]
      {
        MemberComesBack(ty, v, t, l, i);
      }
      FinishGives(ty.fields, l.obj.members, l.changed, v.members);
    }
  }

  /** Member `f` accepts its document and then holds `v` again. */
  ghost predicate ComesBack(f: Field, v: Value, t: Value)
    requires WfField(f) && FieldHolds(f, v) && FieldHolds(f, t)
  {
    && FieldMap(f, v, t).Ok?
    && Settle(f, !v.VAbsent?, FieldMap(f, v, t).value) == v
    && (f.notEmpty ==> !IsEmptyValue(v))
  }

  lemma {:induction false} FieldComesBack(f: Field, v: Value, t: Value)
    requires WfField(f) && FieldHolds(f, v) && FieldHolds(f, t)
    ensures FieldRestores(f, v, t) <==> ComesBack(f, v, t)
    decreases v, 2
  {
    if !v.VAbsent? && !IsScalar(f.ty) {
      NodeComesBack(f.ty, v, t);
    }
  }

  /** Mapping the document of `v` onto `t` gives `v` exactly when `v` can be restored there. */
  lemma {:induction false} NodeComesBack(ty: Type, v: Value, t: Value)
    requires Wf(ty) && HasType(ty, v) && HasType(ty, t) && !IsScalar(ty)
    ensures Routable(ty, Doc(ty, v).kids)
    ensures MapNode(ty, t, Doc(ty, v).kids) == Ok(v) <==> Restores(ty, v, t)
    decreases v, 1
  {
    DocRoutable(ty, v);
    match ty
    case TStruct(_, fields) =>
      StructComesBack(ty, v, t);
      forall i | 0 <= i < |fields|
        ensures WfField(fields[i]) && FieldHolds(fields[i], v.members[i]) && FieldHolds(fields[i], t.members[i])
        ensures FieldRestores(fields[i], v.members[i], t.members[i])
           <==> ComesBack(fields[i], v.members[i], t.members[i])
      {
        FieldComesBack(fields[i], v.members[i], t.members[i]);
      }
    case TArray(elem) =>
      SequenceIsFold(elem, t.items, {}, ItemDocs(elem, v.items));
      ItemsComeBack(elem, v.items);
      FreshHasType(elem);
      var xs := Elements(elem, ItemDocs(elem, v.items));
      if xs.Ok? && t.items + xs.value == v.items {
        assert t.items == [] && xs.value == v.items;
      }
    case TMap(elem) =>
      MapComesBack(ty, v, t);
  }

  lemma ScalarComesBack(ty: Type, v: Value, name: string)
    requires IsScalar(ty) && HasType(ty, v)
    ensures var j := Doc(ty, v);
            !j.JNode? && !j.JNull? && Convert(ty, name, ScalarOfJson(j)) == Ok(v)
  {
  }

  /** The elements of a sequence are mapped one by one, each onto a fresh element. */
  lemma {:induction false} ItemsComeBack(elem: Type, items: seq<Value>)
    requires Wf(elem) && forall x | x in items :: HasType(elem, x)
    ensures Routable(TArray(elem), ItemDocs(elem, items)) && HasType(elem, Fresh(elem))
    ensures var r := Elements(elem, ItemDocs(elem, items)); r.Ok? ==> |r.value| == |items|
    ensures Elements(elem, ItemDocs(elem, items)) == Ok(items)
       <==> IsScalar(elem) || forall x | x in items :: Restores(elem, x, Fresh(elem))
    decreases items
  {
    ItemsRoutable(elem, items);
    FreshHasType(elem);
    if items != [] {
      ItemsComeBack(elem, items[1..]);
      assert items == [items[0]] + items[1..];
      assert ItemDocs(elem, items) == Cons("", Doc(elem, items[0]), ItemDocs(elem, items[1..]));
      if IsScalar(elem) {
        ScalarComesBack(elem, items[0], "");
      } else {
        NodeComesBack(elem, items[0], Fresh(elem));
      }
    }
  }

  /** What a map holds under the key of an entry that comes in. */
  function EntryResult(elem: Type, found: Option<Value>, x: Value): (r: Result<Value>)
    requires Wf(elem) && HasType(elem, x) && (found.Some? ==> HasType(elem, found.value))
    ensures r.Ok? ==> HasType(elem, r.value)
  {
    if IsScalar(elem) then Ok(if found.Some? then found.value else x)
    else
      DocRoutable(elem, x);
      MapNode(elem, Base(elem, found), Doc(elem, x).kids)
  }

  /** One entry, and then those after it. */
  lemma EntryStep(ty: Type, es: seq<Entry>, changed: set<nat>, vs: seq<Entry>)
    requires ty.TMap? && Wf(ty) && HasType(ty, VMap(es)) && vs != []
    requires forall e | e in vs :: HasType(ty.elem, e.value)
    ensures Routable(ty, EntryDocs(ty.elem, vs)) && Routable(ty, EntryDocs(ty.elem, vs[1..]))
    ensures var r := EntryResult(ty.elem, Lookup(es, vs[0].key), vs[0].value);
            if r.Err? then MapKids(ty, VMap(es), changed, EntryDocs(ty.elem, vs)) == Stopped(r.error)
            else
              var es' := Store(es, vs[0].key, r.value);
              && HasType(ty, VMap(es'))
              && MapKids(ty, VMap(es), changed, EntryDocs(ty.elem, vs))
                 == MapKids(ty, VMap(es'), changed, EntryDocs(ty.elem, vs[1..]))
  {
    EntriesRoutable(ty.elem, vs);
    EntriesRoutable(ty.elem, vs[1..]);
    var e := vs[0];
    var r := EntryResult(ty.elem, Lookup(es, e.key), e.value);
    if r.Ok? {
      StoreHasType(ty, es, e.key, r.value);
    }
    if IsScalar(ty.elem) {
      ScalarEntryStep(ty, es, changed, vs);
    } else {
      NodeEntryStep(ty, es, changed, vs);
    }
  }

  lemma ScalarEntryStep(ty: Type, es: seq<Entry>, changed: set<nat>, vs: seq<Entry>)
    requires ty.TMap? && Wf(ty) && HasType(ty, VMap(es)) && vs != [] && IsScalar(ty.elem)
    requires forall e | e in vs :: HasType(ty.elem, e.value)
    requires Routable(ty, EntryDocs(ty.elem, vs)) && Routable(ty, EntryDocs(ty.elem, vs[1..]))
    requires var r := EntryResult(ty.elem, Lookup(es, vs[0].key), vs[0].value);
             r.Ok? && HasType(ty, VMap(Store(es, vs[0].key, r.value)))
    ensures var r := EntryResult(ty.elem, Lookup(es, vs[0].key), vs[0].value);
            MapKids(ty, VMap(es), changed, EntryDocs(ty.elem, vs))
            == MapKids(ty, VMap(Store(es, vs[0].key, r.value)), changed, EntryDocs(ty.elem, vs[1..]))
  {
    hide Insert, Locate, Store, Lookup, Ascending;
    ScalarComesBack(ty.elem, vs[0].value, vs[0].key);
    StoreKept(es, vs[0].key, vs[0].value);
  }

  lemma NodeEntryStep(ty: Type, es: seq<Entry>, changed: set<nat>, vs: seq<Entry>)
    requires ty.TMap? && Wf(ty) && HasType(ty, VMap(es)) && vs != [] && !IsScalar(ty.elem)
    requires forall e | e in vs :: HasType(ty.elem, e.value)
    requires Routable(ty, EntryDocs(ty.elem, vs)) && Routable(ty, EntryDocs(ty.elem, vs[1..]))
    requires var r := EntryResult(ty.elem, Lookup(es, vs[0].key), vs[0].value);
             r.Ok? ==> HasType(ty, VMap(Store(es, vs[0].key, r.value)))
    ensures var r := EntryResult(ty.elem, Lookup(es, vs[0].key), vs[0].value);
            MapKids(ty, VMap(es), changed, EntryDocs(ty.elem, vs))
            == if r.Err? then Stopped(r.error)
               else MapKids(ty, VMap(Store(es, vs[0].key, r.value)), changed, EntryDocs(ty.elem, vs[1..]))
  {
    hide Insert, Locate, Store, Lookup, Ascending, MapNode;
    var e := vs[0];
    DocRoutable(ty.elem, e.value);
    FreshHasType(ty.elem);
    var r := EntryResult(ty.elem, Lookup(es, e.key), e.value);
    StoreFilled(es, e.key, Fresh(ty.elem), if r.Ok? then r.value else e.value);
    UseOpens(ty, VMap(es), changed, e.key);
  }

  lemma StoreHasType(ty: Type, es: seq<Entry>, key: string, x: Value)
    requires ty.TMap? && Wf(ty) && HasType(ty, VMap(es)) && HasType(ty.elem, x)
    ensures HasType(ty, VMap(Store(es, key, x)))
  {
    StoreLookup(es, key, x, key);
  }

  ghost predicate Typed(elem: Type, es: seq<Entry>) {
    Wf(elem) && forall e | e in es :: HasType(elem, e.value)
  }

  /** The entry of `vs` under `key`, if there is one, goes through. */
  ghost predicate Enters(elem: Type, es: seq<Entry>, vs: seq<Entry>, key: string)
    requires Typed(elem, es) && Typed(elem, vs)
  {
    Lookup(vs, key).Some? ==> EntryResult(elem, Lookup(es, key), Lookup(vs, key).value).Ok?
  }

  /** `out` binds `key` as it is bound after the entries `vs` came in. */
  ghost predicate BoundAfter(elem: Type, es: seq<Entry>, vs: seq<Entry>, out: seq<Entry>, key: string)
    requires Typed(elem, es) && Typed(elem, vs)
  {
    var x := Lookup(vs, key);
    if x.None? then Lookup(out, key) == Lookup(es, key)
    else
      var r := EntryResult(elem, Lookup(es, key), x.value);
      r.Ok? && Lookup(out, key) == Some(r.value)
  }

  lemma EntersStep(elem: Type, es: seq<Entry>, vs: seq<Entry>, r: Value, out: seq<Entry>, key: string)
    requires Typed(elem, es) && Typed(elem, vs) && Ascending(es) && Ascending(vs) && vs != []
    requires EntryResult(elem, Lookup(es, vs[0].key), vs[0].value) == Ok(r)
    requires Typed(elem, Store(es, vs[0].key, r)) && Typed(elem, vs[1..])
    ensures Enters(elem, es, vs, key) == Enters(elem, Store(es, vs[0].key, r), vs[1..], key)
    ensures BoundAfter(elem, es, vs, out, key) == BoundAfter(elem, Store(es, vs[0].key, r), vs[1..], out, key)
  {
    hide EntryResult, Store, Ascending;
    StoreLookup(es, vs[0].key, r, key);
    LookupCons(vs, key);
  }

  /** A map keeps the bindings for other keys, and every entry is mapped onto what its key has. */
  lemma {:induction false} EntriesMap(ty: Type, es: seq<Entry>, changed: set<nat>, vs: seq<Entry>)
    requires ty.TMap? && Wf(ty) && HasType(ty, VMap(es)) && HasType(ty, VMap(vs))
    ensures Routable(ty, EntryDocs(ty.elem, vs))
    ensures MapKids(ty, VMap(es), changed, EntryDocs(ty.elem, vs)).Mapped?
       <==> forall key :: Enters(ty.elem, es, vs, key)
    ensures var m := MapKids(ty, VMap(es), changed, EntryDocs(ty.elem, vs));
            m.Mapped? ==> forall key :: BoundAfter(ty.elem, es, vs, m.local.obj.entries, key)
    decreases vs
  {
    hide EntryResult, Store, MapKids;
    EntriesRoutable(ty.elem, vs);
    if vs == [] {
      NothingEnters(ty, es, changed);
    } else {
      EntryStep(ty, es, changed, vs);
      LookupCons(vs, vs[0].key);
      var r := EntryResult(ty.elem, Lookup(es, vs[0].key), vs[0].value);
      if r.Err? {
        assert !Enters(ty.elem, es, vs, vs[0].key);
      } else {
        var es' := Store(es, vs[0].key, r.value);
        EntriesMap(ty, es', changed, vs[1..]);
        var m := MapKids(ty, VMap(es), changed, EntryDocs(ty.elem, vs));
        var out := if m.Mapped? then m.local.obj.entries else [];
        forall key
          ensures Enters(ty.elem, es, vs, key) == Enters(ty.elem, es', vs[1..], key)
          ensures BoundAfter(ty.elem, es, vs, out, key) == BoundAfter(ty.elem, es', vs[1..], out, key)
        {
          EntersStep(ty.elem, es, vs, r.value, out, key);
        }
      }
    }
  }

  lemma NothingEnters(ty: Type, es: seq<Entry>, changed: set<nat>)
    requires ty.TMap? && Wf(ty) && HasType(ty, VMap(es))
    ensures MapKids(ty, VMap(es), changed, EntryDocs(ty.elem, [])) == Mapped(Local(VMap(es), changed))
    ensures forall key :: Lookup([], key) == None
  {
  }

  /** From the bindings under every key to the map as a whole. */
  lemma MapRestores(ty: Type, v: Value, t: Value)
    requires ty.TMap? && Wf(ty) && HasType(ty, v) && HasType(ty, t) && Routable(ty, EntryDocs(ty.elem, v.entries))
    requires forall key | Lookup(v.entries, key).Some? ::
               var found, x := Lookup(t.entries, key), Lookup(v.entries, key).value;
               EntryResult(ty.elem, found, x) == Ok(x) <==> EntryRestores(ty.elem, found, x)
    requires MapKids(ty, t, {}, EntryDocs(ty.elem, v.entries)).Mapped?
       <==> forall key :: Enters(ty.elem, t.entries, v.entries, key)
    requires var m := MapKids(ty, t, {}, EntryDocs(ty.elem, v.entries));
            m.Mapped? ==> forall key :: BoundAfter(ty.elem, t.entries, v.entries, m.local.obj.entries, key)
    ensures MapNode(ty, t, EntryDocs(ty.elem, v.entries)) == Ok(v) <==> Restores(ty, v, t)
  {
    hide EntryResult, MapKids, EntryRestores, Lookup;
    var m := MapKids(ty, t, {}, EntryDocs(ty.elem, v.entries));
    if Restores(ty, v, t) {
      forall key ensures Enters(ty.elem, t.entries, v.entries, key) {
      }
      forall key ensures Lookup(m.local.obj.entries, key) == Lookup(v.entries, key) {
        assert BoundAfter(ty.elem, t.entries, v.entries, m.local.obj.entries, key);
      }
      SameBindings(m.local.obj.entries, v.entries);
    }
    if m.Mapped? && m.local.obj == v {
      forall e | e in t.entries ensures Lookup(v.entries, e.key).Some? {
        assert BoundAfter(ty.elem, t.entries, v.entries, v.entries, e.key);
        LookupIs(t.entries, e.key);
      }
      forall e | e in v.entries ensures EntryRestores(ty.elem, Lookup(t.entries, e.key), e.value) {
        assert BoundAfter(ty.elem, t.entries, v.entries, v.entries, e.key);
        LookupIs(v.entries, e.key);
      }
    }
  }

  /** A map comes back exactly when its old keys are among the new ones and every entry comes back. */
  lemma {:induction false} MapComesBack(ty: Type, v: Value, t: Value)
    requires ty.TMap? && Wf(ty) && HasType(ty, v) && HasType(ty, t)
    ensures Routable(ty, Doc(ty, v).kids)
    ensures MapNode(ty, t, Doc(ty, v).kids) == Ok(v) <==> Restores(ty, v, t)
    decreases v, 0
  {
    EntriesMap(ty, t.entries, {}, v.entries);
    forall key | Lookup(v.entries, key).Some?
      ensures var found, x := Lookup(t.entries, key), Lookup(v.entries, key).value;
              EntryResult(ty.elem, found, x) == Ok(x) <==> EntryRestores(ty.elem, found, x)
    {
      if !IsScalar(ty.elem) {
        var x := Lookup(v.entries, key).value;
        DocRoutable(ty.elem, x);
        NodeComesBack(ty.elem, x, Base(ty.elem, Lookup(t.entries, key)));
      }
    }
    MapRestores(ty, v, t);
  }

  // ---------- Schemas without options ----------

  /** No member is optional, bounded or kept from being empty, and a fresh member has the fresh value of its type. */
  ghost predicate Plain(ty: Type)
    decreases ty
  {
    match ty
    case TStruct(_, fields) =>
      forall i | 0 <= i < |fields| ::
        var f := fields[i];
        !f.optional && !f.notEmpty && f.bounds.None? && f.initial == Fresh(f.ty) && Plain(f.ty)
    case TArray(elem) => Plain(elem)
    case TMap(elem) => Plain(elem)
    case _ => true
  }

  /** Every object of a plain type can be rebuilt on a fresh one. */
  lemma {:induction false} FreshRestores(ty: Type, v: Value)
    requires Wf(ty) && Plain(ty) && HasType(ty, v)
    ensures HasType(ty, Fresh(ty)) && Restores(ty, v, Fresh(ty))
    decreases v
  {
    FreshHasType(ty);
    match ty
    case TStruct(_, fields) =>
      forall i | 0 <= i < |fields|
        ensures WfField(fields[i]) && FieldHolds(fields[i], v.members[i]) && FieldHolds(fields[i], Fresh(ty).members[i])
        ensures FieldRestores(fields[i], v.members[i], Fresh(ty).members[i])
      {
        assert WfField(fields[i]) && FieldHolds(fields[i], v.members[i]) && FieldHolds(fields[i], Fresh(ty).members[i]);
        TypedIsPresent(fields[i].ty, v.members[i]);
        FreshRestores(fields[i].ty, v.members[i]);
      }
    case TArray(elem) =>
      forall x | x in v.items ensures HasType(elem, Fresh(elem)) && Restores(elem, x, Fresh(elem)) {
        FreshRestores(elem, x);
      }
    case TMap(elem) =>
      forall e | e in v.entries ensures EntryRestores(elem, None, e.value) {
        FreshRestores(elem, e.value);
      }
    case _ =>
  }
}
