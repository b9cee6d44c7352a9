/**
  * What a struct, a sequence and a map hold after a document has been mapped onto them: each
  * member and each key depends only on its own occurrences in the document.
  */
module MemberLaws {
  import opened Text
  import opened Documents
  import opened Schema
  import opened Cursor
  import opened Mapping
  import opened Acceptance

  // ---------- Structs ----------

  /** The document has a non-null child of that name. */
  predicate Mentions(kids: Kids, name: string) {
    kids.Cons? && ((kids.name == name && !kids.value.JNull?) || Mentions(kids.rest, name))
  }

  /** The last non-null child of that name, if it is a scalar. */
  function LastOf(kids: Kids, name: string): Option<Json> {
    match kids
    case Nil => None
    case Cons(n, value, rest) =>
      var later := LastOf(rest, name);
      if later.Some? || n != name || value.JNull? then later else Some(value)
  }

  /** What one member becomes, looking at nothing but the children that carry its name. */
  function Own(f: Field, old_: Value, kids: Kids): (r: Result<Value>)
    requires WfField(f) && FieldHolds(f, old_) && RoutableAlone(f, kids)
    ensures r.Ok? ==> FieldHolds(f, r.value)
    decreases kids
  {
    match kids
    case Nil => Ok(old_)
    case Cons(name, value, rest) =>
      if name != f.name || value.JNull? then Own(f, old_, rest)
      else
        var r := if value.JNode? then MapNode(f.ty, old_, value.kids) else ConvertMember(f, ScalarOfJson(value));
        if r.Err? then r else Own(f, r.value, rest)
  }

  /** Every nested child that carries the member's name fits the member. */
  predicate RoutableAlone(f: Field, kids: Kids) {
    match kids
    case Nil => true
    case Cons(name, value, rest) =>
      && (value.JNode? && name == f.name ==> !f.optional && !IsScalar(f.ty) && Routable(f.ty, value.kids))
      && RoutableAlone(f, rest)
  }

  lemma {:induction false} RoutableMember(ty: Type, kids: Kids, i: nat)
    requires ty.TStruct? && Wf(ty) && Routable(ty, kids) && i < |ty.fields|
    ensures RoutableAlone(ty.fields[i], kids)
    decreases kids
  {
    if kids.Cons? {
      RoutableMember(ty, kids.rest, i);
      FindRegistered(ty, i);
      assert WfField(ty.fields[i]);
    }
  }

  lemma {:induction false} FindUnique(fields: seq<Field>, i: nat)
    requires i < |fields| && forall a, b | 0 <= a < b < |fields| :: fields[a].name != fields[b].name
    ensures FindField(fields, fields[i].name) == Some(i)
  {
    if i > 0 {
      assert fields[0].name != fields[i].name;
      FindUnique(fields[1..], i - 1);
    }
  }

  lemma FindRegistered(ty: Type, i: nat)
    requires ty.TStruct? && Wf(ty) && i < |ty.fields|
    ensures FindField(ty.fields, ty.fields[i].name) == Some(i)
  {
    FindUnique(ty.fields, i);
  }

  /** The members of a struct do not interfere. */
  lemma {:induction false} MembersAreSeparate(ty: Type, o: Value, changed: set<nat>, kids: Kids, i: nat)
    requires ty.TStruct? && Wf(ty) && HasType(ty, o) && Routable(ty, kids) && i < |ty.fields|
    requires MapKids(ty, o, changed, kids).Mapped?
    ensures RoutableAlone(ty.fields[i], kids) && FieldHolds(ty.fields[i], o.members[i])
    ensures var l := MapKids(ty, o, changed, kids).local;
            && Own(ty.fields[i], o.members[i], kids) == Ok(l.obj.members[i])
            && (i in l.changed <==> i in changed || Mentions(kids, ty.fields[i].name))
    decreases kids
  {
    RoutableMember(ty, kids, i);
    FindRegistered(ty, i);
    assert WfField(ty.fields[i]) && FieldHolds(ty.fields[i], o.members[i]);
    match kids
    case Nil =>
    case Cons(name, value, rest) =>
      match value
      case JNull => MembersAreSeparate(ty, o, changed, rest, i);
      case JNode(_, inner) =>
        var k := FindField(ty.fields, name).value;
        ChildHasType(ty, o, k);
        var v := MapNode(ty.fields[k].ty, o.members[k], inner).value;
        PutChildHasType(ty, o, k, v);
        MembersAreSeparate(ty, PutChild(ty, o, k, v), changed + {k}, rest, i);
      case _ =>
        LocalSetHasType(ty, o, changed, name, ScalarOfJson(value));
        var l := LocalSet(ty, o, changed, name, ScalarOfJson(value)).value;
        MembersAreSeparate(ty, l.obj, l.changed, rest, i);
  }

  ghost predicate OwnGoes(f: Field, old_: Value, kids: Kids) {
    WfField(f) && FieldHolds(f, old_) && RoutableAlone(f, kids) && Own(f, old_, kids).Ok?
  }

  lemma OwnStep(f: Field, old_: Value, kids: Kids)
    requires WfField(f) && FieldHolds(f, old_) && RoutableAlone(f, kids) && kids.Cons?
    ensures OwnGoes(f, old_, kids) <==>
              if kids.name != f.name || kids.value.JNull? then OwnGoes(f, old_, kids.rest)
              else
                var r := if kids.value.JNode? then MapNode(f.ty, old_, kids.value.kids)
                         else ConvertMember(f, ScalarOfJson(kids.value));
                r.Ok? && OwnGoes(f, r.value, kids.rest)
  {
    hide MapNode, ConvertMember;
  }

  ghost predicate AllGo(ty: Type, o: Value, kids: Kids)
    requires ty.TStruct? && HasType(ty, o)
  {
    forall i | 0 <= i < |ty.fields| :: OwnGoes(ty.fields[i], o.members[i], kids)
  }

  /** The children of a struct go through exactly when they do for each member alone. */
  lemma {:induction false} MembersDecide(ty: Type, o: Value, changed: set<nat>, kids: Kids)
    requires ty.TStruct? && Wf(ty) && HasType(ty, o) && Routable(ty, kids)
    ensures MapKids(ty, o, changed, kids).Mapped? <==> AllGo(ty, o, kids)
    decreases kids, 1
  {
    EachMember(ty, o, kids);
    if kids.Cons? {
      var Cons(name, value, rest) := kids;
      EachMember(ty, o, rest);
      forall i | 0 <= i < |ty.fields|
        ensures kids.name != ty.fields[i].name || value.JNull? ==>
                  (OwnGoes(ty.fields[i], o.members[i], kids) <==> OwnGoes(ty.fields[i], o.members[i], rest))
      {
        OwnStep(ty.fields[i], o.members[i], kids);
      }
      if value.JNull? {
        MembersDecide(ty, o, changed, rest);
      } else {
        var found := FindField(ty.fields, name);
        if found.None? {
          hide OwnGoes;
          MembersDecide(ty, o, changed, rest);
        } else {
          MemberDecides(ty, o, changed, kids, found.value);
        }
      }
    }
  }

  lemma EachMember(ty: Type, o: Value, kids: Kids)
    requires ty.TStruct? && Wf(ty) && HasType(ty, o) && Routable(ty, kids)
    ensures forall i | 0 <= i < |ty.fields| ::
              WfField(ty.fields[i]) && FieldHolds(ty.fields[i], o.members[i]) && RoutableAlone(ty.fields[i], kids)
  {
    forall i | 0 <= i < |ty.fields| ensures RoutableAlone(ty.fields[i], kids) {
      RoutableMember(ty, kids, i);
    }
  }

  /** The value that the first child gives member `k`. */
  function FirstValue(f: Field, old_: Value, value: Json): Result<Value>
    requires WfField(f) && FieldHolds(f, old_) && !value.JNull?
    requires value.JNode? ==> !f.optional && Routable(f.ty, value.kids)
  {
    if value.JNode? then MapNode(f.ty, old_, value.kids) else ConvertMember(f, ScalarOfJson(value))
  }

  lemma FirstChild(ty: Type, o: Value, changed: set<nat>, kids: Kids, k: nat)
    requires ty.TStruct? && Wf(ty) && HasType(ty, o) && Routable(ty, kids) && kids.Cons? && !kids.value.JNull?
    requires FindField(ty.fields, kids.name) == Some(k)
    requires WfField(ty.fields[k]) && FieldHolds(ty.fields[k], o.members[k])
    requires kids.value.JNode? ==> !ty.fields[k].optional && Routable(ty.fields[k].ty, kids.value.kids)
    ensures var r := FirstValue(ty.fields[k], o.members[k], kids.value);
            if r.Err? then MapKids(ty, o, changed, kids).Stopped?
            else
              var o' := VStruct(o.members[k := r.value]);
              && HasType(ty, o')
              && MapKids(ty, o, changed, kids) == MapKids(ty, o', changed + {k}, kids.rest)
  {
    hide ConvertMember;
    var r := FirstValue(ty.fields[k], o.members[k], kids.value);
    if r.Ok? {
      SetMemberHasType(ty, o, k, r.value);
    }
  }

  lemma {:induction false} MemberDecides(ty: Type, o: Value, changed: set<nat>, kids: Kids, k: nat)
    requires ty.TStruct? && Wf(ty) && HasType(ty, o) && Routable(ty, kids) && kids.Cons? && !kids.value.JNull?
    requires FindField(ty.fields, kids.name) == Some(k)
    ensures MapKids(ty, o, changed, kids).Mapped? <==> AllGo(ty, o, kids)
    decreases kids, 0
  {
    hide MapKids, FirstValue, MapNode, ConvertMember, OwnGoes, Own;
    EachMember(ty, o, kids);
    FindRegistered(ty, k);
    var f := ty.fields[k];
    assert f.name == kids.name;
    MemberPlaces(ty, o, kids, k);
    FirstChild(ty, o, changed, kids, k);
    var r := FirstValue(f, o.members[k], kids.value);
    OwnFirst(f, o.members[k], kids);
    if r.Ok? {
      var o' := VStruct(o.members[k := r.value]);
      MembersDecide(ty, o', changed + {k}, kids.rest);
      forall i | 0 <= i < |ty.fields|
        ensures OwnGoes(ty.fields[i], o.members[i], kids) <==> OwnGoes(ty.fields[i], o'.members[i], kids.rest)
      {
        if i != k {
          assert ty.fields[i].name != f.name;
          OwnStep(ty.fields[i], o.members[i], kids);
        }
      }
    }
  }

  lemma OwnFirst(f: Field, old_: Value, kids: Kids)
    requires WfField(f) && FieldHolds(f, old_) && RoutableAlone(f, kids)
    requires kids.Cons? && kids.name == f.name && !kids.value.JNull?
    requires kids.value.JNode? ==> !f.optional && Routable(f.ty, kids.value.kids)
    ensures var r := FirstValue(f, old_, kids.value);
            OwnGoes(f, old_, kids) <==> r.Ok? && OwnGoes(f, r.value, kids.rest)
  {
    OwnStep(f, old_, kids);
  }

  lemma MemberPlaces(ty: Type, o: Value, kids: Kids, k: nat)
    requires ty.TStruct? && Wf(ty) && Routable(ty, kids) && kids.Cons?
    requires FindField(ty.fields, kids.name) == Some(k) && RoutableAlone(ty.fields[k], kids)
    ensures kids.value.JNode? ==> !ty.fields[k].optional && Routable(ty.fields[k].ty, kids.value.kids)
  {
  }

  /** No scalar child of the member's name is refused; there are no others when the member is a scalar. */
  predicate AllTaken(f: Field, kids: Kids) {
    kids.Cons? ==>
      && (kids.name == f.name && IsScalarChild(kids.value) ==> MemberError(f, kids.value).None?)
      && AllTaken(f, kids.rest)
  }

  /** The exception for the first child of the member's name that is refused. */
  function FirstError(f: Field, kids: Kids): Option<Error> {
    if kids.Nil? then None
    else if kids.name == f.name && IsScalarChild(kids.value) && MemberError(f, kids.value).Some? then
      MemberError(f, kids.value)
    else FirstError(f, kids.rest)
  }

  /**
    * A scalar member goes through exactly when each of its values is accepted, and ends with what the
    * last one holds, or as it was; else with the exception for the first one refused.
    */
  lemma {:induction false} ScalarKeepsLast(f: Field, old_: Value, kids: Kids)
    requires WfField(f) && FieldHolds(f, old_) && RoutableAlone(f, kids) && IsScalar(f.ty)
    ensures var last := LastOf(kids, f.name);
            && (last.Some? <==> Mentions(kids, f.name))
            && (last.Some? ==> IsScalarChild(last.value))
            && (AllTaken(f, kids) <==> FirstError(f, kids).None?)
            && Own(f, old_, kids) == (if FirstError(f, kids).Some? then Err(FirstError(f, kids).value)
                                      else if last.Some? then Ok(Holding(last.value)) else Ok(old_))
    decreases kids
  {
    if kids.Cons? {
      var Cons(name, value, rest) := kids;
      if name != f.name || value.JNull? {
        ScalarKeepsLast(f, old_, rest);
      } else {
        hide ConvertMember, MemberError;
        ConvertMemberDecides(f, value);
        ScalarKeepsLast(f, if MemberError(f, value).None? then Holding(value) else old_, rest);
      }
    }
  }

  // ---------- Closing a struct ----------

  /** The final value of member `i`: what was set, else the default, else what it was. */
  function Final(fields: seq<Field>, members: seq<Value>, changed: set<nat>, i: nat): Value
    requires |members| == |fields| && i < |fields|
  {
    Settle(fields[i], i in changed, members[i])
  }

  /** Member `i` lets its object close. */
  predicate Accepts(fields: seq<Field>, members: seq<Value>, changed: set<nat>, i: nat)
    requires |members| == |fields| && i < |fields|
  {
    && (fields[i].required ==> i in changed)
    && (fields[i].notEmpty ==> !IsEmptyValue(Final(fields, members, changed, i)))
  }

  /** Closing succeeds exactly when every member accepts, and settles each member by itself. */
  lemma {:induction false} FinishSettles(fields: seq<Field>, members: seq<Value>, changed: set<nat>, k: nat)
    requires |members| == |fields| && k <= |fields|
    ensures var r := Finish(fields, members, changed, k);
            && (r.Ok? <==> forall i | k <= i < |fields| :: Accepts(fields, members, changed, i))
            && (r.Ok? ==> |r.value| == |fields|)
            && (r.Ok? ==> forall i | 0 <= i < |fields| ::
                  r.value[i] == if i < k then members[i] else Final(fields, members, changed, i))
    decreases |fields| - k
  {
    if k < |fields| {
      var members' := members[k := Final(fields, members, changed, k)];
      FinishSettles(fields, members', changed, k + 1);
      forall i | k < i < |fields|
        ensures Accepts(fields, members', changed, i) == Accepts(fields, members, changed, i)
        ensures Final(fields, members', changed, i) == Final(fields, members, changed, i)
      {
      }
      var r := Finish(fields, members, changed, k);
      if !Accepts(fields, members, changed, k) {
        assert r.Err?;
      } else {
        assert r == Finish(fields, members', changed, k + 1);
      }
    }
  }

  /** The first member in order of registration that does not accept gives the exception. */
  lemma {:induction false} FinishThrows(fields: seq<Field>, members: seq<Value>, changed: set<nat>, k: nat) returns (i: nat)
    requires |members| == |fields| && k <= |fields| && Finish(fields, members, changed, k).Err?
    ensures k <= i < |fields| && !Accepts(fields, members, changed, i)
    ensures forall j | k <= j < i :: Accepts(fields, members, changed, j)
    ensures Finish(fields, members, changed, k).error ==
            if fields[i].required && i !in changed then MissingRequired(fields[i].name) else EmptyValue(fields[i].name)
    decreases |fields| - k
  {
    if !Accepts(fields, members, changed, k) {
      i := k;
    } else {
      var members' := members[k := Final(fields, members, changed, k)];
      i := FinishThrows(fields, members', changed, k + 1);
      forall j | k < j < |fields|
        ensures Accepts(fields, members', changed, j) == Accepts(fields, members, changed, j)
      {
        assert Final(fields, members', changed, j) == Final(fields, members, changed, j);
      }
    }
  }

  /** A member of an object mapped from `kids`: its own values, else its default, else its old value. */
  function MemberResult(f: Field, old_: Value, kids: Kids): Result<Value>
    requires WfField(f) && FieldHolds(f, old_) && RoutableAlone(f, kids)
  {
    var own := Own(f, old_, kids);
    if own.Ok? && !Mentions(kids, f.name) && f.default.Some? then Ok(f.default.value) else own
  }

  /** Each of the member's own values is accepted, and so is the object's close as far as the member decides. */
  ghost predicate MemberAccepts(f: Field, old_: Value, kids: Kids)
    requires WfField(f) && FieldHolds(f, old_) && RoutableAlone(f, kids)
  {
    var r := MemberResult(f, old_, kids);
    r.Ok? && (f.required ==> Mentions(kids, f.name)) && (f.notEmpty ==> r.value !in {VString(""), VArray([]), VMap([])})
  }

  /**
    * Mapping a struct succeeds exactly when each member accepts its own values, is mentioned if it is
    * required, and does not end empty if it must not; and then every member is its own result.
    */
  lemma StructMapped(ty: Type, o: Value, kids: Kids)
    requires ty.TStruct? && Wf(ty) && HasType(ty, o) && Routable(ty, kids)
    ensures forall i | 0 <= i < |ty.fields| ::
              WfField(ty.fields[i]) && FieldHolds(ty.fields[i], o.members[i]) && RoutableAlone(ty.fields[i], kids)
    ensures MapNode(ty, o, kids).Ok? <==>
              forall i | 0 <= i < |ty.fields| :: MemberAccepts(ty.fields[i], o.members[i], kids)
    ensures MapNode(ty, o, kids).Ok? ==>
              forall i | 0 <= i < |ty.fields| ::
                Ok(MapNode(ty, o, kids).value.members[i]) == MemberResult(ty.fields[i], o.members[i], kids)
  {
    EachMember(ty, o, kids);
    MembersDecide(ty, o, {}, kids);
    if MapKids(ty, o, {}, kids).Mapped? {
      StructCloses(ty, o, kids);
    } else {
      var i :| 0 <= i < |ty.fields| && !OwnGoes(ty.fields[i], o.members[i], kids);
      assert !MemberAccepts(ty.fields[i], o.members[i], kids);
    }
  }

  lemma StructCloses(ty: Type, o: Value, kids: Kids)
    requires ty.TStruct? && Wf(ty) && HasType(ty, o) && Routable(ty, kids)
    requires MapKids(ty, o, {}, kids).Mapped?
    requires forall i | 0 <= i < |ty.fields| ::
               WfField(ty.fields[i]) && FieldHolds(ty.fields[i], o.members[i]) && RoutableAlone(ty.fields[i], kids)
    ensures MapNode(ty, o, kids).Ok? <==>
              forall i | 0 <= i < |ty.fields| :: MemberAccepts(ty.fields[i], o.members[i], kids)
    ensures MapNode(ty, o, kids).Ok? ==>
              forall i | 0 <= i < |ty.fields| ::
                Ok(MapNode(ty, o, kids).value.members[i]) == MemberResult(ty.fields[i], o.members[i], kids)
  {
    hide MapKids, Own, Finish, Mentions;
    var l := MapKids(ty, o, {}, kids).local;
    forall i | 0 <= i < |ty.fields|
      ensures MemberResult(ty.fields[i], o.members[i], kids) == Ok(Final(ty.fields, l.obj.members, l.changed, i))
      ensures i in l.changed <==> Mentions(kids, ty.fields[i].name)
    {
      MembersAreSeparate(ty, o, {}, kids, i);
    }
    FinishSettles(ty.fields, l.obj.members, l.changed, 0);
    assert forall i | 0 <= i < |ty.fields| ::
             Accepts(ty.fields, l.obj.members, l.changed, i) == MemberAccepts(ty.fields[i], o.members[i], kids);
  }

  /**
    * When the children go through, mapping a struct only fails in closing, with the first member in
    * order of registration that is required and not mentioned or ends empty and must not.
    */
  lemma StructThrows(ty: Type, o: Value, kids: Kids) returns (i: nat)
    requires ty.TStruct? && Wf(ty) && HasType(ty, o) && Routable(ty, kids)
    requires MapKids(ty, o, {}, kids).Mapped? && MapNode(ty, o, kids).Err?
    ensures i < |ty.fields|
    ensures forall j | 0 <= j <= i ::
              WfField(ty.fields[j]) && FieldHolds(ty.fields[j], o.members[j]) && RoutableAlone(ty.fields[j], kids)
    ensures !MemberAccepts(ty.fields[i], o.members[i], kids)
    ensures forall j | 0 <= j < i :: MemberAccepts(ty.fields[j], o.members[j], kids)
    ensures var f := ty.fields[i];
            MapNode(ty, o, kids) ==
            Err(if f.required && !Mentions(kids, f.name) then MissingRequired(f.name) else EmptyValue(f.name))
  {
    EachMember(ty, o, kids);
    hide MapKids, Own, Finish, Mentions;
    var l := MapKids(ty, o, {}, kids).local;
    forall j | 0 <= j < |ty.fields|
      ensures Accepts(ty.fields, l.obj.members, l.changed, j) == MemberAccepts(ty.fields[j], o.members[j], kids)
      ensures j in l.changed <==> Mentions(kids, ty.fields[j].name)
    {
      MembersAreSeparate(ty, o, {}, kids, j);
    }
    i := FinishThrows(ty.fields, l.obj.members, l.changed, 0);
  }
}
