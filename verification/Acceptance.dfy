/**
  * Which scalars are accepted where, what they are taken as, and which exception ends the mapping,
  * told from the types and the document alone.
  */
module Acceptance {
  import opened Text
  import opened Documents
  import opened Schema
  import opened Cursor
  import opened Mapping

  // ---------- One scalar ----------

  predicate IsScalarChild(j: Json) {
    j.JBool? || j.JInt? || j.JString?
  }

  predicate RightKind(ty: Type, j: Json) {
    (ty.TBool? && j.JBool?) || (ty.TString? && j.JString?) || (ty.TInt? && j.JInt?)
  }

  /** The value a scalar is taken as. */
  function Holding(j: Json): Value
    requires IsScalarChild(j)
  {
    if j.JBool? then VBool(j.b) else if j.JInt? then VInt(j.n) else VString(j.s)
  }

  /** The exception for a scalar that is to become a value of type `ty`. */
  function ElementError(ty: Type, name: string, j: Json): Option<Error>
    requires IsScalarChild(j)
  {
    if !RightKind(ty, j) then Some(BadType(name))
    else if j.JInt? && (j.n < ty.lo || ty.hi < j.n) then Some(OutOfLimits(name, j.n))
    else None
  }

  /** For a member the declared bounds are looked at when the limits of the type are kept. */
  function MemberError(f: Field, j: Json): Option<Error>
    requires IsScalarChild(j)
  {
    var e := ElementError(f.ty, f.name, j);
    if e.Some? then e
    else if j.JInt? && f.bounds.Some? && (j.n < f.bounds.value.0 || f.bounds.value.1 < j.n) then
      Some(OutOfBounds(f.name, j.n))
    else None
  }

  /** A conversion succeeds exactly when there is no exception for the scalar, and keeps what it holds. */
  lemma ConvertDecides(ty: Type, name: string, j: Json)
    requires IsScalarChild(j)
    ensures Convert(ty, name, ScalarOfJson(j)) ==
            if ElementError(ty, name, j).Some? then Err(ElementError(ty, name, j).value) else Ok(Holding(j))
  {
  }

  lemma ConvertMemberDecides(f: Field, j: Json)
    requires IsScalarChild(j)
    ensures ConvertMember(f, ScalarOfJson(j)) ==
            if MemberError(f, j).Some? then Err(MemberError(f, j).value) else Ok(Holding(j))
  {
    ConvertDecides(f.ty, f.name, j);
  }

  /** A floating point literal has the wrong kind for every type. */
  lemma FloatsAreRefused(ty: Type, o: Value, changed: set<nat>, name: string, literal: string)
    requires HasType(ty, o) && (ty.TStruct? || ty.TArray? || ty.TMap?)
    ensures LocalSet(ty, o, changed, name, SFloat(literal)) ==
            if ty.TStruct? && FindField(ty.fields, name).None? then Ok(Local(o, changed)) else Err(BadType(name))
  {
  }

  // ---------- One child of an object ----------

  /** The exception for a scalar child; a name that a struct does not know is ignored. */
  function ScalarError(ty: Type, name: string, j: Json): Option<Error>
    requires IsScalarChild(j) && (ty.TStruct? || ty.TArray? || ty.TMap?)
  {
    if ty.TStruct? then
      var found := FindField(ty.fields, name);
      if found.None? then None else MemberError(ty.fields[found.value], j)
    else ElementError(ty.elem, name, j)
  }

  /** What an accepted scalar child does to the object. */
  function WithScalar(ty: Type, o: Value, changed: set<nat>, name: string, j: Json): Local
    requires IsScalarChild(j) && HasType(ty, o) && (ty.TStruct? || ty.TArray? || ty.TMap?)
  {
    match ty
    case TStruct(_, fields) =>
      var found := FindField(fields, name);
      if found.None? then Local(o, changed)
      else Local(VStruct(o.members[found.value := Holding(j)]), changed + {found.value})
    case TArray(_) => Local(VArray(o.items + [Holding(j)]), changed)
    case TMap(_) => Local(VMap(Insert(o.entries, name, Holding(j))), changed)
  }

  lemma SetDecides(ty: Type, o: Value, changed: set<nat>, name: string, j: Json)
    requires IsScalarChild(j) && HasType(ty, o) && (ty.TStruct? || ty.TArray? || ty.TMap?)
    ensures LocalSet(ty, o, changed, name, ScalarOfJson(j)) ==
            if ScalarError(ty, name, j).Some? then Err(ScalarError(ty, name, j).value)
            else Ok(WithScalar(ty, o, changed, name, j))
  {
    hide Convert, ConvertMember, ElementError, MemberError, Insert;
    if ty.TStruct? {
      var found := FindField(ty.fields, name);
      if found.Some? {
        ConvertMemberDecides(ty.fields[found.value], j);
      }
    } else {
      ConvertDecides(ty.elem, name, j);
    }
  }

  /** The exception that one child ends the mapping with, given the object as it is then. */
  function ChildError(ty: Type, l: Local, name: string, value: Json): Option<Error>
    requires Wf(ty) && HasType(ty, l.obj) && !IsScalar(ty)
    requires value.JNode? ==> NestedType(ty, name).Some? && Routable(NestedType(ty, name).value, value.kids)
  {
    match value
    case JNull => None
    case JNode(_, inner) =>
      UseOpens(ty, l.obj, l.changed, name);
      var used := LocalUse(ty, l.obj, l.changed, name).value;
      ChildHasType(ty, used.obj, used.focus.index);
      var r := MapNode(ChildType(ty, used.focus.index), Child(ty, used.obj, used.focus.index), inner);
      if r.Err? then Some(r.error) else None
    case _ => ScalarError(ty, name, value)
  }

  // ---------- The first refused child ----------

  function Append(a: Kids, b: Kids): Kids {
    match a
    case Nil => b
    case Cons(name, value, rest) => Cons(name, value, Append(rest, b))
  }

  lemma {:induction false} AppendRoutable(ty: Type, a: Kids, b: Kids)
    ensures Routable(ty, Append(a, b)) <==> Routable(ty, a) && Routable(ty, b)
    decreases a
  {
    if a.Cons? {
      AppendRoutable(ty, a.rest, b);
    }
  }

  /** Mapping goes through the children in document order. */
  lemma {:induction false} MapKidsAppend(ty: Type, o: Value, changed: set<nat>, a: Kids, b: Kids)
    requires Wf(ty) && HasType(ty, o) && Routable(ty, a) && Routable(ty, b)
    ensures Routable(ty, Append(a, b))
    ensures var m := MapKids(ty, o, changed, a);
            MapKids(ty, o, changed, Append(a, b)) ==
            if m.Stopped? then m else MapKids(ty, m.local.obj, m.local.changed, b)
    decreases a
  {
    AppendRoutable(ty, a, b);
    match a
    case Nil =>
    case Cons(name, value, rest) =>
      match value
      case JNull => MapKidsAppend(ty, o, changed, rest, b);
      case JNode(_, inner) =>
        hide LocalUse, LocalRelease, MapNode;
        UseOpens(ty, o, changed, name);
        var used := LocalUse(ty, o, changed, name).value;
        var i := used.focus.index;
        ChildHasType(ty, used.obj, i);
        var r := MapNode(ChildType(ty, i), Child(ty, used.obj, i), inner);
        if r.Ok? {
          PutChildHasType(ty, used.obj, i, r.value);
          MapKidsAppend(ty, PutChild(ty, used.obj, i, r.value), used.focus.changed, rest, b);
        }
      case _ =>
        hide LocalSet;
        LocalSetHasType(ty, o, changed, name, ScalarOfJson(value));
        var r := LocalSet(ty, o, changed, name, ScalarOfJson(value));
        if r.Ok? {
          MapKidsAppend(ty, r.value.obj, r.value.changed, rest, b);
        }
  }

  /** One child stops the mapping exactly with its own exception. */
  lemma ChildStops(ty: Type, l: Local, name: string, value: Json, rest: Kids)
    requires Wf(ty) && HasType(ty, l.obj) && !IsScalar(ty) && Routable(ty, Cons(name, value, rest))
    ensures var e := ChildError(ty, l, name, value);
            e.Some? ==> MapKids(ty, l.obj, l.changed, Cons(name, value, rest)) == Stopped(e.value)
    ensures var e := ChildError(ty, l, name, value);
            e.None? ==> MapKids(ty, l.obj, l.changed, Cons(name, value, Nil)).Mapped?
  {
    hide LocalSet, LocalUse, LocalRelease, ScalarError, WithScalar;
    if value.JNode? {
      UseOpens(ty, l.obj, l.changed, name);
    } else if !value.JNull? {
      SetDecides(ty, l.obj, l.changed, name, value);
    }
  }

  /** Where the children before go through and this one is refused, the mapping ends with its exception. */
  lemma RefusedStops(ty: Type, o: Value, changed: set<nat>, before: Kids, name: string, value: Json, rest: Kids)
    requires Wf(ty) && HasType(ty, o) && !IsScalar(ty) && Routable(ty, before) && Routable(ty, Cons(name, value, rest))
    requires MapKids(ty, o, changed, before).Mapped?
    requires ChildError(ty, MapKids(ty, o, changed, before).local, name, value).Some?
    ensures Routable(ty, Append(before, Cons(name, value, rest)))
    ensures MapKids(ty, o, changed, Append(before, Cons(name, value, rest)))
         == Stopped(ChildError(ty, MapKids(ty, o, changed, before).local, name, value).value)
  {
    hide MapKids, ChildError;
    MapKidsAppend(ty, o, changed, before, Cons(name, value, rest));
    ChildStops(ty, MapKids(ty, o, changed, before).local, name, value, rest);
  }

  /** And it only ends so: the first refused child in document order gives the exception. */
  lemma {:induction false} FirstRefusal(ty: Type, o: Value, changed: set<nat>, kids: Kids)
    returns (before: Kids, name: string, value: Json, rest: Kids)
    requires Wf(ty) && HasType(ty, o) && !IsScalar(ty) && Routable(ty, kids)
    requires MapKids(ty, o, changed, kids).Stopped?
    ensures kids == Append(before, Cons(name, value, rest))
    ensures Routable(ty, before) && Routable(ty, Cons(name, value, rest))
    ensures MapKids(ty, o, changed, before).Mapped?
    ensures ChildError(ty, MapKids(ty, o, changed, before).local, name, value)
         == Some(MapKids(ty, o, changed, kids).error)
    decreases kids
  {
    var Cons(n, v, more) := kids;
    var l := Local(o, changed);
    ChildStops(ty, l, n, v, more);
    if ChildError(ty, l, n, v).Some? {
      before, name, value, rest := Nil, n, v, more;
    } else {
      hide MapKids, ChildError;
      var first := Cons(n, v, Nil);
      assert Append(first, more) == kids;
      MapKidsAppend(ty, o, changed, first, more);
      var m := MapKids(ty, o, changed, first).local;
      var b;
      b, name, value, rest := FirstRefusal(ty, m.obj, m.changed, more);
      before := Append(first, b);
      assert Append(first, b) == Cons(n, v, Append(Nil, b));
      MapKidsAppend(ty, o, changed, first, b);
    }
  }
}
