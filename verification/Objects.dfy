/**
  * The static state of the reflection classes: for each type one cursor and one flag for each
  * member, shared by all objects of that type. Every method routes an event from an object down
  * to the innermost open one and is proved to do what the explicit stack of `Cursor` does.
  */
module Objects {
  import opened Documents
  import opened Schema
  import opened Cursor

  /** A cursor of a struct type names one of its members. */
  predicate IndexOk(ty: Type, i: nat) {
    (ty.TStruct? && i < |ty.fields|) || ty.TArray? || ty.TMap?
  }

  ghost predicate Sound(cursor: map<Type, nat>, changed: set<(Type, nat)>) {
    && (forall t | t in cursor :: IndexOk(t, cursor[t]))
    && (forall p | p in changed :: p.0.TStruct? && p.1 < |p.0.fields|)
  }

  ghost function Flags(changed: set<(Type, nat)>, ty: Type): set<nat> {
    set p | p in changed && p.0 == ty :: p.1
  }

  /** The stack of open objects that the cursors of `ty` and of the types below it describe. */
  ghost function FocusOf(cursor: map<Type, nat>, changed: set<(Type, nat)>, ty: Type): Focus
    decreases ty
  {
    if ty in cursor && IndexOk(ty, cursor[ty]) then
      Open(cursor[ty], Flags(changed, ty), FocusOf(cursor, changed, ChildType(ty, cursor[ty])))
    else Closed(Flags(changed, ty))
  }

  /** The types on the open path that starts at `ty`. */
  ghost function Chain(cursor: map<Type, nat>, ty: Type): set<Type>
    decreases ty
  {
    if ty in cursor && IndexOk(ty, cursor[ty]) then {ty} + Chain(cursor, ChildType(ty, cursor[ty])) else {}
  }

  /** `t` is `ty` or no larger a type tree than its parts. */
  ghost predicate Within(t: Type, ty: Type) {
    t == ty || t < ty
  }

  /** No cursor of `ty` or below it is left open outside the open path. */
  ghost predicate Tidy(cursor: map<Type, nat>, ty: Type) {
    forall t | t in cursor && Within(t, ty) :: t in Chain(cursor, ty)
  }

  ghost predicate SameOutside(c: map<Type, nat>, f: set<(Type, nat)>, c': map<Type, nat>, f': set<(Type, nat)>, ty: Type) {
    && (forall t: Type {:trigger t in c'} {:trigger t in c} | !Within(t, ty) ::
          (t in c <==> t in c') && (t in c ==> c'[t] == c[t]))
    && (forall p: (Type, nat) {:trigger p in f'} {:trigger p in f} | !Within(p.0, ty) :: p in f <==> p in f')
  }

  lemma TidyChild(cursor: map<Type, nat>, ty: Type)
    requires Tidy(cursor, ty) && ty in cursor && IndexOk(ty, cursor[ty])
    ensures Tidy(cursor, ChildType(ty, cursor[ty]))
  {
  }

  lemma {:induction false} ChainWithin(cursor: map<Type, nat>, ty: Type)
    ensures forall t | t in Chain(cursor, ty) :: Within(t, ty)
    decreases ty
  {
    if ty in cursor && IndexOk(ty, cursor[ty]) {
      ChainWithin(cursor, ChildType(ty, cursor[ty]));
    }
  }

  /** An operation on the open child leaves the outer object's own cursor and flags alone. */
  lemma InsideOpen(c: map<Type, nat>, f: set<(Type, nat)>, c': map<Type, nat>, f': set<(Type, nat)>, ty: Type)
    requires ty in c && IndexOk(ty, c[ty]) && Tidy(c, ty)
    requires SameOutside(c, f, c', f', ChildType(ty, c[ty])) && Tidy(c', ChildType(ty, c[ty]))
    ensures ty in c' && c'[ty] == c[ty]
    ensures FocusOf(c', f', ty) == Open(c[ty], Flags(f, ty), FocusOf(c', f', ChildType(ty, c[ty])))
    ensures Tidy(c', ty) && SameOutside(c, f, c', f', ty)
  {
    var child := ChildType(ty, c[ty]);
    assert !Within(ty, child);
    assert Flags(f', ty) == Flags(f, ty) by {
      assert forall k: nat :: (ty, k) in f <==> (ty, k) in f';
    }
    forall t | t in c' && Within(t, ty) ensures t in Chain(c', ty) {
      if !Within(t, child) {
        ChainWithin(c, child);
        assert t in Chain(c, ty);
      }
    }
  }

  /** Closing the outer cursor once the child is closed. */
  lemma ClosingTidy(c: map<Type, nat>, f: set<(Type, nat)>, ty: Type)
    requires Sound(c, f) && ty in c && Tidy(c, ty) && FocusOf(c, f, ChildType(ty, c[ty])).Closed?
    ensures Sound(c - {ty}, f) && Tidy(c - {ty}, ty)
    ensures FocusOf(c - {ty}, f, ty) == Closed(Flags(f, ty))
  {
    assert Chain(c, ty) == {ty};
  }

  /** Opening a child of a closed object. */
  lemma OpeningTidy(c: map<Type, nat>, f: set<(Type, nat)>, ty: Type, i: nat)
    requires Sound(c, f) && ty !in c && Tidy(c, ty) && IndexOk(ty, i)
    ensures Sound(c[ty := i], f) && Tidy(c[ty := i], ty)
    ensures ChildType(ty, i) !in c[ty := i]
    ensures FocusOf(c[ty := i], f, ty) == Open(i, Flags(f, ty), Closed(Flags(f, ChildType(ty, i))))
  {
  }

  // ---------- Registration ----------

  /** The containers that a member of type `ty` nests directly in each other. */
  function Containers(ty: Type): set<Type> {
    match ty
    case TArray(elem) => {ty} + Containers(elem)
    case TMap(elem) => {ty} + Containers(elem)
    case _ => {}
  }

  /** Those of them whose elements are objects, so that they can be open. */
  function ObjectContainers(ty: Type): set<Type> {
    match ty
    case TArray(elem) => (if IsScalar(elem) then {} else {ty}) + ObjectContainers(elem)
    case TMap(elem) => (if IsScalar(elem) then {} else {ty}) + ObjectContainers(elem)
    case _ => {}
  }

  /** The types that registering the members from `k` on puts on the list to be reset. */
  function RegisteredBy(ty: Type, k: nat): set<Type>
    requires ty.TStruct? && k <= |ty.fields|
    decreases |ty.fields| - k
  {
    if k == |ty.fields| then {} else {ty} + Containers(ty.fields[k].ty) + RegisteredBy(ty, k + 1)
  }

  /** An object of this type can have an open child. */
  predicate CanOpen(ty: Type) {
    match ty
    case TStruct(_, fields) => exists i :: 0 <= i < |fields| && !IsScalar(fields[i].ty)
    case TArray(elem) => !IsScalar(elem)
    case TMap(elem) => !IsScalar(elem)
    case _ => false
  }

  /** Every type below `ty`, itself included, that can be open is on the list to be reset. */
  ghost predicate Registered(registered: set<Type>, ty: Type)
    decreases ty
  {
    match ty
    case TStruct(_, fields) =>
      && (CanOpen(ty) ==> ty in registered)
      && forall i | 0 <= i < |fields| :: Registered(registered, fields[i].ty)
    case TArray(elem) => (CanOpen(ty) ==> ty in registered) && Registered(registered, elem)
    case TMap(elem) => (CanOpen(ty) ==> ty in registered) && Registered(registered, elem)
    case _ => true
  }

  /** The members of every struct below `ty` have been registered. */
  ghost predicate MembersRegistered(registered: set<Type>, ty: Type)
    decreases ty
  {
    match ty
    case TStruct(_, fields) =>
      && RegisteredBy(ty, 0) <= registered
      && forall i | 0 <= i < |fields| :: MembersRegistered(registered, fields[i].ty)
    case TArray(elem) => MembersRegistered(registered, elem)
    case TMap(elem) => MembersRegistered(registered, elem)
    case _ => true
  }

  lemma {:induction false} RegisteredByHas(ty: Type, k: nat, i: nat)
    requires ty.TStruct? && k <= i < |ty.fields|
    ensures ty in RegisteredBy(ty, k) && Containers(ty.fields[i].ty) <= RegisteredBy(ty, k)
    decreases i - k
  {
    if k < i {
      RegisteredByHas(ty, k + 1, i);
    }
  }

  /**
    * Once the members of all its structs are registered, what can still be missing on the list is the
    * root, if that is a container of objects, and the containers of objects directly in it.
    */
  lemma {:induction false} RegistrationReaches(registered: set<Type>, ty: Type)
    requires MembersRegistered(registered, ty)
    ensures Registered(registered, ty) <==> ObjectContainers(ty) <= registered
    decreases ty
  {
    match ty
    case TStruct(_, fields) =>
      forall i | 0 <= i < |fields| ensures Registered(registered, fields[i].ty) && ty in registered {
        RegistrationReaches(registered, fields[i].ty);
        RegisteredByHas(ty, 0, i);
        FewerContainers(fields[i].ty);
      }
    case TArray(elem) => RegistrationReaches(registered, elem);
    case TMap(elem) => RegistrationReaches(registered, elem);
    case _ =>
  }

  lemma {:induction false} FewerContainers(ty: Type)
    ensures ObjectContainers(ty) <= Containers(ty)
    decreases ty
  {
    match ty
    case TArray(elem) => FewerContainers(elem);
    case TMap(elem) => FewerContainers(elem);
    case _ =>
  }

  /** The types that are open when the stack of open objects is `f`. */
  function OpenKeys(ty: Type, f: Focus): set<Type>
    decreases ty
  {
    if f.Open? && IndexOk(ty, f.index) then {ty} + OpenKeys(ChildType(ty, f.index), f.inner) else {}
  }

  lemma {:induction false} ChainIsOpenKeys(c: map<Type, nat>, f: set<(Type, nat)>, ty: Type)
    ensures Chain(c, ty) == OpenKeys(ty, FocusOf(c, f, ty))
    ensures forall t | t in Chain(c, ty) :: t in c
    decreases ty
  {
    if ty in c && IndexOk(ty, c[ty]) {
      ChainIsOpenKeys(c, f, ChildType(ty, c[ty]));
    }
  }

  /** With every type below the root on the list, only types on the list are ever open. */
  lemma {:induction false} ListedOpens(registered: set<Type>, ty: Type, o: Value, f: Focus)
    requires Registered(registered, ty) && Fits(ty, o, f)
    ensures OpenKeys(ty, f) <= registered
    decreases ty
  {
    if f.Open? {
      ListedOpens(registered, ChildType(ty, f.index), Child(ty, o, f.index), f.inner);
    }
  }

  lemma ClosedFocus(c: map<Type, nat>, f: set<(Type, nat)>, ty: Type)
    requires ty !in c
    ensures FocusOf(c, f, ty) == Closed(Flags(f, ty))
  {
  }

  lemma NothingChanged(c: map<Type, nat>, f: set<(Type, nat)>, ty: Type)
    ensures SameOutside(c, f, c, f, ty)
  {
  }

  lemma FlagAdded(c: map<Type, nat>, f: set<(Type, nat)>, ty: Type, i: nat)
    ensures Flags(f + {(ty, i)}, ty) == Flags(f, ty) + {i}
    ensures SameOutside(c, f, c, f + {(ty, i)}, ty)
  {
  }

  // ---------- The static state ----------

  class Statics {
    var cursor: map<Type, nat>
    var changed: set<(Type, nat)>
    /** The types whose cursor is on the list to be reset. */
    var registered: set<Type>

    constructor ()
      ensures Sound(cursor, changed) && Known() && cursor == map[] && registered == {}
    {
      cursor, changed, registered := map[], {}, {};
    }

    /** Only types on the list are open. */
    ghost predicate Known()
      reads this
    {
      forall t | t in cursor :: t in registered
    }

    /** `reg` for each member of a struct in turn. */
    method Reg(ty: Type)
      requires ty.TStruct?
      modifies `registered
      ensures registered == old(registered) + RegisteredBy(ty, 0)
      ensures old(Known()) ==> Known()
    {
      for k := 0 to |ty.fields|
        invariant registered + RegisteredBy(ty, k) == old(registered) + RegisteredBy(ty, 0)
      {
        registered := registered + {ty};
        RegContainers(ty.fields[k].ty);
      }
    }

    method RegContainers(ty: Type)
      modifies `registered
      ensures registered == old(registered) + Containers(ty)
    {
      if ty.TArray? || ty.TMap? {
        registered := registered + {ty};
        RegContainers(ty.elem);
      }
    }

    ghost predicate Ready(ty: Type, o: Value)
      reads this
    {
      && Wf(ty) && HasType(ty, o) && Sound(cursor, changed) && Tidy(cursor, ty)
      && Fits(ty, o, FocusOf(cursor, changed, ty))
    }

    /** The result and the new state are those of the machine with the explicit stack. */
    ghost predicate Agrees(ty: Type, s: Step, r: Result<Value>, closed: bool)
      reads this
    {
      && Sound(cursor, changed)
      && match s
         case Threw(error) => r == Err(error)
         case Stepped(o, f, c) =>
           r == Ok(o) && closed == c && FocusOf(cursor, changed, ty) == f && Tidy(cursor, ty)
    }

    /** The cursors that are not on the list. */
    ghost function Unlisted(): map<Type, nat>
      reads this
    {
      map t | t in cursor && t !in registered :: cursor[t]
    }

    /** Closes the cursors of the types on the list and no other; flags stay as they are. */
    method Reset()
      requires Sound(cursor, changed)
      modifies `cursor
      ensures Sound(cursor, changed) && cursor == old(Unlisted())
      ensures forall t | t in cursor :: t in old(cursor) && cursor[t] == old(cursor)[t]
      ensures forall t | t in old(cursor) :: t in cursor <==> t !in registered
      ensures old(Known()) <==> cursor == map[]
    {
      cursor := map t | t in cursor && t !in registered :: cursor[t];
    }

    /** Clears the flags of a type, one member after the other. */
    method Init(ty: Type)
      requires Sound(cursor, changed)
      modifies `changed
      ensures changed == set p | p in old(changed) && p.0 != ty
      ensures Sound(cursor, changed)
    {
      if ty.TStruct? {
        for k := 0 to |ty.fields|
          invariant changed == set p | p in old(changed) && !(p.0 == ty && p.1 < k)
        {
          changed := changed - {(ty, k)};
        }
      }
    }
  
    /** A scalar for a closed object. */
    method SetHere(ty: Type, o: Value, name: string, s: Scalar) returns (r: Result<Value>)
      requires Ready(ty, o) && ty !in cursor
      modifies `changed
      ensures Agrees(ty, Handle(ty, o, old(FocusOf(cursor, changed, ty)), EventOf(name, s)), r, false)
      ensures r.Err? ==> cursor == old(cursor)
      ensures SameOutside(old(cursor), old(changed), cursor, changed, ty)
    {
      hide FocusOf, Flags, SameOutside, Tidy, Insert, Fits;
      ClosedFocus(cursor, changed, ty);
      NothingChanged(cursor, changed, ty);
      match ty
      case TStruct(_, fields) =>
        var found := FindField(fields, name);
        if found.None? {
          return Ok(o);
        }
        var v := ConvertMember(fields[found.value], s);
        if v.Err? {
          return Err(v.error);
        }
        changed := changed + {(ty, found.value)};
        FlagAdded(cursor, old(changed), ty, found.value);
        ClosedFocus(cursor, changed, ty);
        r := Ok(VStruct(o.members[found.value := v.value]));
      case TArray(elem) =>
        var v := Convert(elem, name, s);
        r := if v.Err? then Err(v.error) else Ok(VArray(o.items + [v.value]));
      case TMap(elem) =>
        var v := Convert(elem, name, s);
        r := if v.Err? then Err(v.error) else Ok(VMap(Insert(o.entries, name, v.value)));
      case _ => r := Err(Undefined(name));
    }

    /** `set_bool`, `set_integral`, `set_floating_point` or `set_string`, as `s` says. */
    method Set(ty: Type, o: Value, name: string, s: Scalar) returns (r: Result<Value>)
      requires Ready(ty, o)
      modifies `cursor, `changed
      ensures Agrees(ty, Handle(ty, o, old(FocusOf(cursor, changed, ty)), EventOf(name, s)), r, false)
      ensures r.Err? ==> cursor == old(cursor)
      ensures SameOutside(old(cursor), old(changed), cursor, changed, ty)
      decreases ty
    {
      if ty !in cursor {
        r := SetHere(ty, o, name, s);
      } else {
        var i := cursor[ty];
        ChildHasType(ty, o, i);
        TidyChild(cursor, ty);
        r := Set(ChildType(ty, i), Child(ty, o, i), name, s);
        if r.Ok? {
          InsideOpen(old(cursor), old(changed), cursor, changed, ty);
          r := Ok(PutChild(ty, o, i, r.value));
        }
      }
    }

    /** Opens child `i` of a closed object: its cursor, and the flags of the child's type. */
    method OpenHere(ty: Type, i: nat)
      requires Sound(cursor, changed) && ty !in cursor && Tidy(cursor, ty) && IndexOk(ty, i)
      modifies `cursor, `changed
      ensures Sound(cursor, changed) && Tidy(cursor, ty)
      ensures FocusOf(cursor, changed, ty) == Open(i, Flags(old(changed), ty), Closed({}))
      ensures SameOutside(old(cursor), old(changed), cursor, changed, ty)
      ensures changed == set p | p in old(changed) && p.0 != ChildType(ty, i)
    {
      var child := ChildType(ty, i);
      cursor := cursor[ty := i];
      Init(child);
      OpeningTidy(old(cursor), changed, ty, i);
      assert Flags(changed, ty) == Flags(old(changed), ty) by {
        assert forall k: nat :: (ty, k) in changed <==> (ty, k) in old(changed);
      }
      assert Flags(changed, child) == {};
    }

    /** Opens the named member, or a new or existing element, of a closed object. */
    method UseHere(ty: Type, o: Value, kind: Kind, name: string) returns (r: Result<Value>)
      requires Ready(ty, o) && ty !in cursor
      modifies `cursor, `changed
      ensures Agrees(ty, Handle(ty, o, old(FocusOf(cursor, changed, ty)), Start(kind, name)), r, false)
      ensures r.Err? ==> cursor == old(cursor)
      ensures SameOutside(old(cursor), old(changed), cursor, changed, ty)
    {
      match ty
      case TStruct(_, fields) =>
        var found := FindField(fields, name);
        if found.None? {
          return Ok(o);
        }
        if IsScalar(fields[found.value].ty) {
          return Err(Undefined(name));
        }
        OpenHere(ty, found.value);
        MarkOpen(ty, found.value);
        r := Ok(o);
      case TArray(elem) =>
        r := Ok(o);
        if !IsScalar(elem) {
          OpenHere(ty, |o.items|);
          r := Ok(VArray(o.items + [Fresh(elem)]));
        }
      case TMap(elem) =>
        r := Ok(o);
        if !IsScalar(elem) {
          OpenHere(ty, Locate(o.entries, name));
          r := Ok(VMap(Insert(o.entries, name, Fresh(elem))));
        }
      case _ => r := Err(Undefined(name));
    }

    /** A struct marks the member it opens as changed. */
    method MarkOpen(ty: Type, i: nat)
      requires Sound(cursor, changed) && Tidy(cursor, ty) && ty.TStruct?
      requires ty in cursor && cursor[ty] == i && ChildType(ty, i) !in cursor
      modifies `changed
      ensures Sound(cursor, changed) && Tidy(cursor, ty)
      ensures FocusOf(cursor, changed, ty)
           == Open(i, Flags(old(changed), ty) + {i}, Closed(Flags(old(changed), ChildType(ty, i))))
      ensures SameOutside(old(cursor), old(changed), cursor, changed, ty)
    {
      var child := ChildType(ty, i);
      changed := changed + {(ty, i)};
      assert Flags(changed, ty) == Flags(old(changed), ty) + {i};
      assert Flags(changed, child) == Flags(old(changed), child) by {
        assert forall k: nat :: (child, k) in changed <==> (child, k) in old(changed);
      }
    }

    method Use(ty: Type, o: Value, kind: Kind, name: string) returns (r: Result<Value>)
      requires Ready(ty, o)
      modifies `cursor, `changed
      ensures Agrees(ty, Handle(ty, o, old(FocusOf(cursor, changed, ty)), Start(kind, name)), r, false)
      ensures r.Err? ==> cursor == old(cursor)
      ensures SameOutside(old(cursor), old(changed), cursor, changed, ty)
      decreases ty
    {
      if ty !in cursor {
        r := UseHere(ty, o, kind, name);
      } else {
        var i := cursor[ty];
        ChildHasType(ty, o, i);
        TidyChild(cursor, ty);
        r := Use(ChildType(ty, i), Child(ty, o, i), kind, name);
        if r.Ok? {
          InsideOpen(old(cursor), old(changed), cursor, changed, ty);
          r := Ok(PutChild(ty, o, i, r.value));
        }
      }
    }

    /** Releases the members of a closed struct in order and clears their flags. */
    method ReleaseMembers(ty: Type, o: Value) returns (r: Result<seq<Value>>)
      requires ty.TStruct? && Wf(ty) && HasType(ty, o) && Sound(cursor, changed)
      modifies `changed
      ensures r == Finish(ty.fields, o.members, Flags(old(changed), ty), 0)
      ensures Sound(cursor, changed)
      ensures r.Ok? ==> changed == set p | p in old(changed) && p.0 != ty
      ensures forall p: (Type, nat) | p.0 != ty :: p in changed <==> p in old(changed)
    {
      ghost var flags := Flags(changed, ty);
      var members := o.members;
      for k := 0 to |ty.fields|
        invariant |members| == |ty.fields|
        invariant changed == set p | p in old(changed) && !(p.0 == ty && p.1 < k)
        invariant Finish(ty.fields, o.members, flags, 0) == Finish(ty.fields, members, flags, k)
      {
        var f, isSet := ty.fields[k], (ty, k) in changed;
        assert isSet == (k in flags);
        if f.required && !isSet {
          return Err(MissingRequired(f.name));
        }
        members := members[k := Settle(f, isSet, members[k])];
        if f.notEmpty && IsEmptyValue(members[k]) {
          return Err(EmptyValue(f.name));
        }
        changed := changed - {(ty, k)};
      }
      r := Ok(members);
    }

    /** Releases the innermost open object; `closed` tells whether that was `o` itself. */
    method Release(ty: Type, o: Value, kind: Kind) returns (r: Result<Value>, closed: bool)
      requires Ready(ty, o)
      modifies `cursor, `changed
      ensures Agrees(ty, Handle(ty, o, old(FocusOf(cursor, changed, ty)), End(kind)), r, closed)
      ensures r.Err? ==> cursor == old(cursor)
      ensures SameOutside(old(cursor), old(changed), cursor, changed, ty)
      decreases ty
    {
      closed := false;
      if ty !in cursor {
        closed := true;
        if ty.TStruct? {
          var members := ReleaseMembers(ty, o);
          r := if members.Err? then Err(members.error) else Ok(VStruct(members.value));
        } else {
          r := Ok(o);
        }
        assert r.Ok? ==> Flags(changed, ty) == {};
      } else {
        var i := cursor[ty];
        ChildHasType(ty, o, i);
        TidyChild(cursor, ty);
        var childClosed: bool;
        r, childClosed := Release(ChildType(ty, i), Child(ty, o, i), kind);
        if r.Ok? {
          InsideOpen(old(cursor), old(changed), cursor, changed, ty);
          r := Ok(PutChild(ty, o, i, r.value));
          if childClosed {
            ClosingTidy(cursor, changed, ty);
            cursor := cursor - {ty};
          }
        }
      }
    }
  }

  function EventOf(name: string, s: Scalar): Event {
    match s
    case SBool(b) => SetBool(name, b)
    case SInt(n) => SetIntegral(name, n)
    case SFloat(literal) => SetFloating(name, literal)
    case SString(t) => SetString(name, t)
  }
}
