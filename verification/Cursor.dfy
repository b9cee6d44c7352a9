/**
  * Routing events through nested objects with an explicit stack: each open object owns the flags
  * that say which of its members were set. The per-type cursors of `Objects` refine this machine.
  */
module Cursor {
  import opened Text
  import opened Documents
  import opened Schema

  /** The exceptions of the mapper. `Undefined` marks an index out of range in the original. */
  datatype Error =
    | BadType(name: string)
    | OutOfLimits(name: string, n: int)
    | OutOfBounds(name: string, n: int)
    | MissingRequired(name: string)
    | EmptyValue(name: string)
    | Undefined(name: string)

  datatype Result<+T> = Ok(value: T) | Err(error: Error)

  datatype Scalar = SBool(b: bool) | SInt(n: int) | SFloat(literal: string) | SString(s: string)

  /** An object under construction: the open path below it, innermost last. */
  datatype Focus =
    | Closed(changed: set<nat>)
    | Open(index: nat, changed: set<nat>, inner: Focus)

  // ---------- Parts of an object ----------

  /** Child `i` is an object of its own: a complex member, or an element of complex type. */
  predicate HasChild(ty: Type, o: Value, i: nat) {
    match ty
    case TStruct(_, fields) => o.VStruct? && i < |fields| && i < |o.members| && !IsScalar(fields[i].ty)
    case TArray(elem) => o.VArray? && i < |o.items| && !IsScalar(elem)
    case TMap(elem) => o.VMap? && i < |o.entries| && !IsScalar(elem)
    case _ => false
  }

  /** The type of child `i` does not depend on the object. */
  function ChildType(ty: Type, i: nat): (c: Type)
    requires (ty.TStruct? && i < |ty.fields|) || ty.TArray? || ty.TMap?
    ensures c < ty
  {
    match ty
    case TStruct(_, fields) => fields[i].ty
    case TArray(elem) => elem
    case TMap(elem) => elem
  }

  function Child(ty: Type, o: Value, i: nat): Value
    requires HasChild(ty, o, i)
  {
    match ty
    case TStruct(_, _) => o.members[i]
    case TArray(_) => o.items[i]
    case TMap(_) => o.entries[i].value
  }

  function PutChild(ty: Type, o: Value, i: nat, v: Value): Value
    requires HasChild(ty, o, i)
  {
    match ty
    case TStruct(_, _) => VStruct(o.members[i := v])
    case TArray(_) => VArray(o.items[i := v])
    case TMap(_) => VMap(o.entries[i := o.entries[i].(value := v)])
  }

  lemma ChildHasType(ty: Type, o: Value, i: nat)
    requires Wf(ty) && HasType(ty, o) && HasChild(ty, o, i)
    ensures Wf(ChildType(ty, i)) && HasType(ChildType(ty, i), Child(ty, o, i))
  {
    if ty.TStruct? {
      assert WfField(ty.fields[i]) && FieldHolds(ty.fields[i], o.members[i]);
    }
  }

  lemma PutChildHasType(ty: Type, o: Value, i: nat, v: Value)
    requires Wf(ty) && HasType(ty, o) && HasChild(ty, o, i) && HasType(ChildType(ty, i), v)
    ensures HasType(ty, PutChild(ty, o, i, v)) && HasChild(ty, PutChild(ty, o, i, v), i)
    ensures Child(ty, PutChild(ty, o, i, v), i) == v
  {
    if ty.TStruct? {
      var members := o.members[i := v];
      forall k | 0 <= k < |ty.fields| ensures FieldHolds(ty.fields[k], members[k]) {
        assert FieldHolds(ty.fields[k], o.members[k]);
      }
    }
  }

  /** The open path leads through objects that exist. */
  ghost predicate Fits(ty: Type, o: Value, f: Focus)
    decreases ty
  {
    f.Open? ==> HasChild(ty, o, f.index) && Fits(ChildType(ty, f.index), Child(ty, o, f.index), f.inner)
  }

  // ---------- What a closed object does with an event ----------

  /** `set_bool`, `set_integral`, `set_floating_point` and `set_string` on a scalar target. */
  function Convert(ty: Type, name: string, s: Scalar): (r: Result<Value>)
    ensures r.Ok? ==> HasType(ty, r.value)
  {
    match (ty, s)
    case (TBool, SBool(b)) => Ok(VBool(b))
    case (TInt(lo, hi), SInt(n)) => if lo <= n <= hi then Ok(VInt(n)) else Err(OutOfLimits(name, n))
    case (TString, SString(t)) => Ok(VString(t))
    case _ => Err(BadType(name))
  }

  /** Converts for a member: limits of the type first, then the declared bounds. */
  function ConvertMember(f: Field, s: Scalar): (r: Result<Value>)
    ensures r.Ok? ==> FieldHolds(f, r.value)
  {
    var r := Convert(f.ty, f.name, s);
    if r.Ok? && r.value.VInt? && f.bounds.Some? && !(f.bounds.value.0 <= r.value.n <= f.bounds.value.1) then
      Err(OutOfBounds(f.name, r.value.n))
    else r
  }

  datatype Local = Local(obj: Value, changed: set<nat>)

  /** A scalar for the object itself. Unknown names are ignored. */
  function LocalSet(ty: Type, o: Value, changed: set<nat>, name: string, s: Scalar): Result<Local>
    requires HasType(ty, o)
  {
    match ty
    case TStruct(_, fields) =>
      (match FindField(fields, name)
       case None => Ok(Local(o, changed))
       case Some(i) =>
         match ConvertMember(fields[i], s)
         case Ok(v) => Ok(Local(VStruct(o.members[i := v]), changed + {i}))
         case Err(e) => Err(e))
    case TArray(elem) =>
      (match Convert(elem, name, s)
       case Ok(v) => Ok(Local(VArray(o.items + [v]), changed))
       case Err(e) => Err(e))
    case TMap(elem) =>
      (match Convert(elem, name, s)
       case Ok(v) => Ok(Local(VMap(Insert(o.entries, name, v)), changed))
       case Err(e) => Err(e))
    case _ => Err(Undefined(name))
  }

  datatype Used = Used(obj: Value, focus: Focus)

  /**
    * `use` on a closed object: a struct opens the member of that name and marks it changed, a
    * container of complex elements adds (or, for a map, finds) an element and opens it. An
    * unknown name and a container of scalars ignore the call.
    */
  function LocalUse(ty: Type, o: Value, changed: set<nat>, name: string): Result<Used>
    requires HasType(ty, o)
  {
    match ty
    case TStruct(_, fields) =>
      (match FindField(fields, name)
       case None => Ok(Used(o, Closed(changed)))
       case Some(i) =>
         if IsScalar(fields[i].ty) then Err(Undefined(name))
         else Ok(Used(o, Open(i, changed + {i}, Closed({})))))
    case TArray(elem) =>
      if IsScalar(elem) then Ok(Used(o, Closed(changed)))
      else Ok(Used(VArray(o.items + [Fresh(elem)]), Open(|o.items|, changed, Closed({}))))
    case TMap(elem) =>
      if IsScalar(elem) then Ok(Used(o, Closed(changed)))
      else Ok(Used(VMap(Insert(o.entries, name, Fresh(elem))), Open(Locate(o.entries, name), changed, Closed({}))))
    case _ => Err(Undefined(name))
  }

  predicate IsEmptyValue(v: Value) {
    match v
    case VString(s) => s == ""
    case VArray(items) => items == []
    case VMap(entries) => entries == []
    case _ => false
  }

  /** A member whose object closes without having set it takes its default, if it has one. */
  function Settle(f: Field, set_: bool, old_: Value): Value {
    if !set_ && f.default.Some? then f.default.value else old_
  }

  /** Releases the members from `k` on, in order of registration. */
  function Finish(fields: seq<Field>, members: seq<Value>, changed: set<nat>, k: nat): (r: Result<seq<Value>>)
    requires |members| == |fields| && k <= |fields|
    decreases |fields| - k
  {
    if k == |fields| then Ok(members)
    else
      var f := fields[k];
      var v := Settle(f, k in changed, members[k]);
      if f.required && k !in changed then Err(MissingRequired(f.name))
      else if f.notEmpty && IsEmptyValue(v) then Err(EmptyValue(f.name))
      else Finish(fields, members[k := v], changed, k + 1)
  }

  function LocalRelease(ty: Type, o: Value, changed: set<nat>): Result<Value>
    requires HasType(ty, o)
  {
    match ty
    case TStruct(_, fields) =>
      (match Finish(fields, o.members, changed, 0)
       case Ok(members) => Ok(VStruct(members))
       case Err(e) => Err(e))
    case _ => Ok(o)
  }

  // ---------- Types are kept ----------

  lemma LocalSetHasType(ty: Type, o: Value, changed: set<nat>, name: string, s: Scalar)
    requires Wf(ty) && HasType(ty, o)
    ensures var r := LocalSet(ty, o, changed, name, s); r.Ok? ==> HasType(ty, r.value.obj)
  {
    match ty
    case TStruct(_, fields) =>
      var i := FindField(fields, name);
      if i.Some? && ConvertMember(fields[i.value], s).Ok? {
        SetMemberHasType(ty, o, i.value, ConvertMember(fields[i.value], s).value);
      }
    case TMap(elem) =>
      if Convert(elem, name, s).Ok? {
        InsertHasType(ty, o, name, Convert(elem, name, s).value);
      }
    case _ =>
  }

  lemma SetMemberHasType(ty: Type, o: Value, i: nat, v: Value)
    requires ty.TStruct? && HasType(ty, o) && i < |ty.fields| && FieldHolds(ty.fields[i], v)
    ensures HasType(ty, VStruct(o.members[i := v]))
  {
    forall k | 0 <= k < |ty.fields| ensures FieldHolds(ty.fields[k], o.members[i := v][k]) {
      assert FieldHolds(ty.fields[k], o.members[k]);
    }
  }

  lemma InsertHasType(ty: Type, o: Value, key: string, v: Value)
    requires ty.TMap? && HasType(ty, o) && HasType(ty.elem, v)
    ensures HasType(ty, VMap(Insert(o.entries, key, v)))
    ensures Locate(o.entries, key) < |Insert(o.entries, key, v)|
  {
    InsertAscending(o.entries, key, v);
  }

  lemma LocalUseFits(ty: Type, o: Value, changed: set<nat>, name: string)
    requires Wf(ty) && HasType(ty, o)
    ensures var r := LocalUse(ty, o, changed, name);
            r.Ok? ==> HasType(ty, r.value.obj) && Fits(ty, r.value.obj, r.value.focus)
  {
    match ty
    case TArray(elem) => FreshHasType(elem);
    case TMap(elem) =>
      FreshHasType(elem);
      InsertHasType(ty, o, name, Fresh(elem));
    case _ =>
  }

  lemma {:induction false} FinishHasType(ty: Type, o: Value, changed: set<nat>, k: nat)
    requires ty.TStruct? && Wf(ty) && HasType(ty, o) && k <= |ty.fields|
    ensures var r := Finish(ty.fields, o.members, changed, k); r.Ok? ==> HasType(ty, VStruct(r.value))
    decreases |ty.fields| - k
  {
    if k < |ty.fields| {
      var f := ty.fields[k];
      assert WfField(f) && FieldHolds(f, o.members[k]);
      var v := Settle(f, k in changed, o.members[k]);
      SetMemberHasType(ty, o, k, v);
      FinishHasType(ty, VStruct(o.members[k := v]), changed, k + 1);
    }
  }

  // ---------- The machine ----------

  datatype Step = Stepped(obj: Value, focus: Focus, closed: bool) | Threw(error: Error)

  function ScalarOf(e: Event): Option<Scalar> {
    match e
    case SetBool(_, b) => Some(SBool(b))
    case SetIntegral(_, n) => Some(SInt(n))
    case SetFloating(_, literal) => Some(SFloat(literal))
    case SetString(_, s) => Some(SString(s))
    case _ => None
  }

  function NameOf(e: Event): string {
    if e.End? then "" else e.name
  }

  /** A closed object handles the event itself; `closed` reports that it has been released. */
  function Here(ty: Type, o: Value, changed: set<nat>, e: Event): (s: Step)
    requires Wf(ty) && HasType(ty, o)
    ensures s.Stepped? ==> HasType(ty, s.obj) && Fits(ty, s.obj, s.focus)
    ensures s.Stepped? && s.closed ==> s.focus == Closed({})
  {
    match e
    case SetNull(_) => Stepped(o, Closed(changed), false)
    case Start(_, name) =>
      LocalUseFits(ty, o, changed, name);
      (match LocalUse(ty, o, changed, name)
       case Ok(u) => Stepped(u.obj, u.focus, false)
       case Err(error) => Threw(error))
    case End(_) =>
      if ty.TStruct? then FinishHasType(ty, o, changed, 0); Closing(LocalRelease(ty, o, changed))
      else Closing(LocalRelease(ty, o, changed))
    case _ =>
      LocalSetHasType(ty, o, changed, NameOf(e), ScalarOf(e).value);
      match LocalSet(ty, o, changed, NameOf(e), ScalarOf(e).value)
      case Ok(l) => Stepped(l.obj, Closed(l.changed), false)
      case Err(error) => Threw(error)
  }

  function Closing(r: Result<Value>): Step {
    match r
    case Ok(v) => Stepped(v, Closed({}), true)
    case Err(error) => Threw(error)
  }

  /** An open object passes the event on, and closes when its child has been released. */
  function Handle(ty: Type, o: Value, f: Focus, e: Event): (s: Step)
    requires Wf(ty) && HasType(ty, o) && Fits(ty, o, f)
    ensures s.Stepped? ==> HasType(ty, s.obj) && Fits(ty, s.obj, s.focus)
    ensures s.Stepped? && s.closed ==> s.focus == Closed({}) && f.Closed?
    decreases ty
  {
    match f
    case Closed(changed) => Here(ty, o, changed, e)
    case Open(i, changed, inner) =>
      ChildHasType(ty, o, i);
      var s := Handle(ChildType(ty, i), Child(ty, o, i), inner, e);
      if s.Threw? then s
      else
        PutChildHasType(ty, o, i, s.obj);
        Stepped(PutChild(ty, o, i, s.obj),
                if s.closed then Closed(changed) else Open(i, changed, s.focus), false)
  }
}
