/**
  * Which objects are open: the types on the open path, how each event moves the path, and when the
  * path stays in step with the nesting of a document.
  */
module Routing {
  import opened Documents
  import opened Schema
  import opened Cursor
  import opened Mapping

  // ---------- The open path ----------

  /** The types of the open objects, from the root to the innermost. */
  ghost function OpenTypes(ty: Type, o: Value, f: Focus): (path: seq<Type>)
    requires Fits(ty, o, f)
    ensures path != [] && path[0] == ty
    decreases ty
  {
    if f.Closed? then [ty]
    else [ty] + OpenTypes(ChildType(ty, f.index), Child(ty, o, f.index), f.inner)
  }

  /** How many objects are open below the root. */
  function Depth(f: Focus): nat {
    if f.Closed? then 0 else 1 + Depth(f.inner)
  }

  function Last(path: seq<Type>): Type
    requires path != []
  {
    path[|path| - 1]
  }

  /**
    * A start appends the type that the innermost object has for the name, if it has one; an end drops
    * the innermost type unless only the root is left; nothing else moves the path.
    */
  function Move(path: seq<Type>, e: Event): (moved: seq<Type>)
    requires path != []
    ensures moved != []
  {
    match e
    case Start(_, name) =>
      var inner := NestedType(Last(path), name);
      if inner.Some? then path + [inner.value] else path
    case End(_) => if |path| > 1 then path[..|path| - 1] else path
    case _ => path
  }

  lemma {:induction false} PathLength(ty: Type, o: Value, f: Focus)
    requires Fits(ty, o, f)
    ensures |OpenTypes(ty, o, f)| == 1 + Depth(f)
    decreases ty
  {
    if f.Open? {
      PathLength(ChildType(ty, f.index), Child(ty, o, f.index), f.inner);
    }
  }

  lemma MoveBelow(ty: Type, path: seq<Type>, e: Event)
    requires path != []
    ensures Move([ty] + path, e) == if e.End? && |path| == 1 then [ty] else [ty] + Move(path, e)
  {
    if e.End? {
      assert ([ty] + path)[..|path|] == [ty] + path[..|path| - 1];
    } else if e.Start? && NestedType(Last(path), e.name).Some? {
      assert [ty] + path + [NestedType(Last(path), e.name).value]
          == [ty] + (path + [NestedType(Last(path), e.name).value]);
    }
  }

  lemma HereMoves(ty: Type, o: Value, changed: set<nat>, e: Event)
    requires Wf(ty) && HasType(ty, o)
    ensures var s := Here(ty, o, changed, e);
            s.Stepped? ==> OpenTypes(ty, s.obj, s.focus) == Move([ty], e) && (s.closed <==> e.End?)
  {
    match e
    case Start(_, name) =>
      if NestedType(ty, name).Some? {
        UseOpens(ty, o, changed, name);
      }
    case _ =>
  }

  /** Every event moves the open path exactly so, and an end closes the object itself only when nothing is open below. */
  lemma {:induction false} HandleMoves(ty: Type, o: Value, f: Focus, e: Event)
    requires Wf(ty) && HasType(ty, o) && Fits(ty, o, f)
    ensures var s := Handle(ty, o, f, e);
            s.Stepped? ==>
              && OpenTypes(ty, s.obj, s.focus) == Move(OpenTypes(ty, o, f), e)
              && (s.closed <==> e.End? && f.Closed?)
    decreases ty
  {
    hide Here, Move;
    if f.Closed? {
      HereMoves(ty, o, f.changed, e);
    } else {
      ChildHasType(ty, o, f.index);
      var c, child := ChildType(ty, f.index), Child(ty, o, f.index);
      HandleMoves(c, child, f.inner, e);
      var s := Handle(c, child, f.inner, e);
      if s.Stepped? {
        PutChildHasType(ty, o, f.index, s.obj);
        ChildPut(ty, o, f.index, s.obj);
        MoveBelow(ty, OpenTypes(c, child, f.inner), e);
        PathLength(c, child, f.inner);
      }
    }
  }

  lemma ChildPut(ty: Type, o: Value, i: nat, v: Value)
    requires HasChild(ty, o, i)
    ensures HasChild(ty, PutChild(ty, o, i, v), i) && Child(ty, PutChild(ty, o, i, v), i) == v
  {
  }

  // ---------- A path in step with the document ----------

  /** What an event adds to the nesting. */
  function Change(e: Event): int {
    if e.Start? then 1 else if e.End? then -1 else 0
  }

  /** How deep the nesting is after `es`. */
  function Nesting(es: seq<Event>): int {
    if es == [] then 0 else Change(es[0]) + Nesting(es[1..])
  }

  /** Where every end has its start, this is how many structs and arrays are open. */
  lemma {:induction false} NestingIsNest(open: seq<Kind>, es: seq<Event>)
    requires Nest(open, es).Some?
    ensures |Nest(open, es).value| == |open| + Nesting(es)
    decreases |es|
  {
    if es != [] {
      match es[0]
      case Start(kind, _) => NestingIsNest([kind] + open, es[1..]);
      case End(_) => NestingIsNest(open[1..], es[1..]);
      case _ => NestingIsNest(open, es[1..]);
    }
  }

  function Walk(path: seq<Type>, es: seq<Event>): (walked: seq<Type>)
    requires path != []
    ensures walked != []
    decreases |es|
  {
    if es == [] then path else Walk(Move(path, es[0]), es[1..])
  }

  /** The path is as long as the nesting says, now and after each event. */
  predicate InStep(path: seq<Type>, depth: int, es: seq<Event>)
    requires path != []
    decreases |es|
  {
    |path| == depth && (es == [] || InStep(Move(path, es[0]), depth + Change(es[0]), es[1..]))
  }

  lemma {:induction false} InStepMeans(path: seq<Type>, depth: int, es: seq<Event>)
    requires path != []
    ensures InStep(path, depth, es) <==>
              forall k | 0 <= k <= |es| :: |Walk(path, es[..k])| == depth + Nesting(es[..k])
    decreases |es|
  {
    if es == [] {
      assert es[..0] == [];
    } else {
      InStepMeans(Move(path, es[0]), depth + Change(es[0]), es[1..]);
      assert es[..0] == [];
      forall k | 1 <= k <= |es|
        ensures Walk(path, es[..k]) == Walk(Move(path, es[0]), es[1..][..k - 1])
        ensures Nesting(es[..k]) == Change(es[0]) + Nesting(es[1..][..k - 1])
      {
        assert es[..k][1..] == es[1..][..k - 1];
      }
      if forall k | 0 <= k <= |es| :: |Walk(path, es[..k])| == depth + Nesting(es[..k]) {
        forall k | 0 <= k <= |es[1..]|
          ensures |Walk(Move(path, es[0]), es[1..][..k])| == depth + Change(es[0]) + Nesting(es[1..][..k])
        {
          assert |Walk(path, es[..k + 1])| == depth + Nesting(es[..k + 1]);
        }
      }
      if InStep(path, depth, es) {
        forall k | 0 <= k <= |es| ensures |Walk(path, es[..k])| == depth + Nesting(es[..k]) {
          if k > 0 {
            assert |Walk(Move(path, es[0]), es[1..][..k - 1])| == depth + Change(es[0]) + Nesting(es[1..][..k - 1]);
          }
        }
      }
    }
  }

  lemma InStepHead(path: seq<Type>, depth: int, e: Event, es: seq<Event>)
    requires path != []
    ensures InStep(path, depth, [e] + es) <==> |path| == depth && InStep(Move(path, e), depth + Change(e), es)
  {
    assert ([e] + es)[1..] == es;
  }

  /** Through the children of a document the path stays in step exactly when each nested part has a place. */
  lemma {:induction false} KidsInStep(path: seq<Type>, kids: Kids, tail: seq<Event>)
    requires path != []
    ensures InStep(path, |path|, TraceKids(kids) + tail) <==>
              Routable(Last(path), kids) && InStep(path, |path|, tail)
    decreases kids, 0
  {
    hide InStep;
    match kids
    case Nil => assert TraceKids(kids) + tail == tail;
    case Cons(name, value, rest) =>
      var tail' := TraceKids(rest) + tail;
      KidsInStep(path, rest, tail);
      match value
      case JNode(kind, inner) =>
        NodeInStep(path, name, kind, inner, tail');
        assert TraceKids(kids) + tail == [Start(kind, name)] + (TraceKids(inner) + ([End(kind)] + tail'));
      case _ =>
        var e := Trace(name, value)[0];
        InStepHead(path, |path|, e, tail');
        assert TraceKids(kids) + tail == [e] + tail';
  }

  lemma {:induction false} NodeInStep(path: seq<Type>, name: string, kind: Kind, inner: Kids, tail: seq<Event>)
    requires path != []
    ensures var t := NestedType(Last(path), name);
            InStep(path, |path|, [Start(kind, name)] + (TraceKids(inner) + ([End(kind)] + tail))) <==>
              t.Some? && Routable(t.value, inner) && InStep(path, |path|, tail)
    decreases inner, 1
  {
    hide InStep;
    var es := TraceKids(inner) + ([End(kind)] + tail);
    var t := NestedType(Last(path), name);
    InStepHead(path, |path|, Start(kind, name), es);
    if t.None? {
      WrongLength(path, |path| + 1, es);
    } else {
      var path' := path + [t.value];
      KidsInStep(path', inner, [End(kind)] + tail);
      InStepHead(path', |path'|, End(kind), tail);
      assert path'[..|path|] == path;
    }
  }

  lemma WrongLength(path: seq<Type>, depth: int, es: seq<Event>)
    requires path != [] && |path| != depth
    ensures !InStep(path, depth, es)
  {
  }

  // ---------- A start that opens nothing ----------

  /** Where the innermost object has no place for a name, a start that does not throw changes nothing at all. */
  lemma {:induction false} StartIgnored(ty: Type, o: Value, f: Focus, kind: Kind, name: string)
    requires Wf(ty) && HasType(ty, o) && Fits(ty, o, f)
    requires NestedType(Last(OpenTypes(ty, o, f)), name).None? && Handle(ty, o, f, Start(kind, name)).Stepped?
    ensures Handle(ty, o, f, Start(kind, name)) == Stepped(o, f, false)
    decreases ty
  {
    if f.Open? {
      ChildHasType(ty, o, f.index);
      StartIgnored(ChildType(ty, f.index), Child(ty, o, f.index), f.inner, kind, name);
      PutSame(ty, o, f.index);
    }
  }

  /** So a nested part under such a name runs as if its own start were not there. */
  lemma NodeSkipsStart(ty: Type, o: Value, f: Focus, name: string, kind: Kind, inner: Kids, tail: seq<Event>)
    requires Wf(ty) && HasType(ty, o) && Fits(ty, o, f)
    requires NestedType(Last(OpenTypes(ty, o, f)), name).None? && Handle(ty, o, f, Start(kind, name)).Stepped?
    ensures Run(ty, o, f, Trace(name, JNode(kind, inner)) + tail) == Run(ty, o, f, TraceKids(inner) + [End(kind)] + tail)
  {
    hide Run, Handle;
    var es := TraceKids(inner) + [End(kind)] + tail;
    assert Trace(name, JNode(kind, inner)) + tail == [Start(kind, name)] + es;
    StartIgnored(ty, o, f, kind, name);
    RunHead(ty, o, f, Start(kind, name), es);
  }

  /** What becomes of an object whose children went through, or did not, when it is released. */
  function Finished(ty: Type, m: Mapped): Result<Value>
    requires m.Mapped? ==> HasType(ty, m.local.obj)
  {
    match m
    case Stopped(error) => Err(error)
    case Mapped(l) => LocalRelease(ty, l.obj, l.changed)
  }

  /**
    * Its children are mapped onto the object around it, on top of what that has, and its end then
    * releases that object: whatever follows is left over.
    */
  lemma UnknownNodeReleases(ty: Type, o: Value, changed: set<nat>, name: string, kind: Kind, inner: Kids, tail: seq<Event>)
    requires Wf(ty) && HasType(ty, o) && Routable(ty, inner)
    requires NestedType(ty, name).None? && Handle(ty, o, Closed(changed), Start(kind, name)).Stepped?
    ensures Run(ty, o, Closed(changed), Trace(name, JNode(kind, inner)) + tail)
         == Release(Finished(ty, MapKids(ty, o, changed, inner)), tail)
  {
    hide Run, Handle, MapKids, LocalRelease;
    NodeSkipsStart(ty, o, Closed(changed), name, kind, inner, tail);
    assert TraceKids(inner) + [End(kind)] + tail == TraceKids(inner) + ([End(kind)] + tail);
    KidsRun(ty, o, changed, inner, [End(kind)] + tail);
    var m := MapKids(ty, o, changed, inner);
    if m.Mapped? {
      EndHandled(ty, m.local.obj, m.local.changed, kind);
      RunHead(ty, m.local.obj, Closed(m.local.changed), End(kind), tail);
    }
  }
}
