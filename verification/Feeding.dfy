/**
  * Feeding the reader's callbacks to a root object: the struct level decides which start initialises
  * the root, and every other event goes to the open path.
  */
module Feeding {
  import opened Documents
  import opened Schema
  import opened Cursor
  import opened Mapping
  import opened Routing
  import ParserSpec
  import ParserLaws

  // ---------- Feeding events to the root object ----------

  datatype Fed = Fed(obj: Value, focus: Focus, level: int)

  function LevelAfter(level: int, e: Event): int {
    if e == End(Struct) then level - 1
    else if e.Start? && e.kind == Struct then level + 1
    else level
  }

  /** The first struct initialises the root; every other event goes to the open path below it. */
  function FeedOne(ty: Type, s: Fed, e: Event): (r: Result<Fed>)
    requires Wf(ty) && HasType(ty, s.obj) && Fits(ty, s.obj, s.focus)
    ensures r.Ok? ==> HasType(ty, r.value.obj) && Fits(ty, r.value.obj, r.value.focus)
  {
    if e.Start? && e.kind == Struct && s.level == 0 then
      Ok(Fed(s.obj, s.focus.(changed := {}), 1))
    else match Handle(ty, s.obj, s.focus, e)
      case Threw(error) => Err(error)
      case Stepped(o, f, _) => Ok(Fed(o, f, LevelAfter(s.level, e)))
  }

  function Feed(ty: Type, s: Fed, es: seq<Event>): (r: Result<Fed>)
    requires Wf(ty) && HasType(ty, s.obj) && Fits(ty, s.obj, s.focus)
    ensures r.Ok? ==> HasType(ty, r.value.obj) && Fits(ty, r.value.obj, r.value.focus)
    decreases |es|
  {
    if es == [] then Ok(s)
    else match FeedOne(ty, s, es[0])
      case Err(error) => Err(error)
      case Ok(s') => Feed(ty, s', es[1..])
  }

  datatype Outcome = Rebuilt(v: Value) | MapperThrew(error: Error) | ReaderThrew(fault: ParserSpec.Fault)

  /**
    * What mapping a text onto an object gives when the stack of open objects is `f` to begin with.
    * The reader stops at the mapper's first exception, so that one comes first.
    */
  function MapTextFrom(ty: Type, target: Value, f: Focus, text: string): Outcome
    requires Wf(ty) && HasType(ty, target) && Fits(ty, target, f)
  {
    var p := ParserSpec.Document(text);
    match Feed(ty, Fed(target, f, 0), p.events)
    case Err(error) => MapperThrew(error)
    case Ok(s) => if p.outcome.Done? then Rebuilt(s.obj) else ReaderThrew(p.outcome.fault)
  }

  /** With nothing open. */
  function MapText(ty: Type, target: Value, text: string): Outcome
    requires Wf(ty) && HasType(ty, target)
  {
    MapTextFrom(ty, target, Closed({}), text)
  }

  /** Where feeding ends: after all events, or before the one that throws. */
  function Reached(ty: Type, s: Fed, es: seq<Event>): (t: Fed)
    requires Wf(ty) && HasType(ty, s.obj) && Fits(ty, s.obj, s.focus)
    ensures HasType(ty, t.obj) && Fits(ty, t.obj, t.focus)
    decreases |es|
  {
    if es == [] then s
    else match FeedOne(ty, s, es[0])
      case Err(_) => s
      case Ok(s') => Reached(ty, s', es[1..])
  }

  lemma {:induction false} ReachedAll(ty: Type, s: Fed, es: seq<Event>)
    requires Wf(ty) && HasType(ty, s.obj) && Fits(ty, s.obj, s.focus) && Feed(ty, s, es).Ok?
    ensures Reached(ty, s, es) == Feed(ty, s, es).value
    decreases |es|
  {
    hide FeedOne;
    if es != [] {
      ReachedAll(ty, FeedOne(ty, s, es[0]).value, es[1..]);
    }
  }

  lemma ReachedNothing(ty: Type, s: Fed)
    requires Wf(ty) && HasType(ty, s.obj) && Fits(ty, s.obj, s.focus)
    ensures Reached(ty, s, []) == s
  {
  }

  lemma ReachedHead(ty: Type, s: Fed, es: seq<Event>)
    requires Wf(ty) && HasType(ty, s.obj) && Fits(ty, s.obj, s.focus) && es != []
    ensures var r := FeedOne(ty, s, es[0]);
            Reached(ty, s, es) == if r.Err? then s else Reached(ty, r.value, es[1..])
  {
  }

  /** Once a call throws, no later call and no fault of the reader matters. */
  lemma {:induction false} FirstThrowStays(ty: Type, s: Fed, es: seq<Event>, k: nat)
    requires Wf(ty) && HasType(ty, s.obj) && Fits(ty, s.obj, s.focus) && k <= |es|
    requires Feed(ty, s, es[..k]).Err?
    ensures Feed(ty, s, es) == Feed(ty, s, es[..k])
    decreases |es|
  {
    hide FeedOne;
    if k > 0 && FeedOne(ty, s, es[0]).Ok? {
      assert es[..k][1..] == es[1..][..k - 1];
      FirstThrowStays(ty, FeedOne(ty, s, es[0]).value, es[1..], k - 1);
    }
  }

  /** The mapper's first exception is the result, whether the reader goes on to the end or not. */
  lemma MapperThrowsFirst(ty: Type, target: Value, f: Focus, text: string, k: nat)
    requires Wf(ty) && HasType(ty, target) && Fits(ty, target, f) && k <= |ParserSpec.Document(text).events|
    requires Feed(ty, Fed(target, f, 0), ParserSpec.Document(text).events[..k]).Err?
    ensures MapTextFrom(ty, target, f, text)
         == MapperThrew(Feed(ty, Fed(target, f, 0), ParserSpec.Document(text).events[..k]).error)
  {
    hide Feed, ParserSpec.Document;
    FirstThrowStays(ty, Fed(target, f, 0), ParserSpec.Document(text).events, k);
  }

  lemma FeedNothing(ty: Type, s: Fed)
    requires Wf(ty) && HasType(ty, s.obj) && Fits(ty, s.obj, s.focus)
    ensures Feed(ty, s, []) == Ok(s)
  {
  }

  lemma FeedHead(ty: Type, s: Fed, es: seq<Event>)
    requires Wf(ty) && HasType(ty, s.obj) && Fits(ty, s.obj, s.focus) && es != []
    ensures var r := FeedOne(ty, s, es[0]);
            Feed(ty, s, es) == if r.Err? then Err(r.error) else Feed(ty, r.value, es[1..])
  {
  }

  /** Wherever it is routed, a null changes nothing. */
  lemma {:induction false} NullIgnored(ty: Type, o: Value, f: Focus, name: string)
    requires Wf(ty) && HasType(ty, o) && Fits(ty, o, f)
    ensures Handle(ty, o, f, SetNull(name)) == Stepped(o, f, false)
    decreases ty
  {
    if f.Open? {
      ChildHasType(ty, o, f.index);
      NullIgnored(ChildType(ty, f.index), Child(ty, o, f.index), f.inner, name);
      PutSame(ty, o, f.index);
    }
  }

  /** Flags left over from an earlier run do not matter: the first event clears the root's. */
  lemma LeftoverFlagsHarmless(ty: Type, o: Value, flags: set<nat>, text: string)
    requires Wf(ty) && HasType(ty, o)
    ensures var es := ParserSpec.Document(text).events;
            var a, b := Feed(ty, Fed(o, Closed(flags), 0), es), Feed(ty, Fed(o, Closed({}), 0), es);
            if es == [] then a == Ok(Fed(o, Closed(flags), 0)) && b == Ok(Fed(o, Closed({}), 0)) else a == b
  {
    hide ParserSpec.Loop, ParserSpec.WaitFor;
    var es := ParserSpec.Document(text).events;
    assert es == [] || es[0] == Start(Struct, "");
  }

  /** Nor where feeding ends. */
  lemma LeftoverFlagsForgotten(ty: Type, o: Value, flags: set<nat>, text: string)
    requires Wf(ty) && HasType(ty, o)
    ensures var es := ParserSpec.Document(text).events;
            var a, b := Reached(ty, Fed(o, Closed(flags), 0), es), Reached(ty, Fed(o, Closed({}), 0), es);
            if es == [] then a.focus.Closed? && b.focus.Closed? else a == b
  {
    hide ParserSpec.Loop, ParserSpec.WaitFor;
    var es := ParserSpec.Document(text).events;
    assert es == [] || es[0] == Start(Struct, "");
  }

  // ---------- Feeding a document computes the recursive mapping ----------

  /** No struct starts while the level is 0. */
  predicate StaysUp(level: int, es: seq<Event>)
    decreases |es|
  {
    es == [] || ((es[0].Start? && es[0].kind == Struct ==> level != 0) && StaysUp(LevelAfter(level, es[0]), es[1..]))
  }

  function Level(level: int, es: seq<Event>): int
    decreases |es|
  {
    if es == [] then level else Level(LevelAfter(level, es[0]), es[1..])
  }

  lemma UpStep(level: int, e: Event, es: seq<Event>)
    ensures StaysUp(level, [e] + es) ==
            ((e.Start? && e.kind == Struct ==> level != 0) && StaysUp(LevelAfter(level, e), es))
    ensures Level(level, [e] + es) == Level(LevelAfter(level, e), es)
  {
    assert ([e] + es)[1..] == es;
  }

  lemma {:induction false} KidsStayUp(level: int, kids: Kids, tail: seq<Event>)
    requires level >= 1
    ensures StaysUp(level, TraceKids(kids) + tail) == StaysUp(level, tail)
    ensures Level(level, TraceKids(kids) + tail) == Level(level, tail)
    decreases kids
  {
    hide StaysUp, Level;
    match kids
    case Nil => assert TraceKids(kids) + tail == tail;
    case Cons(name, value, rest) =>
      var tail' := TraceKids(rest) + tail;
      assert TraceKids(kids) + tail == Trace(name, value) + tail';
      KidsStayUp(level, rest, tail);
      match value
      case JNode(kind, inner) =>
        var es := TraceKids(inner) + ([End(kind)] + tail');
        assert Trace(name, value) + tail' == [Start(kind, name)] + es;
        UpStep(level, Start(kind, name), es);
        KidsStayUp(LevelAfter(level, Start(kind, name)), inner, [End(kind)] + tail');
        UpStep(LevelAfter(level, Start(kind, name)), End(kind), tail');
      case _ => UpStep(level, Trace(name, value)[0], tail');
  }

  /** Until the root is released, feeding events is running them. */
  lemma {:induction false} FeedIsRun(ty: Type, s: Fed, es: seq<Event>)
    requires Wf(ty) && HasType(ty, s.obj) && Fits(ty, s.obj, s.focus) && StaysUp(s.level, es)
    ensures match Run(ty, s.obj, s.focus, es)
            case Failed(error) => Feed(ty, s, es) == Err(error)
            case Running(o, f) => Feed(ty, s, es) == Ok(Fed(o, f, Level(s.level, es)))
            case Released(o, rest) => rest == [] ==> Feed(ty, s, es) == Ok(Fed(o, Closed({}), Level(s.level, es)))
    decreases |es|
  {
    if es != [] {
      match Handle(ty, s.obj, s.focus, es[0])
      case Threw(_) =>
      case Stepped(o, f, closed) =>
        if !closed {
          FeedIsRun(ty, Fed(o, f, LevelAfter(s.level, es[0])), es[1..]);
        }
    }
  }

  /** The root's own start does not open anything: it clears the root's flags. */
  lemma RootStarts(ty: Type, o: Value, f: Focus, es: seq<Event>)
    requires Wf(ty) && HasType(ty, o) && Fits(ty, o, f)
    ensures Feed(ty, Fed(o, f, 0), [Start(Struct, "")] + es) == Feed(ty, Fed(o, f.(changed := {}), 1), es)
  {
    assert ([Start(Struct, "")] + es)[1..] == es;
  }

  lemma NodeStaysUp(kids: Kids)
    ensures StaysUp(1, TraceKids(kids) + [End(Struct)]) && Level(1, TraceKids(kids) + [End(Struct)]) == 0
  {
    KidsStayUp(1, kids, [End(Struct)]);
    assert [End(Struct)][1..] == [];
  }

  /**
    * For every document whose nested parts all have a place in the schema, and whatever flags an
    * earlier run left, feeding its events computes the direct recursive mapping, or throws what
    * it throws, and ends with everything closed.
    */
  lemma FeedComputesMapping(ty: Type, target: Value, flags: set<nat>, kids: Kids)
    requires Wf(ty) && HasType(ty, target) && Routable(ty, kids)
    ensures var r := Feed(ty, Fed(target, Closed(flags), 0), Trace("", JNode(Struct, kids)));
            match MapNode(ty, target, kids)
            case Err(error) => r == Err(error)
            case Ok(v) => r == Ok(Fed(v, Closed({}), 0))
  {
    hide MapNode, Run, Feed, StaysUp, Level;
    var es := TraceKids(kids) + [End(Struct)];
    assert Trace("", JNode(Struct, kids)) == [Start(Struct, "")] + es;
    assert [End(Struct)] + [] == [End(Struct)];
    RootStarts(ty, target, Closed(flags), es);
    NodeStaysUp(kids);
    FeedIsRun(ty, Fed(target, Closed({}), 1), es);
    NodeReleases(ty, target, Struct, kids, []);
  }

  /** The object that was fed. */
  function ObjectFed(r: Result<Fed>): Result<Value> {
    match r
    case Err(error) => Err(error)
    case Ok(s) => Ok(s.obj)
  }

  lemma DocumentsFed(ty: Type, target: Value, focus: Focus, es: seq<Event>)
    requires Wf(ty) && HasType(ty, target) && Fits(ty, target, focus)
    ensures forall kids | es == Trace("", JNode(Struct, kids)) && Routable(ty, kids) && focus.Closed? ::
              var r := Feed(ty, Fed(target, focus, 0), es);
              ObjectFed(r) == MapNode(ty, target, kids) && (r.Ok? ==> r.value.focus == Closed({}))
  {
    hide Feed, MapNode, Trace;
    forall kids | es == Trace("", JNode(Struct, kids)) && Routable(ty, kids) && focus.Closed?
      ensures var r := Feed(ty, Fed(target, focus, 0), es);
              ObjectFed(r) == MapNode(ty, target, kids) && (r.Ok? ==> r.value.focus == Closed({}))
    {
      FeedComputesMapping(ty, target, focus.changed, kids);
    }
  }

  // ---------- Every cursor ends closed ----------

  /**
    * A start opens one level exactly when the innermost object has a place for its name, and else
    * none; an end closes exactly the innermost level; nothing else moves.
    */
  lemma DepthStep(ty: Type, o: Value, f: Focus, e: Event)
    requires Wf(ty) && HasType(ty, o) && Fits(ty, o, f)
    requires Handle(ty, o, f, e).Stepped?
    ensures var s := Handle(ty, o, f, e);
            && (e.Start? ==>
                  var opens := NestedType(Last(OpenTypes(ty, o, f)), e.name).Some?;
                  !s.closed && Depth(s.focus) == Depth(f) + if opens then 1 else 0)
            && (e.End? ==> (s.closed <==> f.Closed?) && Depth(s.focus) == if f.Closed? then 0 else Depth(f) - 1)
            && (!e.Start? && !e.End? ==> Depth(s.focus) == Depth(f) && !s.closed)
  {
    hide Handle;
    var s := Handle(ty, o, f, e);
    HandleMoves(ty, o, f, e);
    PathLength(ty, o, f);
    PathLength(ty, s.obj, s.focus);
  }

  /** The open path is never deeper than the nesting of the events. */
  lemma {:induction false} DepthBounded(ty: Type, s: Fed, open: seq<Kind>, es: seq<Event>)
    requires Wf(ty) && HasType(ty, s.obj) && Fits(ty, s.obj, s.focus)
    requires Nest(open, es).Some? && Feed(ty, s, es).Ok? && Depth(s.focus) <= |open|
    ensures Depth(Feed(ty, s, es).value.focus) <= |Nest(open, es).value|
    decreases |es|
  {
    if es != [] {
      var s' := FeedOne(ty, s, es[0]).value;
      if Handle(ty, s.obj, s.focus, es[0]).Stepped? {
        DepthStep(ty, s.obj, s.focus, es[0]);
      }
      match es[0]
      case Start(kind, _) => DepthBounded(ty, s', [kind] + open, es[1..]);
      case End(_) => DepthBounded(ty, s', open[1..], es[1..]);
      case _ => DepthBounded(ty, s', open, es[1..]);
    }
  }

  /** Whatever a complete text contains, all objects are closed when the mapper gets through it. */
  lemma AllClosed(ty: Type, target: Value, flags: set<nat>, text: string)
    requires Wf(ty) && HasType(ty, target)
    requires ParserSpec.Document(text).outcome.Done?
    ensures var r := Feed(ty, Fed(target, Closed(flags), 0), ParserSpec.Document(text).events);
            r.Ok? ==> r.value.focus.Closed?
  {
    hide ParserSpec.Document, Feed;
    var es := ParserSpec.Document(text).events;
    ParserLaws.DocumentNests(text);
    if Feed(ty, Fed(target, Closed(flags), 0), es).Ok? {
      DepthBounded(ty, Fed(target, Closed(flags), 0), [], es);
    }
  }
}
