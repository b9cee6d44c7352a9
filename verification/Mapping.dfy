/**
  * The direct recursive mapping of a document onto an object, and the proof that routing the
  * document's events through the stack of open objects computes it.
  */
module Mapping {
  import opened Text
  import opened Documents
  import opened Schema
  import opened Cursor

  // ---------- Running a sequence of events ----------

  /** `Released` keeps the events that were left when the object was released. */
  datatype Ran = Running(obj: Value, focus: Focus) | Released(obj: Value, rest: seq<Event>) | Failed(error: Error)

  function Run(ty: Type, o: Value, f: Focus, es: seq<Event>): (r: Ran)
    requires Wf(ty) && HasType(ty, o) && Fits(ty, o, f)
    ensures r.Running? ==> HasType(ty, r.obj) && Fits(ty, r.obj, r.focus)
    ensures r.Released? ==> HasType(ty, r.obj) && |r.rest| < |es|
    decreases |es|
  {
    if es == [] then Running(o, f)
    else match Handle(ty, o, f, es[0])
      case Threw(error) => Failed(error)
      case Stepped(o', f', closed) => if closed then Released(o', es[1..]) else Run(ty, o', f', es[1..])
  }

  /** What is left for the outer object once its child has run. */
  function Resume(ty: Type, o: Value, i: nat, changed: set<nat>, r: Ran): Ran
    requires Wf(ty) && HasType(ty, o) && HasChild(ty, o, i)
    requires r.Running? ==> HasType(ChildType(ty, i), r.obj) && Fits(ChildType(ty, i), r.obj, r.focus)
    requires r.Released? ==> HasType(ChildType(ty, i), r.obj)
  {
    match r
    case Failed(_) => r
    case Running(c, inner) => Running(PutChild(ty, o, i, c), Open(i, changed, inner))
    case Released(c, rest) =>
      PutChildHasType(ty, o, i, c);
      Run(ty, PutChild(ty, o, i, c), Closed(changed), rest)
  }

  /** An outer object does nothing but run its open child, until that is released. */
  lemma {:induction false} OpenRunsChild(ty: Type, o: Value, i: nat, changed: set<nat>, inner: Focus, es: seq<Event>)
    requires Wf(ty) && HasType(ty, o) && Fits(ty, o, Open(i, changed, inner))
    ensures HasType(ChildType(ty, i), Child(ty, o, i)) && Wf(ChildType(ty, i))
    ensures Run(ty, o, Open(i, changed, inner), es)
         == Resume(ty, o, i, changed, Run(ChildType(ty, i), Child(ty, o, i), inner, es))
    decreases |es|
  {
    ChildHasType(ty, o, i);
    var c := Child(ty, o, i);
    if es == [] {
      PutSame(ty, o, i);
    } else {
      match Handle(ChildType(ty, i), c, inner, es[0])
      case Threw(_) =>
      case Stepped(c', inner', closed) =>
        PutChildHasType(ty, o, i, c');
        var o' := PutChild(ty, o, i, c');
        if !closed {
          OpenRunsChild(ty, o', i, changed, inner', es[1..]);
          ResumeTwice(ty, o, i, changed, c', Run(ChildType(ty, i), c', inner', es[1..]));
        }
    }
  }

  lemma PutSame(ty: Type, o: Value, i: nat)
    requires HasChild(ty, o, i)
    ensures PutChild(ty, o, i, Child(ty, o, i)) == o
  {
    match ty
    case TStruct(_, _) => assert o.members[i := o.members[i]] == o.members;
    case TArray(_) => assert o.items[i := o.items[i]] == o.items;
    case TMap(_) => assert o.entries[i := o.entries[i]] == o.entries;
  }

  lemma PutTwice(ty: Type, o: Value, i: nat, v: Value, w: Value)
    requires HasChild(ty, o, i)
    ensures HasChild(ty, PutChild(ty, o, i, v), i)
    ensures PutChild(ty, PutChild(ty, o, i, v), i, w) == PutChild(ty, o, i, w)
  {
    match ty
    case TStruct(_, _) => assert o.members[i := v][i := w] == o.members[i := w];
    case TArray(_) => assert o.items[i := v][i := w] == o.items[i := w];
    case TMap(_) =>
      var e := o.entries[i];
      assert o.entries[i := e.(value := v)][i := e.(value := w)] == o.entries[i := e.(value := w)];
  }

  lemma ResumeTwice(ty: Type, o: Value, i: nat, changed: set<nat>, v: Value, r: Ran)
    requires Wf(ty) && HasType(ty, o) && HasChild(ty, o, i) && HasType(ChildType(ty, i), v)
    requires r.Running? ==> HasType(ChildType(ty, i), r.obj) && Fits(ChildType(ty, i), r.obj, r.focus)
    requires r.Released? ==> HasType(ChildType(ty, i), r.obj)
    ensures HasType(ty, PutChild(ty, o, i, v)) && HasChild(ty, PutChild(ty, o, i, v), i)
    ensures Resume(ty, PutChild(ty, o, i, v), i, changed, r) == Resume(ty, o, i, changed, r)
  {
    PutChildHasType(ty, o, i, v);
    if !r.Failed? {
      PutTwice(ty, o, i, v, r.obj);
    }
  }

  // ---------- The recursive mapping ----------

  datatype Mapped = Mapped(local: Local) | Stopped(error: Error)

  function ScalarOfJson(j: Json): Scalar
    requires j.JBool? || j.JInt? || j.JString?
  {
    match j
    case JBool(b) => SBool(b)
    case JInt(n) => SInt(n)
    case JString(s) => SString(s)
  }

  /** The type of the object that a nested document named `name` is mapped onto. */
  function NestedType(ty: Type, name: string): (r: Option<Type>)
    ensures r.Some? ==> r.value < ty
  {
    match ty
    case TStruct(_, fields) =>
      (match FindField(fields, name)
       case None => None
       case Some(i) => if IsScalar(fields[i].ty) then None else Some(fields[i].ty))
    case TArray(elem) => if IsScalar(elem) then None else Some(elem)
    case TMap(elem) => if IsScalar(elem) then None else Some(elem)
    case _ => None
  }

  /** Every nested struct or array has an object to go to. */
  predicate Routable(ty: Type, kids: Kids)
    decreases kids
  {
    match kids
    case Nil => true
    case Cons(name, value, rest) =>
      && (value.JNode? ==> NestedType(ty, name).Some? && Routable(NestedType(ty, name).value, value.kids))
      && Routable(ty, rest)
  }

  lemma UseOpens(ty: Type, o: Value, changed: set<nat>, name: string)
    requires Wf(ty) && HasType(ty, o) && NestedType(ty, name).Some?
    ensures var r := LocalUse(ty, o, changed, name);
            && r.Ok? && r.value.focus.Open? && r.value.focus.inner == Closed({})
            && HasType(ty, r.value.obj)
            && HasChild(ty, r.value.obj, r.value.focus.index)
            && ChildType(ty, r.value.focus.index) == NestedType(ty, name).value
  {
    LocalUseFits(ty, o, changed, name);
  }

  /** Maps the children of a document, in order, onto `o`. */
  function MapKids(ty: Type, o: Value, changed: set<nat>, kids: Kids): (m: Mapped)
    requires Wf(ty) && HasType(ty, o) && Routable(ty, kids)
    ensures m.Mapped? ==> HasType(ty, m.local.obj)
    decreases kids, 0
  {
    match kids
    case Nil => Mapped(Local(o, changed))
    case Cons(name, value, rest) =>
      match value
      case JNull => MapKids(ty, o, changed, rest)
      case JNode(_, inner) =>
        UseOpens(ty, o, changed, name);
        var used := LocalUse(ty, o, changed, name).value;
        var i := used.focus.index;
        ChildHasType(ty, used.obj, i);
        (match MapNode(ChildType(ty, i), Child(ty, used.obj, i), inner)
         case Err(error) => Stopped(error)
         case Ok(v) =>
           PutChildHasType(ty, used.obj, i, v);
           MapKids(ty, PutChild(ty, used.obj, i, v), used.focus.changed, rest))
      case _ =>
        LocalSetHasType(ty, o, changed, name, ScalarOfJson(value));
        match LocalSet(ty, o, changed, name, ScalarOfJson(value))
        case Err(error) => Stopped(error)
        case Ok(l) => MapKids(ty, l.obj, l.changed, rest)
  }

  /** Maps a whole struct or array onto an object: its children first, then the object closes. */
  function MapNode(ty: Type, o: Value, kids: Kids): (r: Result<Value>)
    requires Wf(ty) && HasType(ty, o) && Routable(ty, kids)
    ensures r.Ok? ==> HasType(ty, r.value)
    decreases kids, 1
  {
    match MapKids(ty, o, {}, kids)
    case Stopped(error) => Err(error)
    case Mapped(l) =>
      if ty.TStruct? then FinishHasType(ty, l.obj, l.changed, 0); LocalRelease(ty, l.obj, l.changed)
      else LocalRelease(ty, l.obj, l.changed)
  }

  // ---------- The events of a document compute its mapping ----------

  /** Goes on with `tail` after the children have been mapped. */
  function Continue(ty: Type, m: Mapped, tail: seq<Event>): Ran
    requires Wf(ty) && (m.Mapped? ==> HasType(ty, m.local.obj))
  {
    match m
    case Stopped(error) => Failed(error)
    case Mapped(l) => Run(ty, l.obj, Closed(l.changed), tail)
  }

  function Proceed(ty: Type, s: Step, tail: seq<Event>): Ran
    requires Wf(ty) && (s.Stepped? ==> HasType(ty, s.obj) && Fits(ty, s.obj, s.focus))
  {
    match s
    case Threw(error) => Failed(error)
    case Stepped(o, f, closed) => if closed then Released(o, tail) else Run(ty, o, f, tail)
  }

  lemma RunHead(ty: Type, o: Value, f: Focus, e: Event, tail: seq<Event>)
    requires Wf(ty) && HasType(ty, o) && Fits(ty, o, f)
    ensures Run(ty, o, f, [e] + tail) == Proceed(ty, Handle(ty, o, f, e), tail)
  {
    assert ([e] + tail)[1..] == tail;
  }

  lemma NullHandled(ty: Type, o: Value, changed: set<nat>, name: string)
    requires Wf(ty) && HasType(ty, o)
    ensures Handle(ty, o, Closed(changed), SetNull(name)) == Stepped(o, Closed(changed), false)
  {
  }

  function AfterSet(r: Result<Local>): Step {
    match r
    case Err(error) => Threw(error)
    case Ok(l) => Stepped(l.obj, Closed(l.changed), false)
  }

  lemma ScalarHandled(ty: Type, o: Value, changed: set<nat>, name: string, value: Json)
    requires Wf(ty) && HasType(ty, o) && !value.JNull? && !value.JNode?
    ensures Handle(ty, o, Closed(changed), Trace(name, value)[0])
         == AfterSet(LocalSet(ty, o, changed, name, ScalarOfJson(value)))
  {
    hide LocalSet;
  }

  lemma {:induction false} KidsRun(ty: Type, o: Value, changed: set<nat>, kids: Kids, tail: seq<Event>)
    requires Wf(ty) && HasType(ty, o) && Routable(ty, kids)
    ensures Run(ty, o, Closed(changed), TraceKids(kids) + tail) == Continue(ty, MapKids(ty, o, changed, kids), tail)
    decreases kids, 0, 1
  {
    hide Run, Handle, LocalSet, LocalUse, LocalRelease, MapNode;
    match kids
    case Nil => assert TraceKids(kids) + tail == tail;
    case Cons(name, value, rest) =>
      var tail' := TraceKids(rest) + tail;
      assert TraceKids(kids) + tail == Trace(name, value) + tail';
      match value
      case JNull =>
        RunHead(ty, o, Closed(changed), SetNull(name), tail');
        NullHandled(ty, o, changed, name);
        KidsRun(ty, o, changed, rest, tail);
      case JNode(kind, inner) =>
        NodeRuns(ty, o, changed, kids, tail);
      case _ =>
        RunHead(ty, o, Closed(changed), Trace(name, value)[0], tail');
        ScalarHandled(ty, o, changed, name, value);
        LocalSetHasType(ty, o, changed, name, ScalarOfJson(value));
        var r := LocalSet(ty, o, changed, name, ScalarOfJson(value));
        if r.Ok? {
          KidsRun(ty, r.value.obj, r.value.changed, rest, tail);
        }
  }

  lemma StartHandled(ty: Type, o: Value, changed: set<nat>, kind: Kind, name: string)
    requires Wf(ty) && HasType(ty, o) && NestedType(ty, name).Some?
    ensures LocalUse(ty, o, changed, name).Ok?
    ensures var used := LocalUse(ty, o, changed, name).value;
            Handle(ty, o, Closed(changed), Start(kind, name)) == Stepped(used.obj, used.focus, false)
  {
    UseOpens(ty, o, changed, name);
  }

  lemma EndHandled(ty: Type, o: Value, changed: set<nat>, kind: Kind)
    requires Wf(ty) && HasType(ty, o)
    ensures Handle(ty, o, Closed(changed), End(kind)) == Closing(LocalRelease(ty, o, changed))
  {
  }

  /** A start opens the child and then only the child runs. */
  lemma NodeOpens(ty: Type, o: Value, changed: set<nat>, kind: Kind, name: string, es: seq<Event>)
    requires Wf(ty) && HasType(ty, o) && NestedType(ty, name).Some?
    ensures LocalUse(ty, o, changed, name).Ok? && LocalUse(ty, o, changed, name).value.focus.Open?
    ensures var used := LocalUse(ty, o, changed, name).value;
            var i := used.focus.index;
            && HasType(ty, used.obj) && HasChild(ty, used.obj, i)
            && Wf(ChildType(ty, i)) && HasType(ChildType(ty, i), Child(ty, used.obj, i))
            && Run(ty, o, Closed(changed), [Start(kind, name)] + es)
               == Resume(ty, used.obj, i, used.focus.changed,
                         Run(ChildType(ty, i), Child(ty, used.obj, i), Closed({}), es))
  {
    hide Run, Handle, LocalUse, Resume;
    StartHandled(ty, o, changed, kind, name);
    RunHead(ty, o, Closed(changed), Start(kind, name), es);
    UseOpens(ty, o, changed, name);
    var used := LocalUse(ty, o, changed, name).value;
    OpenRunsChild(ty, used.obj, used.focus.index, used.focus.changed, Closed({}), es);
  }

  /** What a node's own object does with the events after its start: it is mapped and released. */
  function Release(r: Result<Value>, tail: seq<Event>): Ran {
    match r
    case Err(error) => Failed(error)
    case Ok(v) => Released(v, tail)
  }

  lemma {:induction false} NodeReleases(ty: Type, o: Value, kind: Kind, kids: Kids, tail: seq<Event>)
    requires Wf(ty) && HasType(ty, o) && Routable(ty, kids)
    ensures Run(ty, o, Closed({}), TraceKids(kids) + ([End(kind)] + tail)) == Release(MapNode(ty, o, kids), tail)
    decreases kids, 1
  {
    hide MapKids, Run, Handle, LocalRelease;
    KidsRun(ty, o, {}, kids, [End(kind)] + tail);
    var m := MapKids(ty, o, {}, kids);
    if m.Mapped? {
      EndHandled(ty, m.local.obj, m.local.changed, kind);
      RunHead(ty, m.local.obj, Closed(m.local.changed), End(kind), tail);
    }
  }

  lemma {:induction false} NodeRuns(ty: Type, o: Value, changed: set<nat>, kids: Kids, tail: seq<Event>)
    requires Wf(ty) && HasType(ty, o) && Routable(ty, kids)
    requires kids.Cons? && kids.value.JNode?
    ensures Run(ty, o, Closed(changed), TraceKids(kids) + tail) == Continue(ty, MapKids(ty, o, changed, kids), tail)
    decreases kids, 0, 0
  {
    hide Run, Handle, LocalUse, LocalRelease, MapNode, HasType, Wf;
    var Cons(name, JNode(kind, inner), rest) := kids;
    var tail' := TraceKids(rest) + tail;
    var innerTail := TraceKids(inner) + ([End(kind)] + tail');
    assert TraceKids(kids) + tail == [Start(kind, name)] + innerTail;
    NodeOpens(ty, o, changed, kind, name, innerTail);
    UseOpens(ty, o, changed, name);
    var used := LocalUse(ty, o, changed, name).value;
    var i := used.focus.index;
    var c, child := ChildType(ty, i), Child(ty, used.obj, i);
    NodeReleases(c, child, kind, inner, tail');
    var r := MapNode(c, child, inner);
    if r.Ok? {
      PutChildHasType(ty, used.obj, i, r.value);
      KidsRun(ty, PutChild(ty, used.obj, i, r.value), used.focus.changed, rest, tail);
    }
  }
}
