/**
  * `map_json_to_struct`: the reader's callbacks drive the per-type cursors.
  */
module Mapper {
  import opened Documents
  import opened Schema
  import opened Cursor
  import opened Objects
  import opened Mapping
  import opened Feeding
  import ParserSpec
  import Parser

  /** Changing flags of other types leaves the open path as it is. */
  lemma {:induction false} FocusIgnores(c: map<Type, nat>, f: set<(Type, nat)>, f': set<(Type, nat)>, ty: Type)
    requires forall p: (Type, nat) | Within(p.0, ty) :: p in f <==> p in f'
    ensures FocusOf(c, f, ty) == FocusOf(c, f', ty)
    decreases ty
  {
    assert Flags(f, ty) == Flags(f', ty) by {
      assert forall k: nat :: (ty, k) in f <==> (ty, k) in f';
    }
    if ty in c && IndexOk(ty, c[ty]) {
      FocusIgnores(c, f, f', ChildType(ty, c[ty]));
    }
  }

  lemma FocusCleared(c: map<Type, nat>, f: set<(Type, nat)>, f': set<(Type, nat)>, ty: Type)
    requires f' == set p | p in f && p.0 != ty
    ensures FocusOf(c, f', ty) == FocusOf(c, f, ty).(changed := {})
  {
    assert Flags(f', ty) == {};
    if ty in c && IndexOk(ty, c[ty]) {
      FocusIgnores(c, f, f', ChildType(ty, c[ty]));
    }
  }

  /** The callbacks that the mapper passes to the reader. */
  method Apply(statics: Statics, ty: Type, o: Value, level: int, e: Event) returns (r: Result<Value>, level': int)
    requires statics.Ready(ty, o)
    modifies statics`cursor, statics`changed
    ensures Sound(statics.cursor, statics.changed)
    ensures match FeedOne(ty, Fed(o, old(FocusOf(statics.cursor, statics.changed, ty)), level), e)
            case Err(error) => r == Err(error)
            case Ok(s) =>
              && r == Ok(s.obj) && level' == s.level && Tidy(statics.cursor, ty)
              && FocusOf(statics.cursor, statics.changed, ty) == s.focus
    ensures r.Err? ==> statics.cursor == old(statics.cursor)
    ensures SameOutside(old(statics.cursor), old(statics.changed), statics.cursor, statics.changed, ty)
  {
    hide FocusOf, HasType, Wf, Fits;
    level' := level;
    match e
    case SetNull(name) =>
      NullIgnored(ty, o, FocusOf(statics.cursor, statics.changed, ty), name);
      r := Ok(o);
    case Start(Struct, name) =>
      level' := level + 1;
      if level' == 1 {
        statics.Init(ty);
        FocusCleared(statics.cursor, old(statics.changed), statics.changed, ty);
        r := Ok(o);
      } else {
        r := statics.Use(ty, o, Struct, name);
      }
    case Start(Array, name) => r := statics.Use(ty, o, Array, name);
    case End(kind) =>
      var closed: bool;
      r, closed := statics.Release(ty, o, kind);
      if kind == Struct {
        level' := level - 1;
      }
    case _ =>
      assert EventOf(NameOf(e), ScalarOf(e).value) == e;
      r := statics.Set(ty, o, NameOf(e), ScalarOf(e).value);
  }

  /** Makes the calls `es`, one after the other, until the mapper throws. */
  method Replay(statics: Statics, ty: Type, target: Value, es: seq<Event>) returns (r: Result<Value>)
    requires statics.Ready(ty, target)
    modifies statics`cursor, statics`changed
    ensures Sound(statics.cursor, statics.changed) && Tidy(statics.cursor, ty)
    ensures var fed := Feed(ty, Fed(target, old(FocusOf(statics.cursor, statics.changed, ty)), 0), es);
            if fed.Err? then r == Err(fed.error)
            else
              && r == Ok(fed.value.obj)
              && FocusOf(statics.cursor, statics.changed, ty) == fed.value.focus
    ensures Chain(statics.cursor, ty)
         == OpenKeys(ty, Reached(ty, Fed(target, old(FocusOf(statics.cursor, statics.changed, ty)), 0), es).focus)
    ensures forall t: Type | !Within(t, ty) :: t in statics.cursor <==> t in old(statics.cursor)
    ensures forall kids | es == Trace("", JNode(Struct, kids)) && Routable(ty, kids)
                          && old(FocusOf(statics.cursor, statics.changed, ty)).Closed? ::
              && r == MapNode(ty, target, kids)
              && (r.Ok? ==> FocusOf(statics.cursor, statics.changed, ty) == Closed({}))
  {
    hide Feed, FeedOne, Reached, HasType, FocusOf, Tidy, MapNode, Trace, Chain, OpenKeys;
    var o, level, k := target, 0, 0;
    ghost var focus := FocusOf(statics.cursor, statics.changed, ty);
    ghost var want := Feed(ty, Fed(target, focus, 0), es);
    ghost var end := Reached(ty, Fed(target, focus, 0), es);
    DocumentsFed(ty, target, focus, es);
    assert es[0..] == es;
    while k < |es|
      invariant 0 <= k <= |es|
      invariant statics.Ready(ty, o) && focus == FocusOf(statics.cursor, statics.changed, ty)
      invariant want == Feed(ty, Fed(o, focus, level), es[k..])
      invariant end == Reached(ty, Fed(o, focus, level), es[k..])
      invariant forall t: Type | !Within(t, ty) :: t in statics.cursor <==> t in old(statics.cursor)
    {
      FeedHead(ty, Fed(o, focus, level), es[k..]);
      ReachedHead(ty, Fed(o, focus, level), es[k..]);
      ChainIsOpenKeys(statics.cursor, statics.changed, ty);
      assert es[k..][1..] == es[k + 1..];
      var step: Result<Value>;
      step, level := Apply(statics, ty, o, level, es[k]);
      if step.Err? {
        return step;
      }
      o, focus, k := step.value, FocusOf(statics.cursor, statics.changed, ty), k + 1;
    }
    assert es[k..] == [];
    FeedNothing(ty, Fed(o, focus, level));
    ReachedNothing(ty, Fed(o, focus, level));
    ChainIsOpenKeys(statics.cursor, statics.changed, ty);
    r := Ok(o);
  }

  /** Runs the reader on a text of its own. */
  method ReadEvents(text: string) returns (es: seq<Event>, outcome: ParserSpec.Outcome)
    ensures es == ParserSpec.Document(text).events
    ensures outcome.Done? == ParserSpec.Document(text).outcome.Done?
    ensures outcome.Broken? ==> outcome.fault == ParserSpec.Document(text).outcome.fault
  {
    hide ParserSpec.Document, Parser.Scan;
    var reader := new Parser.Reader(text);
    var st := reader.Parse();
    es := reader.events;
    outcome := if st == Parser.Fine then ParserSpec.Done("") else ParserSpec.Broken(st.fault, "");
  }

  /** The types that a text leaves open, when the stack of open objects is `f` to begin with. */
  function LeftOpen(ty: Type, target: Value, f: Focus, text: string): set<Type>
    requires Wf(ty) && HasType(ty, target) && Fits(ty, target, f)
  {
    OpenKeys(ty, Reached(ty, Fed(target, f, 0), ParserSpec.Document(text).events).focus)
  }

  /**
    * Whatever is left open by the reset is where routing starts, as long as it describes objects of
    * the target. With only types on the list open before, that is nothing, and the result depends on
    * text and target alone.
    */
  method MapJsonToStruct(statics: Statics, ty: Type, target: Value, text: string) returns (r: Outcome)
    requires Wf(ty) && HasType(ty, target) && !IsScalar(ty) && Sound(statics.cursor, statics.changed)
    requires Tidy(statics.Unlisted(), ty) && Fits(ty, target, FocusOf(statics.Unlisted(), statics.changed, ty))
    modifies statics`cursor, statics`changed
    ensures Sound(statics.cursor, statics.changed)
    ensures var f := old(FocusOf(statics.Unlisted(), statics.changed, ty));
            && r == MapTextFrom(ty, target, f, text)
            && forall t | Within(t, ty) :: t in statics.cursor <==> t in LeftOpen(ty, target, f, text)
    ensures forall t: Type | !Within(t, ty) :: t in statics.cursor <==> t in old(statics.Unlisted())
    ensures old(statics.Known()) ==>
              && r == MapText(ty, target, text)
              && (statics.Known() <==> LeftOpen(ty, target, Closed({}), text) <= statics.registered)
              && (Registered(statics.registered, ty) ==> statics.Known())
              && (r.Rebuilt? ==> statics.cursor == map[])
  {
    hide Feed, Reached, ParserSpec.Document, FocusOf, Fits, OpenKeys, Chain, Registered, Tidy;
    ghost var known := statics.Known();
    statics.Reset();
    ghost var c, flags, f := statics.cursor, statics.changed, FocusOf(statics.cursor, statics.changed, ty);
    var es, outcome := ReadEvents(text);
    var mapped := Replay(statics, ty, target, es);
    KeysLeft(statics.cursor, ty);
    if known {
      FromClosed(c, flags, ty, target, text);
      WithinKnown(statics.registered, ty, target, text);
    }
    if mapped.Err? {
      return MapperThrew(mapped.error);
    }
    if outcome.Broken? {
      return ReaderThrew(outcome.fault);
    }
    r := Rebuilt(mapped.value);
  }

  /** In a tidy state the open types below `ty` are those on its path. */
  lemma KeysLeft(c: map<Type, nat>, ty: Type)
    requires Tidy(c, ty)
    ensures forall t | Within(t, ty) :: t in c <==> t in Chain(c, ty)
  {
    ChainIsOpenKeys(c, {}, ty);
  }

  /** From nothing open, flags of earlier runs do not show, and after a complete text nothing is open again. */
  lemma FromClosed(c: map<Type, nat>, flags: set<(Type, nat)>, ty: Type, target: Value, text: string)
    requires Wf(ty) && HasType(ty, target) && c == map[]
    ensures FocusOf(c, flags, ty).Closed? && Fits(ty, target, FocusOf(c, flags, ty))
    ensures var f := FocusOf(c, flags, ty);
            && MapTextFrom(ty, target, f, text) == MapText(ty, target, text)
            && LeftOpen(ty, target, f, text) == LeftOpen(ty, target, Closed({}), text)
            && (MapText(ty, target, text).Rebuilt? ==> LeftOpen(ty, target, f, text) == {})
  {
    hide Feed, Reached, ParserSpec.Document;
    LeftoverFlagsHarmless(ty, target, Flags(flags, ty), text);
    LeftoverFlagsForgotten(ty, target, Flags(flags, ty), text);
    if MapText(ty, target, text).Rebuilt? {
      AllClosed(ty, target, Flags(flags, ty), text);
      ReachedAll(ty, Fed(target, Closed(Flags(flags, ty)), 0), ParserSpec.Document(text).events);
    }
  }

  lemma WithinKnown(registered: set<Type>, ty: Type, target: Value, text: string)
    requires Wf(ty) && HasType(ty, target)
    ensures forall t | t in LeftOpen(ty, target, Closed({}), text) :: Within(t, ty)
    ensures Registered(registered, ty) ==> LeftOpen(ty, target, Closed({}), text) <= registered
  {
    hide Reached, ParserSpec.Document, Registered;
    var end := Reached(ty, Fed(target, Closed({}), 0), ParserSpec.Document(text).events);
    KeysWithin(ty, end.focus);
    if Registered(registered, ty) {
      ListedOpens(registered, ty, end.obj, end.focus);
    }
  }

  lemma {:induction false} KeysWithin(ty: Type, f: Focus)
    ensures forall t | t in OpenKeys(ty, f) :: Within(t, ty)
    decreases ty
  {
    if f.Open? && IndexOk(ty, f.index) {
      KeysWithin(ChildType(ty, f.index), f.inner);
    }
  }
}
