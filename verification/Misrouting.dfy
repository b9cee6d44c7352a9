/**
  * What happens to a nested struct or array whose name is not registered.
  */
module Misrouting {
  import opened Text
  import opened Documents
  import opened Schema
  import opened Cursor
  import opened Mapping
  import opened Routing
  import opened Feeding

  // ---------- In step exactly when every nested part has a place ----------

  lemma {:induction false} FeedMoves(ty: Type, s: Fed, es: seq<Event>)
    requires Wf(ty) && HasType(ty, s.obj) && Fits(ty, s.obj, s.focus) && StaysUp(s.level, es)
    requires Feed(ty, s, es).Ok?
    ensures var t := Feed(ty, s, es).value;
            OpenTypes(ty, t.obj, t.focus) == Walk(OpenTypes(ty, s.obj, s.focus), es)
    decreases |es|
  {
    hide Handle, OpenTypes, Move;
    if es != [] {
      HandleMoves(ty, s.obj, s.focus, es[0]);
      FeedMoves(ty, FeedOne(ty, s, es[0]).value, es[1..]);
    }
  }

  lemma {:induction false} FeedPrefix(ty: Type, s: Fed, es: seq<Event>, k: nat)
    requires Wf(ty) && HasType(ty, s.obj) && Fits(ty, s.obj, s.focus) && k <= |es|
    requires Feed(ty, s, es).Ok? && StaysUp(s.level, es)
    ensures Feed(ty, s, es[..k]).Ok? && StaysUp(s.level, es[..k])
    decreases |es|
  {
    hide Handle;
    if k == 0 {
      assert es[..k] == [];
    } else {
      FeedPrefix(ty, FeedOne(ty, s, es[0]).value, es[1..], k - 1);
      assert es[..k][1..] == es[1..][..k - 1];
    }
  }

  /** After `k` events as many objects are open below this one as structs and arrays are open in the text. */
  ghost predicate InStepAt(ty: Type, s: Fed, es: seq<Event>, k: nat)
    requires Wf(ty) && HasType(ty, s.obj) && Fits(ty, s.obj, s.focus) && k <= |es|
  {
    var r := Feed(ty, s, es[..k]);
    r.Ok? && Depth(r.value.focus) == Nesting(es[..k])
  }

  lemma InStepAtMeans(ty: Type, o: Value, changed: set<nat>, level: int, es: seq<Event>, k: nat)
    requires Wf(ty) && HasType(ty, o) && k <= |es| && StaysUp(level, es)
    requires Feed(ty, Fed(o, Closed(changed), level), es).Ok?
    ensures InStepAt(ty, Fed(o, Closed(changed), level), es, k) <==> |Walk([ty], es[..k])| == 1 + Nesting(es[..k])
  {
    hide Feed, Walk, Nesting;
    var s := Fed(o, Closed(changed), level);
    FeedPrefix(ty, s, es, k);
    FeedMoves(ty, s, es[..k]);
    var t := Feed(ty, s, es[..k]).value;
    PathLength(ty, t.obj, t.focus);
  }

  /**
    * When the children of a struct that is closed below go through without an exception, the open
    * objects are in step with the nesting of the text after every event if and only if each nested
    * struct or array has a place in the schema.
    */
  lemma InStepExactlyWhenRoutable(ty: Type, o: Value, changed: set<nat>, level: int, kids: Kids)
    requires Wf(ty) && HasType(ty, o) && level >= 1
    requires Feed(ty, Fed(o, Closed(changed), level), TraceKids(kids)).Ok?
    ensures (forall k | 0 <= k <= |TraceKids(kids)| :: InStepAt(ty, Fed(o, Closed(changed), level), TraceKids(kids), k))
       <==> Routable(ty, kids)
  {
    hide Feed, InStep, Walk, Nesting, InStepAt, StaysUp;
    var es := TraceKids(kids);
    assert es + [] == es;
    KidsStayUp(level, kids, []);
    assert StaysUp(level, []) by { NothingStarts(level); }
    KidsInStep([ty], kids, []);
    InStepMeans([ty], 1, es);
    InStepMeans([ty], 1, []);
    OneOpen(ty);
    forall k | 0 <= k <= |es|
      ensures InStepAt(ty, Fed(o, Closed(changed), level), es, k) <==> |Walk([ty], es[..k])| == 1 + Nesting(es[..k])
    {
      InStepAtMeans(ty, o, changed, level, es, k);
    }
  }

  lemma NothingStarts(level: int)
    ensures StaysUp(level, [])
  {
  }

  lemma OneOpen(ty: Type)
    ensures InStep([ty], 1, [])
  {
  }

  // ---------- Two documents that go wrong ----------

  const MISROUTED := JNode(Struct, Cons("z", JNode(Struct, Cons("a", JInt(1), Nil)), Nil))
  const CLOSED_TWICE := JNode(Struct, Cons("a", JInt(1), Cons("z", JNode(Struct, Nil), Nil)))

  function OneField(required: bool): Type {
    TStruct("s", [Field("a", TInt(0, 9), false, required, false, None, None, VInt(0))])
  }

  function Having(n: int): Value {
    VStruct([VInt(n)])
  }

  lemma OneFieldTyped(required: bool, n: int)
    requires 0 <= n <= 9
    ensures Wf(OneField(required)) && HasType(OneField(required), Having(n))
  {
    var ty := OneField(required);
    assert WfField(ty.fields[0]);
    assert FieldHolds(ty.fields[0], VInt(n));
  }

  lemma UnknownStart(required: bool, n: int, changed: set<nat>, name: string)
    requires name != "a" && Wf(OneField(required)) && HasType(OneField(required), Having(n))
    ensures Handle(OneField(required), Having(n), Closed(changed), Start(Struct, name))
         == Stepped(Having(n), Closed(changed), false)
  {
    assert FindField(OneField(required).fields, name) == None;
  }

  lemma KnownScalar(required: bool, n: int, changed: set<nat>)
    requires Wf(OneField(required)) && HasType(OneField(required), Having(n))
    ensures Handle(OneField(required), Having(n), Closed(changed), SetIntegral("a", 1))
         == Stepped(Having(1), Closed(changed + {0}), false)
  {
    assert FindField(OneField(required).fields, "a") == Some(0);
    assert [VInt(n)][0 := VInt(1)] == [VInt(1)];
  }

  lemma Ending(required: bool, n: int, changed: set<nat>)
    requires Wf(OneField(required)) && HasType(OneField(required), Having(n))
    ensures Handle(OneField(required), Having(n), Closed(changed), End(Struct))
         == if required && 0 !in changed then Threw(MissingRequired("a")) else Stepped(Having(n), Closed({}), true)
  {
    assert [VInt(n)][0 := VInt(n)] == [VInt(n)];
    assert Finish(OneField(required).fields, [VInt(n)], changed, 1) == Ok([VInt(n)]);
  }

  lemma FeedStep(ty: Type, s: Fed, e: Event, es: seq<Event>)
    requires Wf(ty) && HasType(ty, s.obj) && Fits(ty, s.obj, s.focus) && s.level >= 1
    ensures Feed(ty, s, [e] + es) ==
            var r := Handle(ty, s.obj, s.focus, e);
            if r.Threw? then Err(r.error) else Feed(ty, Fed(r.obj, r.focus, LevelAfter(s.level, e)), es)
  {
    hide Handle;
    assert ([e] + es)[1..] == es;
  }

  lemma FeedLast(ty: Type, s: Fed, e: Event)
    requires Wf(ty) && HasType(ty, s.obj) && Fits(ty, s.obj, s.focus) && s.level >= 1
    ensures Feed(ty, s, [e]) ==
            var r := Handle(ty, s.obj, s.focus, e);
            if r.Threw? then Err(r.error) else Ok(Fed(r.obj, r.focus, LevelAfter(s.level, e)))
  {
    hide Handle;
    FeedStep(ty, s, e, []);
    assert [e] + [] == [e];
  }

  /**
    * {"z":{"a":1}} sets the outer a, and {"a":1,"z":{}} fails on a required a that was set, because
    * the second closing finds its flag cleared.
    */
  lemma UnknownNameMisroutes()
    ensures Wf(OneField(false)) && HasType(OneField(false), Having(0))
    ensures Wf(OneField(true)) && HasType(OneField(true), Having(0))
    ensures Feed(OneField(false), Fed(Having(0), Closed({}), 0), Trace("", MISROUTED)) == Ok(Fed(Having(1), Closed({}), 0))
    ensures Feed(OneField(true), Fed(Having(0), Closed({}), 0), Trace("", CLOSED_TWICE)) == Err(MissingRequired("a"))
  {
    hide Feed, HasType, Wf;
    OneFieldTyped(false, 0);
    OneFieldTyped(true, 0);
    MemberLands();
    RequiredLost();
  }

  lemma MemberLands()
    requires Wf(OneField(false)) && HasType(OneField(false), Having(0))
    ensures Feed(OneField(false), Fed(Having(0), Closed({}), 0), Trace("", MISROUTED)) == Ok(Fed(Having(1), Closed({}), 0))
  {
    hide Feed, Handle, HasType, Wf, OneField, Having;
    var ty := OneField(false);
    var e3 := [End(Struct)] + [End(Struct)];
    var e2 := [SetIntegral("a", 1)] + e3;
    var e1 := [Start(Struct, "z")] + e2;
    assert Trace("", MISROUTED) == [Start(Struct, "")] + e1;
    OneFieldTyped(false, 1);
    RootStarts(ty, Having(0), Closed({}), e1);
    UnknownStart(false, 0, {}, "z");
    FeedStep(ty, Fed(Having(0), Closed({}), 1), Start(Struct, "z"), e2);
    KnownScalar(false, 0, {});
    FeedStep(ty, Fed(Having(0), Closed({}), 2), SetIntegral("a", 1), e3);
    Ending(false, 1, {} + {0});
    FeedStep(ty, Fed(Having(1), Closed({} + {0}), 2), End(Struct), [End(Struct)]);
    Ending(false, 1, {});
    FeedLast(ty, Fed(Having(1), Closed({}), 1), End(Struct));
  }

  lemma RequiredLost()
    requires Wf(OneField(true)) && HasType(OneField(true), Having(0))
    ensures Feed(OneField(true), Fed(Having(0), Closed({}), 0), Trace("", CLOSED_TWICE)) == Err(MissingRequired("a"))
  {
    hide Feed, Handle, HasType, Wf, OneField, Having;
    var ty := OneField(true);
    var e3 := [End(Struct)] + [End(Struct)];
    var e2 := [Start(Struct, "z")] + e3;
    var e1 := [SetIntegral("a", 1)] + e2;
    assert Trace("", CLOSED_TWICE) == [Start(Struct, "")] + e1;
    OneFieldTyped(true, 1);
    RootStarts(ty, Having(0), Closed({}), e1);
    KnownScalar(true, 0, {});
    FeedStep(ty, Fed(Having(0), Closed({}), 1), SetIntegral("a", 1), e2);
    UnknownStart(true, 1, {} + {0}, "z");
    FeedStep(ty, Fed(Having(1), Closed({} + {0}), 1), Start(Struct, "z"), e3);
    Ending(true, 1, {} + {0});
    FeedStep(ty, Fed(Having(1), Closed({} + {0}), 2), End(Struct), [End(Struct)]);
    Ending(true, 1, {});
    FeedLast(ty, Fed(Having(1), Closed({}), 1), End(Struct));
  }
}
