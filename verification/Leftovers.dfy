/**
  * Which types a text can leave open for the next one: what has to be on the list to be reset.
  */
module Leftovers {
  import opened Text
  import opened Documents
  import opened Schema
  import opened Cursor
  import opened Mapping
  import opened Objects
  import opened Feeding
  import opened Mapper
  import opened Misrouting
  import opened PrinterSpec
  import ParserSpec
  import RoundTrip
  import MemberLaws

  // ---------- Texts that break off inside nested structs ----------

  /** `{"n1":{"n2":{` and so on, for the names in order. */
  function TextOf(names: seq<string>): string {
    "{" + Inside(names)
  }

  function Inside(names: seq<string>): string {
    if names == [] then "" else "\"" + names[0] + "\":{" + Inside(names[1..])
  }

  function Starts(names: seq<string>): seq<Event> {
    if names == [] then [] else [Start(Struct, names[0])] + Starts(names[1..])
  }

  ghost predicate AllQuoteFree(names: seq<string>) {
    forall i | 0 <= i < |names| :: QuoteFree(names[i])
  }

  lemma {:induction false} InsideReads(names: seq<string>)
    requires AllQuoteFree(names)
    ensures ParserSpec.Loop(Struct, Inside(names), ParserSpec.AfterStart)
         == ParserSpec.Parsed(Starts(names), ParserSpec.Broken(ParserSpec.UnexpectedEnd, ""))
    decreases |names|
  {
    hide ParserSpec.Loop, ParserSpec.Value, ParserSpec.Element, ParserSpec.QuotedText, ParserSpec.Expected;
    if names == [] {
      EmptyLoop();
    } else {
      var n, rest := names[0], Inside(names[1..]);
      InsideReads(names[1..]);
      MemberOpens(n, rest);
      MemberTurn(n + "\":{" + rest);
      assert Inside(names) == ['\"'] + (n + "\":{" + rest);
    }
  }

  lemma EmptyLoop()
    ensures ParserSpec.Loop(Struct, "", ParserSpec.AfterStart)
         == ParserSpec.Parsed([], ParserSpec.Broken(ParserSpec.UnexpectedEnd, ""))
  {
  }

  /** A member that breaks off is the last thing a loop reads. */
  lemma MemberTurn(rem: string)
    requires ParserSpec.Member(rem).outcome.Broken?
    ensures ParserSpec.Loop(Struct, ['\"'] + rem, ParserSpec.AfterStart) == ParserSpec.Member(rem)
  {
    hide ParserSpec.Member;
    RoundTrip.WaitForHit('\"', rem, ParserSpec.Expected(Struct, ParserSpec.AfterStart));
  }

  lemma MemberOpens(n: string, rest: string)
    requires QuoteFree(n)
    ensures ParserSpec.Member(n + "\":{" + rest)
         == ParserSpec.After([Start(Struct, n)], ParserSpec.Loop(Struct, rest, ParserSpec.AfterStart))
  {
    hide ParserSpec.Loop, ParserSpec.QuotedText;
    assert n + "\":{" + rest == n + "\"" + (":{" + rest);
    RoundTrip.QuotedTextReads(n, ":{" + rest);
    assert ":{" + rest == [':'] + ("{" + rest) && "{" + rest == ['{'] + rest;
    RoundTrip.WaitForHit(':', "{" + rest, ":");
    RoundTrip.WaitForHit('{', rest, ParserSpec.VALUE_START);
  }

  lemma TextReads(names: seq<string>)
    requires AllQuoteFree(names)
    ensures ParserSpec.Document(TextOf(names))
         == ParserSpec.Parsed([Start(Struct, "")] + Starts(names), ParserSpec.Broken(ParserSpec.UnexpectedEnd, ""))
  {
    hide ParserSpec.Loop;
    InsideReads(names);
    RoundTrip.WaitForHit('{', Inside(names), "{");
  }

  // ---------- Whatever is not on the list can be left open ----------

  /** Every name of a member can be written in a text. */
  ghost predicate Writable(ty: Type)
    decreases ty
  {
    match ty
    case TStruct(_, fields) => forall i | 0 <= i < |fields| :: QuoteFree(fields[i].name) && Writable(fields[i].ty)
    case TArray(elem) => Writable(elem)
    case TMap(elem) => Writable(elem)
    case _ => true
  }

  /** A name that opens a type not on the list, or leads on to one. */
  lemma UnlistedName(registered: set<Type>, ty: Type) returns (name: string)
    requires Wf(ty) && !Registered(registered, ty)
    ensures NestedType(ty, name).Some?
    ensures var t := NestedType(ty, name).value;
            && t < ty && (ty in registered ==> !Registered(registered, t))
            && (Writable(ty) ==> QuoteFree(name) && Writable(t))
  {
    match ty
    case TStruct(_, fields) =>
      var i :| 0 <= i < |fields| && !IsScalar(fields[i].ty)
               && (ty in registered ==> !Registered(registered, fields[i].ty));
      MemberLaws.FindRegistered(ty, i);
      name := fields[i].name;
    case _ => name := "";
  }

  lemma {:induction false} UnlistedOpens(registered: set<Type>, ty: Type, o: Value, changed: set<nat>)
    returns (names: seq<string>)
    requires Wf(ty) && HasType(ty, o) && !Registered(registered, ty)
    ensures Writable(ty) ==> AllQuoteFree(names)
    ensures var r := Run(ty, o, Closed(changed), Starts(names));
            r.Running? && !(OpenKeys(ty, r.focus) <= registered)
    decreases ty
  {
    hide Run, Registered, LocalUse, NestedType, Writable, Wf, HasType;
    var name := UnlistedName(registered, ty);
    UseOpens(ty, o, changed, name);
    NodeOpens(ty, o, changed, Struct, name, []);
    var used := LocalUse(ty, o, changed, name).value;
    var i := used.focus.index;
    var c, child := ChildType(ty, i), Child(ty, used.obj, i);
    var rest := [];
    if ty in registered {
      rest := UnlistedOpens(registered, c, child, {});
    }
    names := [name] + rest;
    assert names[1..] == rest;
    NodeOpens(ty, o, changed, Struct, name, Starts(rest));
    RunsNothing(c, child);
    OpenedKeys(ty, used.obj, i, used.focus.changed, Run(c, child, Closed({}), Starts(rest)));
  }

  lemma RunsNothing(ty: Type, o: Value)
    requires Wf(ty) && HasType(ty, o)
    ensures Run(ty, o, Closed({}), []) == Running(o, Closed({}))
  {
  }

  lemma OpenedKeys(ty: Type, o: Value, i: nat, changed: set<nat>, r: Ran)
    requires Wf(ty) && HasType(ty, o) && HasChild(ty, o, i) && r.Running?
    requires HasType(ChildType(ty, i), r.obj) && Fits(ChildType(ty, i), r.obj, r.focus)
    ensures var s := Resume(ty, o, i, changed, r);
            s.Running? && OpenKeys(ty, s.focus) == {ty} + OpenKeys(ChildType(ty, i), r.focus)
  {
  }

  lemma {:induction false} StartsStayUp(level: int, names: seq<string>)
    requires level >= 1
    ensures StaysUp(level, Starts(names))
    decreases |names|
  {
    if names != [] {
      StartsStayUp(level + 1, names[1..]);
      UpStep(level, Start(Struct, names[0]), Starts(names[1..]));
    }
  }

  /** Feeding those calls ends where running them does. */
  lemma StartsReach(ty: Type, target: Value, names: seq<string>)
    requires Wf(ty) && HasType(ty, target) && Run(ty, target, Closed({}), Starts(names)).Running?
    ensures Reached(ty, Fed(target, Closed({}), 0), [Start(Struct, "")] + Starts(names)).focus
         == Run(ty, target, Closed({}), Starts(names)).focus
  {
    hide Run, Feed, Reached, StaysUp, Level;
    StartsStayUp(1, names);
    FeedIsRun(ty, Fed(target, Closed({}), 1), Starts(names));
    RootStarts(ty, target, Closed({}), Starts(names));
    ReachedAll(ty, Fed(target, Closed({}), 0), [Start(Struct, "")] + Starts(names));
  }

  /**
    * Onto any target, every sequence of calls leaves only types open that the next reset closes if and
    * only if all types below the root that can be open are on the list.
    */
  lemma CallsDecide(registered: set<Type>, ty: Type, target: Value)
    requires Wf(ty) && HasType(ty, target)
    ensures (forall es :: OpenKeys(ty, Reached(ty, Fed(target, Closed({}), 0), es).focus) <= registered)
       <==> Registered(registered, ty)
  {
    hide Run, Reached, Registered, OpenKeys;
    if Registered(registered, ty) {
      forall es ensures OpenKeys(ty, Reached(ty, Fed(target, Closed({}), 0), es).focus) <= registered {
        var end := Reached(ty, Fed(target, Closed({}), 0), es);
        ListedOpens(registered, ty, end.obj, end.focus);
      }
    } else {
      var names := UnlistedOpens(registered, ty, target, {});
      StartsReach(ty, target, names);
    }
  }

  /** If something below the root is not on the list, some text leaves a type open that is not, whatever the target. */
  lemma UnlistedStaysOpen(registered: set<Type>, ty: Type, target: Value) returns (text: string)
    requires Wf(ty) && HasType(ty, target) && Writable(ty) && !Registered(registered, ty)
    ensures !(LeftOpen(ty, target, Closed({}), text) <= registered)
  {
    hide Run, Reached, Registered, ParserSpec.Document;
    var names := UnlistedOpens(registered, ty, target, {});
    text := TextOf(names);
    TextReads(names);
    StartsReach(ty, target, names);
  }

  /**
    * The same of texts: onto any target, every text leaves only types open that the next reset closes if and only if all
    * types below the root that can be open are on the list.
    */
  lemma ListDecides(registered: set<Type>, ty: Type, target: Value)
    requires Wf(ty) && HasType(ty, target) && Writable(ty)
    ensures (forall text :: LeftOpen(ty, target, Closed({}), text) <= registered) <==> Registered(registered, ty)
  {
    hide LeftOpen, Registered;
    if Registered(registered, ty) {
      forall text ensures LeftOpen(ty, target, Closed({}), text) <= registered {
        WithinKnown(registered, ty, target, text);
      }
    } else {
      var text := UnlistedStaysOpen(registered, ty, target);
    }
  }

  /** In particular every root that is a container of objects is left open by a text that breaks off in an element. */
  lemma RootStaysOpen(ty: Type, target: Value, name: string)
    requires Wf(ty) && HasType(ty, target) && (ty.TArray? || ty.TMap?) && !IsScalar(ty.elem) && QuoteFree(name)
    ensures LeftOpen(ty, target, Closed({}), TextOf([name])) == {ty}
  {
    hide Run, Reached, ParserSpec.Document, LocalUse;
    var names := [name];
    assert Starts(names) == [Start(Struct, name)] + [];
    assert Starts(names) == [Start(Struct, name)];
    TextReads(names);
    UseOpens(ty, target, {}, name);
    NodeOpens(ty, target, {}, Struct, name, []);
    var used := LocalUse(ty, target, {}, name).value;
    var i := used.focus.index;
    RunsNothing(ChildType(ty, i), Child(ty, used.obj, i));
    OpenedKeys(ty, used.obj, i, used.focus.changed, Running(Child(ty, used.obj, i), Closed({})));
    StartsReach(ty, target, names);
  }

  // ---------- A root whose cursor is left open ----------

  const FIRST_TEXT := "{\"k\":{"
  const SECOND_DOCUMENT := JNode(Struct, Cons("k2", JNode(Struct, Cons("a", JInt(1), Nil)), Nil))

  /** A map of such structs, with one entry under "k". */
  function MapOf(): Type {
    TMap(OneField(false))
  }

  function OneEntry(n: int): Value {
    VMap([Entry("k", Having(n))])
  }

  lemma MapOfTyped(n: int)
    requires 0 <= n <= 9
    ensures Wf(MapOf()) && HasType(MapOf(), OneEntry(n))
  {
    OneFieldTyped(false, n);
    hide OneField;
  }

  /** Every event goes to the entry that is open. */
  lemma EntryHandles(n: int, changed: set<nat>, e: Event)
    requires 0 <= n <= 9 && Wf(MapOf()) && HasType(MapOf(), OneEntry(n))
    requires Wf(OneField(false)) && HasType(OneField(false), Having(n))
    ensures Fits(MapOf(), OneEntry(n), Open(0, {}, Closed(changed)))
    ensures var r := Handle(OneField(false), Having(n), Closed(changed), e);
            r.Stepped? ==>
              Handle(MapOf(), OneEntry(n), Open(0, {}, Closed(changed)), e)
              == Stepped(VMap([Entry("k", r.obj)]), if r.closed then Closed({}) else Open(0, {}, r.focus), false)
  {
    hide Here;
    var es := [Entry("k", Having(n))];
    var r := Handle(OneField(false), Having(n), Closed(changed), e);
    if r.Stepped? {
      assert es[0 := Entry("k", r.obj)] == [Entry("k", r.obj)];
    }
  }

  /**
    * A map of registered structs as root, itself on no list. A text that breaks off inside its entry
    * leaves the map open, and the reset leaves it so. The next text, {"k2":{"a":1}} as it is printed,
    * mapped onto the same map, then changes the entry under "k" and makes none under "k2".
    */
  lemma UnlistedRootMisroutes()
    ensures var registered := RegisteredBy(OneField(false), 0);
            MembersRegistered(registered, MapOf()) && !Registered(registered, MapOf()) && MapOf() !in registered
    ensures Wf(MapOf()) && HasType(MapOf(), VMap([])) && HasType(MapOf(), OneEntry(0))
    ensures var s := Reached(MapOf(), Fed(VMap([]), Closed({}), 0), ParserSpec.Document(FIRST_TEXT).events);
            s.obj == OneEntry(0) && s.focus == Open(0, {}, Closed({}))
    ensures MapTextFrom(MapOf(), VMap([]), Closed({}), FIRST_TEXT) == ReaderThrew(ParserSpec.UnexpectedEnd)
    ensures Fits(MapOf(), OneEntry(0), Open(0, {}, Closed({})))
    ensures MapTextFrom(MapOf(), OneEntry(0), Open(0, {}, Closed({})),
                        Render(Style("", false), "", SECOND_DOCUMENT, true, 0)) == Rebuilt(OneEntry(1))
  {
    SecondTextReads();
    RootIsNotListed();
    MapOfTyped(0);
    OneFieldTyped(false, 0);
    EmptyMapTyped();
    FirstTextOpens();
    hide Feed, Reached, HasType, Wf, OneField, Fits, RegisteredBy, MembersRegistered, Registered, Render, Trace;
    EntryHandles(0, {}, End(Struct));
    EntryTakesEvents();
  }

  lemma SecondTextReads()
    ensures ParserSpec.Document(Render(Style("", false), "", SECOND_DOCUMENT, true, 0))
         == ParserSpec.Parsed(Trace("", SECOND_DOCUMENT), ParserSpec.Done(""))
  {
    hide ParserSpec.Document, Render;
    var inner := Cons("a", JInt(1), Nil);
    assert RoundTrip.PruneKids(false, inner) == inner;
    assert PrintableKids(Struct, inner);
    RoundTrip.PrintedReads(Style("", false), SECOND_DOCUMENT.kids);
  }

  lemma EmptyMapTyped()
    ensures Wf(MapOf()) && HasType(MapOf(), VMap([]))
  {
    OneFieldTyped(false, 0);
    hide OneField;
  }

  lemma FirstTextOpens()
    requires Wf(MapOf()) && HasType(MapOf(), VMap([]))
    ensures var s := Fed(VMap([]), Closed({}), 0);
            var es := ParserSpec.Document(FIRST_TEXT).events;
            && Feed(MapOf(), s, es) == Ok(Fed(OneEntry(0), Open(0, {}, Closed({})), 2))
            && Reached(MapOf(), s, es) == Feed(MapOf(), s, es).value
            && ParserSpec.Document(FIRST_TEXT).outcome == ParserSpec.Broken(ParserSpec.UnexpectedEnd, "")
  {
    hide ParserSpec.Document, Feed, Reached;
    TextReads(["k"]);
    assert TextOf(["k"]) == FIRST_TEXT;
    var es := [Start(Struct, "")] + [Start(Struct, "k")];
    assert Starts(["k"]) == [Start(Struct, "k")];
    RootStarts(MapOf(), VMap([]), Closed({}), [Start(Struct, "k")]);
    FirstEntry();
    FeedLast(MapOf(), Fed(VMap([]), Closed({}), 1), Start(Struct, "k"));
    ReachedAll(MapOf(), Fed(VMap([]), Closed({}), 0), es);
  }

  lemma FirstEntry()
    requires Wf(MapOf()) && HasType(MapOf(), VMap([]))
    ensures Handle(MapOf(), VMap([]), Closed({}), Start(Struct, "k"))
         == Stepped(OneEntry(0), Open(0, {}, Closed({})), false)
  {
    assert Fresh(OneField(false)).members == [VInt(0)];
  }

  lemma RootIsNotListed()
    ensures var registered := RegisteredBy(OneField(false), 0);
            MembersRegistered(registered, MapOf()) && !Registered(registered, MapOf()) && MapOf() !in registered
  {
    var registered := RegisteredBy(OneField(false), 0);
    assert RegisteredBy(OneField(false), 1) == {};
    assert registered == {OneField(false)};
    assert MembersRegistered(registered, OneField(false));
    RegistrationReaches(registered, MapOf());
  }

  lemma ReleaseKeepsMap(o: Value)
    requires HasType(MapOf(), o)
    ensures LocalRelease(MapOf(), o, {}) == Ok(o)
  {
  }

  lemma EntryTakesEvents()
    requires Wf(MapOf()) && HasType(MapOf(), OneEntry(0)) && Fits(MapOf(), OneEntry(0), Open(0, {}, Closed({})))
    ensures Feed(MapOf(), Fed(OneEntry(0), Open(0, {}, Closed({})), 0), Trace("", SECOND_DOCUMENT))
         == Ok(Fed(OneEntry(1), Closed({}), 0))
  {
    hide Feed, Handle, HasType, Wf, OneField, Having, Fits;
    var e3 := [End(Struct)] + [End(Struct)];
    var e2 := [SetIntegral("a", 1)] + e3;
    var e1 := [Start(Struct, "k2")] + e2;
    assert Trace("", SECOND_DOCUMENT) == [Start(Struct, "")] + e1;
    OneFieldTyped(false, 0);
    OneFieldTyped(false, 1);
    MapOfTyped(1);
    RootStarts(MapOf(), OneEntry(0), Open(0, {}, Closed({})), e1);
    UnknownStart(false, 0, {}, "k2");
    EntryHandles(0, {}, Start(Struct, "k2"));
    FeedStep(MapOf(), Fed(OneEntry(0), Open(0, {}, Closed({})), 1), Start(Struct, "k2"), e2);
    KnownScalar(false, 0, {});
    EntryHandles(0, {}, SetIntegral("a", 1));
    FeedStep(MapOf(), Fed(OneEntry(0), Open(0, {}, Closed({})), 2), SetIntegral("a", 1), e3);
    Ending(false, 1, {} + {0});
    EntryHandles(1, {} + {0}, End(Struct));
    FeedStep(MapOf(), Fed(OneEntry(1), Open(0, {}, Closed({} + {0})), 2), End(Struct), [End(Struct)]);
    EndHandled(MapOf(), OneEntry(1), {}, Struct);
    ReleaseKeepsMap(OneEntry(1));
    FeedLast(MapOf(), Fed(OneEntry(1), Closed({}), 1), End(Struct));
  }
}
