/**
  * Every text that is read completely is the text of a document tree.
  */
module Trees {
  import opened Documents
  import opened ParserSpec

  /** No floating point number was read; document trees have none. */
  ghost predicate FloatFree(es: seq<Event>) {
    forall e | e in es :: !e.SetFloating?
  }

  lemma FloatFreeParts(a: seq<Event>, b: seq<Event>)
    requires FloatFree(a + b)
    ensures FloatFree(a) && FloatFree(b)
  {
    assert forall e | e in a :: e in a + b;
    assert forall e | e in b :: e in a + b;
  }

  lemma {:induction false} ValueIsTree(name: string, c: char, rem: string) returns (j: Json)
    requires var p := Value(name, c, rem); p.outcome.Done? && FloatFree(p.events)
    ensures Value(name, c, rem).events == Trace(name, j)
    decreases |rem|, 2
  {
    hide Loop, WaitFor;
    match c
    case '{' => j := NodeIsTree(name, Struct, rem);
    case '[' => j := NodeIsTree(name, Array, rem);
    case 't' => j := JBool(true);
    case 'f' => j := JBool(false);
    case 'n' => j := JNull;
    case '\"' => j := JString(QuotedText(rem).text);
    case _ =>
      var es := Value(name, c, rem).events;
      assert |es| == 1 && es[0] in es;
      j := JInt(es[0].n);
  }

  lemma {:induction false} NodeIsTree(name: string, kind: Kind, rem: string) returns (j: Json)
    requires var p := After([Start(kind, name)], Loop(kind, rem, AfterStart)); p.outcome.Done? && FloatFree(p.events)
    ensures After([Start(kind, name)], Loop(kind, rem, AfterStart)).events == Trace(name, j)
    decreases |rem|, 1
  {
    hide Loop;
    FloatFreeParts([Start(kind, name)], Loop(kind, rem, AfterStart).events);
    var kids := LoopIsTree(kind, rem, AfterStart);
    j := JNode(kind, kids);
    assert [Start(kind, name)] + (TraceKids(kids) + [End(kind)]) == [Start(kind, name)] + TraceKids(kids) + [End(kind)];
  }

  lemma {:induction false} MemberIsTree(rem: string) returns (name: string, j: Json)
    requires Member(rem).outcome.Done? && FloatFree(Member(rem).events)
    ensures Member(rem).events == Trace(name, j)
    decreases |rem|, 0
  {
    hide Value, WaitFor, QuotedText;
    name := QuotedText(rem).text;
    var w := WaitFor(WaitFor(QuotedText(rem).rest, ":").rest, VALUE_START);
    j := ValueIsTree(name, w.c, w.rest);
  }

  lemma {:induction false} LoopIsTree(kind: Kind, rem: string, phase: Phase) returns (kids: Kids)
    requires var p := Loop(kind, rem, phase); p.outcome.Done? && FloatFree(p.events)
    ensures Loop(kind, rem, phase).events == TraceKids(kids) + [End(kind)]
    decreases |rem|, 0
  {
    hide WaitFor, Member, Value, Expected;
    var w := WaitFor(rem, Expected(kind, phase));
    if w.c == Closer(kind) {
      kids := Nil;
    } else if w.c == ',' {
      kids := LoopIsTree(kind, w.rest, AfterComma);
    } else {
      var element := Element(kind, w.c, w.rest);
      FloatFreeParts(element.events, Loop(kind, element.outcome.rest, AfterValue).events);
      var name, j := "", JNull;
      if kind == Struct {
        name, j := MemberIsTree(w.rest);
      } else {
        j := ValueIsTree("", w.c, w.rest);
      }
      var rest := LoopIsTree(kind, element.outcome.rest, AfterValue);
      kids := Cons(name, j, rest);
      assert Trace(name, j) + (TraceKids(rest) + [End(kind)]) == TraceKids(kids) + [End(kind)];
    }
  }

  /** The callbacks of a text that is read completely are the traversal of a struct. */
  lemma DocumentIsTree(text: string) returns (kids: Kids)
    requires Document(text).outcome.Done? && FloatFree(Document(text).events)
    ensures Document(text).events == Trace("", JNode(Struct, kids))
  {
    hide Loop, WaitFor;
    var rest := WaitFor(text, "{").rest;
    FloatFreeParts([Start(Struct, "")], Loop(Struct, rest, AfterStart).events);
    kids := LoopIsTree(Struct, rest, AfterStart);
    assert [Start(Struct, "")] + (TraceKids(kids) + [End(Struct)]) == [Start(Struct, "")] + TraceKids(kids) + [End(Struct)];
  }
}
