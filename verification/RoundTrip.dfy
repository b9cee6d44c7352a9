/**
  * Reading what the printer wrote.
  */
module RoundTrip {
  import opened Text
  import opened Documents
  import opened ParserSpec
  import opened PrinterSpec
  import opened Layout
  import ParserLaws

  // ---------- Stripping printed text gives the text printed without indentation ----------

  function Compact(style: Style): Style {
    style.(indent := "")
  }

  /** `t` stands outside quotes at both ends, and is `s` once stripped. */
  ghost predicate Strips(t: string, s: string) {
    Strip(t, false) == s && !Unquotes(t, false)
  }

  lemma StripsConcat(a: string, b: string, sa: string, sb: string)
    requires Strips(a, sa) && Strips(b, sb)
    ensures Strips(a + b, sa + sb)
  {
    StripConcat(a, b, false);
  }

  lemma {:induction false} BlankStrips(s: string)
    requires AllBlank(s)
    ensures Strips(s, "")
  {
    if s != "" {
      BlankStrips(s[1..]);
    }
  }

  lemma {:induction false} DenseStrips(s: string)
    requires forall c | c in s :: !IsBlank(c) && c != '\"'
    ensures Strips(s, s)
  {
    if s != "" {
      DenseStrips(s[1..]);
    }
  }

  lemma {:induction false} InsideStrips(s: string)
    requires QuoteFree(s)
    ensures Strip(s, true) == s && Unquotes(s, true)
  {
    if s != "" {
      InsideStrips(s[1..]);
    }
  }

  lemma QuotedStrips(s: string)
    requires QuoteFree(s)
    ensures Strips("\"" + s + "\"", "\"" + s + "\"")
  {
    InsideStrips(s);
    StripConcat("\"", s, false);
    StripConcat("\"" + s, "\"", false);
  }

  lemma {:induction false} RepeatStrips(indent: string, n: nat)
    requires AllBlank(indent)
    ensures Strips(Repeat(indent, n), "") && Repeat("", n) == ""
  {
    if n > 0 {
      RepeatStrips(indent, n - 1);
      BlankStrips(indent);
      StripsConcat(Repeat(indent, n - 1), indent, "", "");
    }
  }

  lemma NamePartStrips(style: Style, name: string)
    requires QuoteFree(name)
    ensures Strips(NamePart(style, name), NamePart(Compact(style), name))
  {
    if name != "" {
      var quoted := "\"" + name + "\"";
      QuotedStrips(name);
      var colon := if style.indent == "" then ":" else ":" + " ";
      DenseStrips(":");
      BlankStrips(" ");
      StripsConcat(":", " ", ":", "");
      StripsConcat(quoted, colon, quoted, ":");
      assert NamePart(style, name) == quoted + colon;
      assert NamePart(Compact(style), name) == quoted + ":";
    }
  }

  lemma LeadStrips(style: Style, first: bool, breaks: bool, depth: nat, name: string)
    requires AllBlank(style.indent) && QuoteFree(name)
    ensures Strips(Lead(style, first, breaks, depth, name), Lead(Compact(style), first, breaks, depth, name))
  {
    var comma := if first then "" else ",";
    var newline := if breaks && style.indent != "" then "\n" else "";
    DenseStrips(comma);
    BlankStrips(newline);
    RepeatStrips(style.indent, depth);
    NamePartStrips(style, name);
    StripsConcat(comma, newline, comma, "");
    StripsConcat(comma + newline, Repeat(style.indent, depth), comma, "");
    StripsConcat(comma + newline + Repeat(style.indent, depth), NamePart(style, name),
                 comma, NamePart(Compact(style), name));
    assert Lead(Compact(style), first, breaks, depth, name) == comma + NamePart(Compact(style), name);
  }

  lemma TailStrips(style: Style, depth: nat, kind: Kind)
    requires AllBlank(style.indent)
    ensures Strips(Tail(style, depth, kind), [Closer(kind)]) && Tail(Compact(style), depth, kind) == [Closer(kind)]
  {
    var newline := if style.indent != "" then "\n" else "";
    BlankStrips(newline);
    RepeatStrips(style.indent, depth);
    DenseStrips([Closer(kind)]);
    StripsConcat(newline, Repeat(style.indent, depth), "", "");
    StripsConcat(newline + Repeat(style.indent, depth), [Closer(kind)], "", [Closer(kind)]);
  }

  lemma {:induction false} BodyStrips(style: Style, j: Json, depth: nat)
    requires AllBlank(style.indent) && Printable(j)
    ensures Strips(Body(style, j, depth), Body(Compact(style), j, depth))
    decreases j, 0
  {
    match j
    case JNull => DenseStrips("null");
    case JBool(b) => DenseStrips(if b then "true" else "false");
    case JInt(n) =>
      DecimalShape(n);
      DenseStrips(Decimal(n));
    case JString(s) => QuotedStrips(s);
    case JNode(kind, kids) =>
      var open, middle := [Opener(kind)], RenderKids(style, kids, true, depth + 1);
      DenseStrips(open);
      KidsStrip(style, kind, kids, true, depth + 1);
      TailStrips(style, depth, kind);
      var compact := RenderKids(Compact(style), kids, true, depth + 1);
      StripsConcat(open, middle, open, compact);
      StripsConcat(open + middle, Tail(style, depth, kind), open + compact, [Closer(kind)]);
  }

  lemma {:induction false} RenderStrips(style: Style, name: string, j: Json, first: bool, depth: nat)
    requires AllBlank(style.indent) && QuoteFree(name) && Printable(j)
    ensures Strips(Render(style, name, j, first, depth), Render(Compact(style), name, j, first, depth))
    decreases j, 1
  {
    if !Hidden(style.hideNull, j) {
      var breaks := Breaks(j, depth);
      LeadStrips(style, first, breaks, depth, name);
      BodyStrips(style, j, depth);
      StripsConcat(Lead(style, first, breaks, depth, name), Body(style, j, depth),
                   Lead(Compact(style), first, breaks, depth, name), Body(Compact(style), j, depth));
    }
  }

  lemma {:induction false} KidsStrip(style: Style, kind: Kind, kids: Kids, first: bool, depth: nat)
    requires AllBlank(style.indent) && PrintableKids(kind, kids)
    ensures Strips(RenderKids(style, kids, first, depth), RenderKids(Compact(style), kids, first, depth))
    decreases kids, 0
  {
    match kids
    case Nil =>
    case Cons(name, value, rest) =>
      RenderStrips(style, name, value, first, depth);
      KidsStrip(style, kind, rest, false, depth);
      StripsConcat(Render(style, name, value, first, depth), RenderKids(style, rest, false, depth),
                   Render(Compact(style), name, value, first, depth), RenderKids(Compact(style), rest, false, depth));
  }

  // ---------- Reading text printed without indentation ----------

  /** The document that is left when hidden nulls are not printed. */
  function Prune(hideNull: bool, j: Json): Json
    decreases j
  {
    match j
    case JNode(kind, kids) => JNode(kind, PruneKids(hideNull, kids))
    case _ => j
  }

  function PruneKids(hideNull: bool, kids: Kids): Kids
    decreases kids
  {
    match kids
    case Nil => Nil
    case Cons(name, value, rest) =>
      if Hidden(hideNull, value) then PruneKids(hideNull, rest)
      else Cons(name, Prune(hideNull, value), PruneKids(hideNull, rest))
  }

  /** No child is printed. */
  predicate Invisible(hideNull: bool, kids: Kids) {
    kids.Nil? || (Hidden(hideNull, kids.value) && Invisible(hideNull, kids.rest))
  }

  /** No struct or array in the document starts with a hidden null and prints something after it. */
  predicate NoLeadingNull(hideNull: bool, j: Json)
    decreases j
  {
    j.JNode? ==> NoLeadingNullIn(hideNull, j.kids, true)
  }

  predicate NoLeadingNullIn(hideNull: bool, kids: Kids, first: bool)
    decreases kids
  {
    match kids
    case Nil => true
    case Cons(_, value, rest) =>
      if Hidden(hideNull, value) then
        if first then Invisible(hideNull, rest) else NoLeadingNullIn(hideNull, rest, false)
      else NoLeadingNull(hideNull, value) && NoLeadingNullIn(hideNull, rest, false)
  }

  /** Reading went well with these callbacks, or broke at a stray comma, as `good` says. */
  ghost predicate Reads(p: Parsed, good: bool, events: seq<Event>, tail: string) {
    if good then p == Parsed(events, Done(tail))
    else p.outcome.Broken? && p.outcome.fault == UnexpectedCharacter(',')
  }

  lemma SpellReads(word: string, tail: string)
    ensures Spell(word + tail, word) == Done(tail)
    decreases |word|
  {
    if word == "" {
      assert word + tail == tail;
    } else {
      assert (word + tail)[1..] == word[1..] + tail;
      assert word[..1] == [word[0]];
      SpellReads(word[1..], tail);
    }
  }

  lemma {:induction false} QuotedTextReads(s: string, tail: string)
    requires QuoteFree(s)
    ensures QuotedText(s + "\"" + tail) == Text(s, tail)
  {
    if s == "" {
      assert (s + "\"" + tail)[1..] == tail;
    } else {
      assert (s + "\"" + tail)[1..] == s[1..] + "\"" + tail;
      QuotedTextReads(s[1..], tail);
    }
  }

  lemma WaitForHit(c: char, rest: string, expected: string)
    requires c in expected
    ensures WaitFor([c] + rest, expected) == Got(c, rest)
  {
  }

  lemma DigitIsNumeric(c: char)
    requires IsDigit(c)
    ensures c in NUMBER_CHARACTERS && c !in NUMBER_ENDS
  {
    assert c in "0123456789";
  }

  lemma EndIsNumeric(c: char)
    requires c in NUMBER_ENDS
    ensures c in NUMBER_CHARACTERS
  {
  }

  lemma {:induction false} NumberTextReads(digits: string, tail: string, literal: string)
    requires AllDigits(digits) && tail != "" && tail[0] in NUMBER_ENDS
    ensures NumberText(digits + tail, literal) == Text(literal + digits, tail)
    decreases |digits|
  {
    hide WaitFor;
    if digits == "" {
      EndIsNumeric(tail[0]);
      WaitForHit(tail[0], tail[1..], NUMBER_CHARACTERS);
      assert digits + tail == [tail[0]] + tail[1..] == tail;
    } else {
      var c := digits[0];
      DigitIsNumeric(c);
      WaitForHit(c, digits[1..] + tail, NUMBER_CHARACTERS);
      assert digits + tail == [c] + (digits[1..] + tail);
      NumberTextReads(digits[1..], tail, literal + [c]);
      assert literal + [c] + digits[1..] == literal + digits;
    }
  }

  lemma NumberDispatch(name: string, c: char, rem: string)
    requires c == '-' || IsDigit(c)
    ensures Value(name, c, rem) == Number(name, c, rem)
  {
  }

  lemma IntReads(name: string, n: int, tail: string)
    requires IsLongLong(n) && tail != "" && tail[0] in NUMBER_ENDS
    ensures var text := Decimal(n);
            text != "" && Value(name, text[0], text[1..] + tail) == Parsed([SetIntegral(name, n)], Done(tail))
  {
    hide NumberText, Value, Stoll;
    var text := Decimal(n);
    DecimalShape(n);
    NumberDispatch(name, text[0], text[1..] + tail);
    NumberTextReads(text[1..], tail, [text[0]]);
    assert [text[0]] + text[1..] == text;
    assert '.' !in text[1..];
    StollInvertsDecimal(n);
  }

  lemma CompactLead(style: Style, first: bool, breaks: bool, depth: nat, name: string)
    requires style.indent == ""
    ensures Lead(style, first, breaks, depth, name)
         == (if first then "" else ",") + (if name == "" then "" else "\"" + name + "\":")
  {
    RepeatStrips("", depth);
  }

  lemma CompactTail(style: Style, depth: nat, kind: Kind)
    requires style.indent == ""
    ensures Tail(style, depth, kind) == [Closer(kind)]
  {
    RepeatStrips("", depth);
  }

  lemma BodyStart(style: Style, j: Json, depth: nat)
    ensures var b := Body(style, j, depth); b != "" && b[0] in VALUE_START
  {
    if j.JInt? {
      DecimalShape(j.n);
      var c := Decimal(j.n)[0];
      assert c in "-0123456789";
    }
  }

  lemma ValueStartExpected(c: char, phase: Phase)
    requires c in VALUE_START && phase != AfterValue
    ensures c in Expected(Array, phase) && c != ']' && c != ','
  {
  }

  /** A name and the beginning of a value lead the loop to that value. */
  lemma ElementStarts(kind: Kind, name: string, body: string, tail: string, phase: Phase)
    returns (c: char, rest: string)
    requires if kind == Array then name == "" else name != "" && QuoteFree(name)
    requires body != "" && body[0] in VALUE_START && phase != AfterValue
    ensures var named := if name == "" then "" else "\"" + name + "\":";
            WaitFor(named + body + tail, Expected(kind, phase)) == Got(c, rest)
    ensures c != ',' && c != Closer(kind)
    ensures Element(kind, c, rest) == Value(name, body[0], body[1..] + tail)
  {
    hide WaitFor, Value;
    var after := body[1..] + tail;
    assert body + tail == [body[0]] + after;
    if kind == Array {
      ValueStartExpected(body[0], phase);
      assert "" + body + tail == [body[0]] + after;
      WaitForHit(body[0], after, Expected(kind, phase));
      c, rest := body[0], after;
    } else {
      var member := name + "\"" + (":" + ([body[0]] + after));
      assert "\"" + name + "\":" + body + tail == ['\"'] + member;
      WaitForHit('\"', member, Expected(kind, phase));
      QuotedTextReads(name, ":" + ([body[0]] + after));
      WaitForHit(':', [body[0]] + after, ":");
      WaitForHit(body[0], after, VALUE_START);
      c, rest := '\"', member;
    }
  }

  lemma {:induction false} InvisiblePrintsNothing(style: Style, kids: Kids, depth: nat)
    ensures Invisible(style.hideNull, kids) ==>
              RenderKids(style, kids, false, depth) == "" && PruneKids(style.hideNull, kids) == Nil
    ensures !Invisible(style.hideNull, kids) && style.indent == "" ==>
              RenderKids(style, kids, false, depth) != "" && RenderKids(style, kids, false, depth)[0] == ','
  {
    if kids.Cons? {
      if Hidden(style.hideNull, kids.value) {
        InvisiblePrintsNothing(style, kids.rest, depth);
      } else if style.indent == "" {
        CompactLead(style, false, Breaks(kids.value, depth), depth, kids.name);
      }
    }
  }

  /** What follows an element starts with a comma or closes. */
  lemma RestStart(style: Style, kind: Kind, kids: Kids, depth: nat, tail: string)
    requires style.indent == ""
    ensures var t := RenderKids(style, kids, false, depth) + [Closer(kind)] + tail; t != "" && t[0] in NUMBER_ENDS
  {
    InvisiblePrintsNothing(style, kids, depth);
  }

  lemma {:induction false} ValueReads(style: Style, name: string, j: Json, depth: nat, tail: string)
    requires style.indent == "" && Printable(j)
    requires tail != "" && tail[0] in NUMBER_ENDS
    ensures var b := Body(style, j, depth);
            && b != ""
            && Reads(Value(name, b[0], b[1..] + tail), NoLeadingNull(style.hideNull, j),
                     Trace(name, Prune(style.hideNull, j)), tail)
    decreases j, 0
  {
    match j
    case JNode(kind, kids) =>
      hide Loop, Value, RenderKids;
      KidsRead(style, kind, kids, true, depth + 1, tail);
      NodeReads(style, name, kind, kids, depth, tail);
    case _ =>
      hide Loop, RenderKids;
      ScalarReads(style, name, j, depth, tail);
  }

  lemma ScalarReads(style: Style, name: string, j: Json, depth: nat, tail: string)
    requires Printable(j) && !j.JNode?
    requires tail != "" && tail[0] in NUMBER_ENDS
    ensures var b := Body(style, j, depth);
            b != "" && Value(name, b[0], b[1..] + tail) == Parsed(Trace(name, j), Done(tail))
  {
    match j
    case JNull => SpellReads("ull", tail);
    case JBool(v) => SpellReads(if v then "rue" else "alse", tail);
    case JInt(n) => IntReads(name, n, tail);
    case JString(s) =>
      assert Body(style, j, depth)[1..] + tail == s + "\"" + tail;
      QuotedTextReads(s, tail);
  }

  /** The brackets around the children. */
  lemma NodeReads(style: Style, name: string, kind: Kind, kids: Kids, depth: nat, tail: string)
    requires style.indent == ""
    requires Reads(Loop(kind, RenderKids(style, kids, true, depth + 1) + [Closer(kind)] + tail, AfterStart),
                   NoLeadingNullIn(style.hideNull, kids, true),
                   TraceKids(PruneKids(style.hideNull, kids)) + [End(kind)], tail)
    ensures var j := JNode(kind, kids);
            var b := Body(style, j, depth);
            Reads(Value(name, b[0], b[1..] + tail), NoLeadingNull(style.hideNull, j),
                  Trace(name, Prune(style.hideNull, j)), tail)
  {
    hide Loop, RenderKids;
    var b := Body(style, JNode(kind, kids), depth);
    CompactTail(style, depth, kind);
    assert b[1..] + tail == RenderKids(style, kids, true, depth + 1) + [Closer(kind)] + tail;
    var k := TraceKids(PruneKids(style.hideNull, kids));
    assert [Start(kind, name)] + (k + [End(kind)]) == [Start(kind, name)] + k + [End(kind)];
  }

  lemma {:induction false} KidsRead(style: Style, kind: Kind, kids: Kids, first: bool, depth: nat, tail: string)
    requires style.indent == "" && PrintableKids(kind, kids)
    ensures Reads(Loop(kind, RenderKids(style, kids, first, depth) + [Closer(kind)] + tail,
                       if first then AfterStart else AfterValue),
                  NoLeadingNullIn(style.hideNull, kids, first),
                  TraceKids(PruneKids(style.hideNull, kids)) + [End(kind)], tail)
    decreases kids, 1
  {
    var phase := if first then AfterStart else AfterValue;
    var text := RenderKids(style, kids, first, depth) + [Closer(kind)] + tail;
    match kids
    case Nil =>
      NothingReads(kind, phase, tail);
      assert text == [Closer(kind)] + tail;
    case Cons(name, value, rest) =>
      if Hidden(style.hideNull, value) {
        assert RenderKids(style, kids, first, depth) == RenderKids(style, rest, false, depth);
        if first {
          HiddenFirstReads(style, kind, rest, depth, tail);
        } else {
          KidsRead(style, kind, rest, false, depth, tail);
        }
      } else {
        VisibleReads(style, kind, kids, first, depth, tail);
      }
  }

  lemma NothingReads(kind: Kind, phase: Phase, tail: string)
    requires phase != AfterComma
    ensures Loop(kind, [Closer(kind)] + tail, phase) == Parsed([End(kind)], Done(tail))
  {
    WaitForHit(Closer(kind), tail, Expected(kind, phase));
  }

  /** After a hidden first null: fine when nothing follows, else the reader meets a stray comma. */
  lemma HiddenFirstReads(style: Style, kind: Kind, rest: Kids, depth: nat, tail: string)
    requires style.indent == ""
    ensures Reads(Loop(kind, RenderKids(style, rest, false, depth) + [Closer(kind)] + tail, AfterStart),
                  Invisible(style.hideNull, rest),
                  TraceKids(PruneKids(style.hideNull, rest)) + [End(kind)], tail)
  {
    InvisiblePrintsNothing(style, rest, depth);
    var text := RenderKids(style, rest, false, depth) + [Closer(kind)] + tail;
    if Invisible(style.hideNull, rest) {
      NothingReads(kind, AfterStart, tail);
      assert text == [Closer(kind)] + tail;
    } else {
      assert ',' !in Expected(kind, AfterStart);
      assert WaitFor(text, Expected(kind, AfterStart)) == Lost(UnexpectedCharacter(','), text[1..]);
    }
  }

  lemma {:induction false} VisibleReads(style: Style, kind: Kind, kids: Kids, first: bool, depth: nat, tail: string)
    requires style.indent == "" && PrintableKids(kind, kids)
    requires kids.Cons? && !Hidden(style.hideNull, kids.value)
    ensures Reads(Loop(kind, RenderKids(style, kids, first, depth) + [Closer(kind)] + tail,
                       if first then AfterStart else AfterValue),
                  NoLeadingNullIn(style.hideNull, kids, first),
                  TraceKids(PruneKids(style.hideNull, kids)) + [End(kind)], tail)
    decreases kids, 0
  {
    hide WaitFor, Loop, Value, Body, Element, Lead, NoLeadingNull;
    var Cons(name, value, rest) := kids;
    var tail' := RenderKids(style, rest, false, depth) + [Closer(kind)] + tail;
    var body := Body(style, value, depth);
    var text := (if name == "" then "" else "\"" + name + "\":") + body + tail';
    var phase := if first then AfterStart else AfterComma;
    BodyStart(style, value, depth);
    RestStart(style, kind, rest, depth, tail);
    ValueReads(style, name, value, depth, tail');
    KidsRead(style, kind, rest, false, depth, tail);
    var c, after := ElementStarts(kind, name, body, tail', phase);
    var t, k := Trace(name, Prune(style.hideNull, value)), TraceKids(PruneKids(style.hideNull, rest)) + [End(kind)];
    LoopOverElement(kind, text, phase, c, after, NoLeadingNull(style.hideNull, value),
                    NoLeadingNullIn(style.hideNull, rest, false), t, k, tail', tail);
    VisibleText(style, kind, kids, first, depth, tail);
    if first {
      assert "" + text == text;
    } else {
      LoopOverComma(kind, text);
    }
    assert t + k == TraceKids(PruneKids(style.hideNull, kids)) + [End(kind)];
  }

  /** The first printed child, taken apart. */
  lemma VisibleText(style: Style, kind: Kind, kids: Kids, first: bool, depth: nat, tail: string)
    requires style.indent == ""
    requires kids.Cons? && !Hidden(style.hideNull, kids.value)
    ensures RenderKids(style, kids, first, depth) + [Closer(kind)] + tail
         == (if first then "" else ",")
            + ((if kids.name == "" then "" else "\"" + kids.name + "\":") + Body(style, kids.value, depth)
               + (RenderKids(style, kids.rest, false, depth) + [Closer(kind)] + tail))
  {
    CompactLead(style, first, Breaks(kids.value, depth), depth, kids.name);
    Regroup(if first then "" else ",", if kids.name == "" then "" else "\"" + kids.name + "\":",
            Body(style, kids.value, depth), RenderKids(style, kids.rest, false, depth), [Closer(kind)], tail);
  }

  lemma Regroup(a: string, b: string, c: string, d: string, e: string, f: string)
    ensures a + b + c + d + e + f == a + (b + c + (d + e + f))
  {
  }

  /** One element and then the rest of the loop. */
  lemma LoopOverElement(kind: Kind, text: string, phase: Phase, c: char, after: string,
                        good: bool, goodRest: bool, t: seq<Event>, k: seq<Event>, middle: string, tail: string)
    requires WaitFor(text, Expected(kind, phase)) == Got(c, after) && c != ',' && c != Closer(kind)
    requires Reads(Element(kind, c, after), good, t, middle)
    requires Reads(Loop(kind, middle, AfterValue), goodRest, k, tail)
    ensures Reads(Loop(kind, text, phase), good && goodRest, t + k, tail)
  {
    hide WaitFor, Element, Expected;
  }

  lemma LoopOverComma(kind: Kind, text: string)
    ensures Loop(kind, "," + text, AfterValue) == Loop(kind, text, AfterComma)
  {
    WaitForHit(',', text, Expected(kind, AfterValue));
  }

  // ---------- The theorem ----------

  /**
    * Printing a struct and reading the text back, whatever the indentation. Reading goes well
    * exactly when no struct or array starts with a hidden null and then prints something, and
    * the callbacks are then the pre-order traversal of what was printed; nothing is left over.
    * Otherwise the reader stops at the comma behind that null.
    */
  lemma PrintedReads(style: Style, kids: Kids)
    requires AllWhite(style.indent) && PrintableKids(Struct, kids)
    ensures var j := JNode(Struct, kids);
            Reads(Document(Render(style, "", j, true, 0)), NoLeadingNull(style.hideNull, j),
                  Trace("", Prune(style.hideNull, j)), "")
  {
    hide Document, Render, Strip, Unquotes, Trace, NoLeadingNull, Prune;
    var j := JNode(Struct, kids);
    var text, compact := Render(style, "", j, true, 0), Render(Compact(style), "", j, true, 0);
    RenderStrips(style, "", j, true, 0);
    DocumentStrip(text);
    CompactReads(Compact(style), kids);
    StrippedReads(Document(compact), Document(text), NoLeadingNull(style.hideNull, j),
                  Trace("", Prune(style.hideNull, j)));
    if NoLeadingNull(style.hideNull, j) {
      NothingLeft(style, kids);
    }
  }

  /** What reading the stripped text says about reading the text. */
  lemma StrippedReads(stripped: Parsed, p: Parsed, good: bool, events: seq<Event>)
    requires SameParsed(stripped, p) && Reads(stripped, good, events, "")
    ensures if good then p.events == events && p.outcome.Done? && Strip(p.outcome.rest, false) == ""
            else p.outcome.Broken? && p.outcome.fault == UnexpectedCharacter(',')
  {
  }

  lemma CompactReads(style: Style, kids: Kids)
    requires style.indent == "" && PrintableKids(Struct, kids)
    ensures var j := JNode(Struct, kids);
            Reads(Document(Render(style, "", j, true, 0)), NoLeadingNull(style.hideNull, j),
                  Trace("", Prune(style.hideNull, j)), "")
  {
    hide Loop, RenderKids;
    var j := JNode(Struct, kids);
    CompactLead(style, true, false, 0, "");
    CompactTail(style, 0, Struct);
    var inside := RenderKids(style, kids, true, 1) + [Closer(Struct)] + "";
    assert Render(style, "", j, true, 0) == ['{'] + inside;
    WaitForHit('{', inside, "{");
    KidsRead(style, Struct, kids, true, 1, "");
    var k := TraceKids(PruneKids(style.hideNull, kids));
    assert [Start(Struct, "")] + (k + [End(Struct)]) == [Start(Struct, "")] + k + [End(Struct)];
  }

  lemma {:induction false} StripsToNothing(t: string)
    requires Strip(t, false) == ""
    ensures AllBlank(t)
  {
    if t != "" {
      StripsToNothing(t[1..]);
    }
  }

  /** Printed text ends with its closing brace, so a remainder of white space is no remainder. */
  lemma NothingLeft(style: Style, kids: Kids)
    requires var o := Document(Render(style, "", JNode(Struct, kids), true, 0)).outcome;
             o.Done? && Strip(o.rest, false) == ""
    ensures Document(Render(style, "", JNode(Struct, kids), true, 0)).outcome.rest == ""
  {
    hide Document, Render, Strip;
    var text := Render(style, "", JNode(Struct, kids), true, 0);
    EndsWithBrace(style, kids);
    ParserLaws.DocumentSuffix(text);
    var rest := Document(text).outcome.rest;
    StripsToNothing(rest);
    SameEnd(rest, text);
  }

  lemma EndsWithBrace(style: Style, kids: Kids)
    ensures var text := Render(style, "", JNode(Struct, kids), true, 0); text != "" && text[|text| - 1] == '}'
  {
    hide RenderKids, Lead, Repeat;
  }

  lemma SameEnd(rest: string, text: string)
    requires IsSuffix(rest, text)
    ensures rest == "" || rest[|rest| - 1] == text[|text| - 1]
  {
  }
}
