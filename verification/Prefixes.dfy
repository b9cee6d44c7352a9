/**
  * Reading a text from its beginning: more text changes nothing but what is left, except where the
  * beginning ended too early.
  */
module Prefixes {
  import opened Text
  import opened Documents
  import opened ParserSpec

  function Longer(o: Outcome, q: string): Outcome {
    o.(rest := o.rest + q)
  }

  /** `part` is what comes of a text and `whole` what comes of it with `q` behind it. */
  ghost predicate Grows(part: Parsed, whole: Parsed, q: string) {
    if part.outcome == Broken(UnexpectedEnd, "") then part.events <= whole.events
    else whole == Parsed(part.events, Longer(part.outcome, q))
  }

  lemma {:induction false} WaitForGrows(p: string, q: string, expected: string)
    ensures WaitFor(p, expected) == Lost(UnexpectedEnd, "")
         || WaitFor(p + q, expected) == WaitFor(p, expected).(rest := WaitFor(p, expected).rest + q)
  {
    if p != "" {
      assert (p + q)[1..] == p[1..] + q;
      WaitForGrows(p[1..], q, expected);
    }
  }

  lemma {:induction false} SpellGrows(p: string, q: string, word: string)
    ensures Spell(p, word) == Broken(UnexpectedEnd, "") || Spell(p + q, word) == Longer(Spell(p, word), q)
    decreases |word|
  {
    if word != "" {
      WaitForGrows(p, q, word[..1]);
      SpellGrows(WaitFor(p, word[..1]).rest, q, word[1..]);
    }
  }

  lemma {:induction false} QuotedTextGrows(p: string, q: string)
    ensures QuotedText(p) == Cut(UnexpectedEnd, "")
         || QuotedText(p + q) == QuotedText(p).(rest := QuotedText(p).rest + q)
  {
    if p != "" {
      assert (p + q)[1..] == p[1..] + q;
      QuotedTextGrows(p[1..], q);
    }
  }

  lemma {:induction false} NumberTextGrows(p: string, q: string, literal: string)
    ensures NumberText(p, literal) == Cut(UnexpectedEnd, "")
         || NumberText(p + q, literal) == NumberText(p, literal).(rest := NumberText(p, literal).rest + q)
    decreases |p|
  {
    hide WaitFor, NumberText;
    WaitForGrows(p, q, NUMBER_CHARACTERS);
    NumberTextAt(p, literal);
    NumberTextAt(p + q, literal);
    var w := WaitFor(p, NUMBER_CHARACTERS);
    if w.Got? {
      assert [w.c] + (w.rest + q) == [w.c] + w.rest + q;
      NumberTextGrows(w.rest, q, literal + [w.c]);
    }
  }

  lemma {:induction false} ValueGrows(name: string, c: char, p: string, q: string)
    ensures Grows(Value(name, c, p), Value(name, c, p + q), q)
    decreases |p|, 1
  {
    match c
    case '{' => LoopGrows(Struct, p, q, AfterStart);
    case '[' => LoopGrows(Array, p, q, AfterStart);
    case 't' => SpellGrows(p, q, "rue");
    case 'f' => SpellGrows(p, q, "alse");
    case 'n' => SpellGrows(p, q, "ull");
    case '\"' => QuotedTextGrows(p, q);
    case _ => NumberTextGrows(p, q, [c]);
  }

  lemma {:induction false} MemberGrows(p: string, q: string)
    ensures Grows(Member(p), Member(p + q), q)
    decreases |p|, 0
  {
    hide WaitFor, QuotedText, Value;
    QuotedTextGrows(p, q);
    var t := QuotedText(p);
    if t.Text? {
      WaitForGrows(t.rest, q, ":");
      var colon := WaitFor(t.rest, ":");
      if colon.Got? {
        WaitForGrows(colon.rest, q, VALUE_START);
        var w := WaitFor(colon.rest, VALUE_START);
        if w.Got? {
          ValueGrows(t.text, w.c, w.rest, q);
        }
      }
    }
  }

  lemma {:induction false} LoopGrows(kind: Kind, p: string, q: string, phase: Phase)
    ensures Grows(Loop(kind, p, phase), Loop(kind, p + q, phase), q)
    decreases |p|, 0
  {
    hide WaitFor, Loop, Element, ElementTurn, Expected;
    WaitForGrows(p, q, Expected(kind, phase));
    LoopAt(kind, p, phase);
    LoopAt(kind, p + q, phase);
    var w := WaitFor(p, Expected(kind, phase));
    if w.Got? {
      LoopGrows(kind, w.rest, q, AfterComma);
      TurnGrows(kind, w.c, w.rest, q);
    }
  }

  lemma {:induction false} TurnGrows(kind: Kind, c: char, p: string, q: string)
    ensures Grows(ElementTurn(kind, Element(kind, c, p)), ElementTurn(kind, Element(kind, c, p + q)), q)
    decreases |p|, 3
  {
    hide Loop, Member, Value;
    if kind == Struct {
      MemberGrows(p, q);
    } else {
      ValueGrows("", c, p, q);
    }
    var element := Element(kind, c, p);
    if element.outcome.Done? {
      LoopGrows(kind, element.outcome.rest, q, AfterValue);
    }
  }

  /** A text that does not end too early is read or refused whatever is behind it, with the same calls. */
  lemma DocumentGrows(p: string, q: string)
    ensures var part, whole := Document(p), Document(p + q);
            if part.outcome == Broken(UnexpectedEnd, "") then part.events <= whole.events
            else whole == Parsed(part.events, part.outcome.(rest := part.outcome.rest + q))
  {
    hide Loop, WaitFor;
    WaitForGrows(p, q, "{");
    var w := WaitFor(p, "{");
    if w.Got? {
      LoopGrows(Struct, w.rest, q, AfterStart);
    }
  }

  /** Cutting a complete document anywhere before its last brace gives the fault of a text that ends too early. */
  lemma CutTextEndsEarly(p: string, q: string)
    requires Document(p + q).outcome.Done? && |Document(p + q).outcome.rest| < |q|
    ensures Document(p).outcome == Broken(UnexpectedEnd, "")
    ensures Document(p).events <= Document(p + q).events
  {
    hide Document;
    DocumentGrows(p, q);
  }
}
