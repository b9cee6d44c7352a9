/**
  * Laws of the reader that hold for every text, well formed or not.
  */
module ParserLaws {
  import opened Text
  import opened Documents
  import opened ParserSpec

  // ---------- The callbacks are well nested ----------

  /** `es` leaves `open` as it was when reading went well, and never closes more than it opened. */
  ghost predicate Balanced(p: Parsed, before: seq<Kind>, after: seq<Kind>) {
    if p.outcome.Done? then Nest(before, p.events) == Some(after) else Nest(before, p.events).Some?
  }

  lemma {:induction false} ValueNests(name: string, c: char, rem: string, open: seq<Kind>)
    ensures Balanced(Value(name, c, rem), open, open)
    decreases |rem|, 1
  {
    var p := Value(name, c, rem);
    match c
    case '{' =>
      LoopNests(Struct, rem, AfterStart, open);
      NestConcat(open, [Start(Struct, name)], Loop(Struct, rem, AfterStart).events);
    case '[' =>
      LoopNests(Array, rem, AfterStart, open);
      NestConcat(open, [Start(Array, name)], Loop(Array, rem, AfterStart).events);
    case _ =>
      assert |p.events| <= 1;
      assert p.events == [] || p.events[1..] == [];
  }

  lemma {:induction false} MemberNests(rem: string, open: seq<Kind>)
    ensures Balanced(Member(rem), open, open)
    decreases |rem|, 0
  {
    match QuotedText(rem)
    case Cut(_, _) =>
    case Text(name, afterName) =>
      match WaitFor(afterName, ":")
      case Lost(_, _) =>
      case Got(_, afterColon) =>
        match WaitFor(afterColon, VALUE_START)
        case Lost(_, _) =>
        case Got(c, rest) => ValueNests(name, c, rest, open);
  }

  lemma {:induction false} LoopNests(kind: Kind, rem: string, phase: Phase, open: seq<Kind>)
    ensures Balanced(Loop(kind, rem, phase), [kind] + open, open)
    decreases |rem|, 0
  {
    match WaitFor(rem, Expected(kind, phase))
    case Lost(_, _) =>
    case Got(c, rest) =>
      if c == Closer(kind) {
        assert ([kind] + open)[1..] == open;
        assert [End(kind)][1..] == [];
      } else if c == ',' {
        LoopNests(kind, rest, AfterComma, open);
      } else {
        var element := Element(kind, c, rest);
        if kind == Struct {
          MemberNests(rest, [kind] + open);
        } else {
          ValueNests("", c, rest, [kind] + open);
        }
        if element.outcome.Done? {
          LoopNests(kind, element.outcome.rest, AfterValue, open);
          NestConcat([kind] + open, element.events, Loop(kind, element.outcome.rest, AfterValue).events);
        }
      }
  }

  /** Whatever the text, the callbacks are well nested on success and the beginning of a
    * well-nested sequence on failure. */
  lemma DocumentNests(text: string)
    ensures var p := Document(text);
            && (p.outcome.Done? ==> WellNested(p.events))
            && (p.outcome.Broken? ==> exists closers :: WellNested(p.events + closers))
  {
    match WaitFor(text, "{")
    case Lost(_, _) =>
      assert WellNested([] + []);
    case Got(_, rest) =>
      var p := Loop(Struct, rest, AfterStart);
      LoopNests(Struct, rest, AfterStart, []);
      NestConcat([], [Start(Struct, "")], p.events);
      assert [Struct] + [] == [Struct];
      var es := Document(text).events;
      if p.outcome.Broken? {
        OpenTraceCompletes(es);
        assert WellNested(es + Closers(Nest([], es).value));
      }
  }

  // ---------- What remains is a suffix of what there was ----------

  lemma SuffixOfSuffix(a: string, b: string, c: string)
    requires IsSuffix(a, b) && IsSuffix(b, c)
    ensures IsSuffix(a, c)
  {
  }

  lemma {:induction false} WaitForSuffix(rem: string, expected: string)
    ensures var w := WaitFor(rem, expected);
            IsSuffix(w.rest, rem) && (w.Got? ==> IsSuffix([w.c] + w.rest, rem))
  {
    if rem != "" && rem[0] !in expected && IsBlank(rem[0]) {
      WaitForSuffix(rem[1..], expected);
    }
  }

  lemma {:induction false} SpellSuffix(rem: string, word: string)
    ensures IsSuffix(Spell(rem, word).rest, rem)
    decreases |word|
  {
    if word != "" {
      WaitForSuffix(rem, word[..1]);
      var w := WaitFor(rem, word[..1]);
      if w.Got? {
        SpellSuffix(w.rest, word[1..]);
      }
    }
  }

  lemma {:induction false} QuotedTextSuffix(rem: string)
    ensures IsSuffix(QuotedText(rem).rest, rem)
  {
    if rem != "" && rem[0] != '\"' {
      QuotedTextSuffix(rem[1..]);
    }
  }

  lemma {:induction false} NumberTextSuffix(rem: string, literal: string)
    ensures IsSuffix(NumberText(rem, literal).rest, rem)
    decreases |rem|
  {
    WaitForSuffix(rem, NUMBER_CHARACTERS);
    var w := WaitFor(rem, NUMBER_CHARACTERS);
    if w.Got? && w.c !in NUMBER_ENDS {
      NumberTextSuffix(w.rest, literal + [w.c]);
    }
  }

  lemma {:induction false} ValueSuffix(name: string, c: char, rem: string)
    ensures IsSuffix(Value(name, c, rem).outcome.rest, rem)
    decreases |rem|, 1
  {
    match c
    case '{' => LoopSuffix(Struct, rem, AfterStart);
    case '[' => LoopSuffix(Array, rem, AfterStart);
    case 't' => SpellSuffix(rem, "rue");
    case 'f' => SpellSuffix(rem, "alse");
    case 'n' => SpellSuffix(rem, "ull");
    case '\"' => QuotedTextSuffix(rem);
    case _ => NumberTextSuffix(rem, [c]);
  }

  lemma {:induction false} MemberSuffix(rem: string)
    ensures IsSuffix(Member(rem).outcome.rest, rem)
    decreases |rem|, 0
  {
    QuotedTextSuffix(rem);
    var t := QuotedText(rem);
    if t.Text? {
      WaitForSuffix(t.rest, ":");
      var colon := WaitFor(t.rest, ":");
      SuffixOfSuffix(colon.rest, t.rest, rem);
      if colon.Got? {
        WaitForSuffix(colon.rest, VALUE_START);
        var w := WaitFor(colon.rest, VALUE_START);
        SuffixOfSuffix(w.rest, colon.rest, rem);
        if w.Got? {
          ValueSuffix(t.text, w.c, w.rest);
          SuffixOfSuffix(Member(rem).outcome.rest, w.rest, rem);
        }
      }
    }
  }

  lemma {:induction false} LoopSuffix(kind: Kind, rem: string, phase: Phase)
    ensures IsSuffix(Loop(kind, rem, phase).outcome.rest, rem)
    decreases |rem|, 0
  {
    WaitForSuffix(rem, Expected(kind, phase));
    var w := WaitFor(rem, Expected(kind, phase));
    if w.Got? {
      if w.c == ',' {
        LoopSuffix(kind, w.rest, AfterComma);
        SuffixOfSuffix(Loop(kind, w.rest, AfterComma).outcome.rest, w.rest, rem);
      } else if w.c != Closer(kind) {
        ElementSuffix(kind, w.c, w.rest);
        var rest := Element(kind, w.c, w.rest).outcome.rest;
        LoopSuffix(kind, rest, AfterValue);
        SuffixOfSuffix(rest, w.rest, rem);
        SuffixOfSuffix(Loop(kind, rest, AfterValue).outcome.rest, rest, rem);
      }
    }
  }

  lemma ElementSuffix(kind: Kind, c: char, rem: string)
    ensures IsSuffix(Element(kind, c, rem).outcome.rest, rem)
    decreases |rem|, 2
  {
    if kind == Struct {
      MemberSuffix(rem);
    } else {
      ValueSuffix("", c, rem);
    }
  }

  lemma DocumentSuffix(text: string)
    ensures IsSuffix(Document(text).outcome.rest, text)
  {
    WaitForSuffix(text, "{");
    var w := WaitFor(text, "{");
    if w.Got? {
      LoopSuffix(Struct, w.rest, AfterStart);
      SuffixOfSuffix(Loop(Struct, w.rest, AfterStart).outcome.rest, w.rest, text);
    }
  }

  // ---------- Nothing after the outermost brace matters ----------

  /** The two texts start alike, as far as a reader that may look one character ahead can see. */
  ghost predicate SameNext(x: string, y: string) {
    (x == "") == (y == "") && (x != "" ==> x[0] == y[0])
  }

  /** If `rest` is a suffix of `mid` and `mid` one of `used + rest`, then `used` splits at `mid`. */
  lemma Split(used: string, rest: string, other: string, mid: string) returns (u1: string, u2: string)
    requires IsSuffix(mid, used + rest) && |rest| <= |mid|
    ensures mid == u2 + rest && used + rest == u1 + mid && used + other == u1 + (u2 + other)
  {
    var k := |used| + |rest| - |mid|;
    u1, u2 := used[..k], used[k..];
    assert mid == (used + rest)[k..] == u2 + rest;
  }

  lemma {:induction false} WaitForLocal(used: string, rest: string, other: string, expected: string)
    requires WaitFor(used + rest, expected).Got? && WaitFor(used + rest, expected).rest == rest
    ensures WaitFor(used + other, expected) == Got(WaitFor(used + rest, expected).c, other)
  {
    assert used != "";
    assert (used + rest)[1..] == used[1..] + rest;
    assert (used + other)[1..] == used[1..] + other;
    if used[0] in expected {
      assert used[1..] == "";
    } else {
      WaitForLocal(used[1..], rest, other, expected);
    }
  }

  lemma {:induction false} SpellLocal(used: string, rest: string, other: string, word: string)
    requires Spell(used + rest, word) == Done(rest)
    ensures Spell(used + other, word) == Done(other)
    decreases |word|
  {
    if word == "" {
      assert used == "";
      assert used + other == other;
    } else {
      var mid := WaitFor(used + rest, word[..1]).rest;
      WaitForSuffix(used + rest, word[..1]);
      var u1, u2 := Split(used, rest, other, mid);
      WaitForLocal(u1, u2 + rest, u2 + other, word[..1]);
      SpellLocal(u2, rest, other, word[1..]);
    }
  }

  lemma {:induction false} QuotedTextLocal(used: string, rest: string, other: string)
    requires QuotedText(used + rest).Text? && QuotedText(used + rest).rest == rest
    ensures QuotedText(used + other) == Text(QuotedText(used + rest).text, other)
  {
    assert used != "";
    assert (used + rest)[1..] == used[1..] + rest;
    assert (used + other)[1..] == used[1..] + other;
    if used[0] == '\"' {
      assert used[1..] == "";
    } else {
      QuotedTextLocal(used[1..], rest, other);
    }
  }

  /** Looking at the character that ends a literal, which is then pushed back. */
  lemma WaitForEndLocal(used: string, c: char, rest: string, other: string, expected: string)
    requires WaitFor(used + ([c] + rest), expected) == Got(c, rest)
    ensures WaitFor(used + ([c] + other), expected) == Got(c, other)
  {
    var front := used + [c];
    assert used + ([c] + rest) == front + rest;
    assert used + ([c] + other) == front + other;
    WaitForLocal(front, rest, other, expected);
  }

  lemma {:induction false} NumberTextLocal(used: string, rest: string, other: string, literal: string)
    requires NumberText(used + rest, literal).Text? && NumberText(used + rest, literal).rest == rest
    requires SameNext(rest, other)
    ensures NumberText(used + other, literal) == Text(NumberText(used + rest, literal).text, other)
    decreases |used + rest|
  {
    hide WaitFor, NumberText, IsSuffix;
    var w := WaitFor(used + rest, NUMBER_CHARACTERS);
    NumberTextAt(used + rest, literal);
    NumberTextAt(used + other, literal);
    if w.c in NUMBER_ENDS {
      assert other == [w.c] + other[1..];
      WaitForEndLocal(used, w.c, w.rest, other[1..], NUMBER_CHARACTERS);
    } else {
      WaitForSuffix(used + rest, NUMBER_CHARACTERS);
      var u1, u2 := Split(used, rest, other, w.rest);
      WaitForLocal(u1, u2 + rest, u2 + other, NUMBER_CHARACTERS);
      NumberTextLocal(u2, rest, other, literal + [w.c]);
    }
  }

  lemma {:induction false} ValueLocal(name: string, c: char, used: string, rest: string, other: string)
    requires Value(name, c, used + rest).outcome == Done(rest)
    requires SameNext(rest, other)
    ensures Value(name, c, used + other) == Parsed(Value(name, c, used + rest).events, Done(other))
    decreases |used + rest|, 1
  {
    match c
    case '{' => LoopLocal(Struct, used, rest, other, AfterStart);
    case '[' => LoopLocal(Array, used, rest, other, AfterStart);
    case 't' => SpellLocal(used, rest, other, "rue");
    case 'f' => SpellLocal(used, rest, other, "alse");
    case 'n' => SpellLocal(used, rest, other, "ull");
    case '\"' => QuotedTextLocal(used, rest, other);
    case _ => NumberTextLocal(used, rest, other, [c]);
  }

  lemma TwoWaitsLocal(used: string, rest: string, other: string, first: string, second: string)
    returns (last: string)
    requires WaitFor(used + rest, first).Got?
    requires var w := WaitFor(WaitFor(used + rest, first).rest, second); w.Got? && IsSuffix(rest, w.rest)
    ensures WaitFor(used + other, first).Got?
    ensures WaitFor(WaitFor(used + rest, first).rest, second).rest == last + rest
    ensures WaitFor(WaitFor(used + other, first).rest, second)
         == Got(WaitFor(WaitFor(used + rest, first).rest, second).c, last + other)
  {
    var r1 := WaitFor(used + rest, first).rest;
    var r2 := WaitFor(r1, second).rest;
    WaitForSuffix(used + rest, first);
    WaitForSuffix(r1, second);
    var u1, v1 := Split(used, rest, other, r1);
    WaitForLocal(u1, v1 + rest, v1 + other, first);
    var u2, v2 := Split(v1, rest, other, r2);
    WaitForLocal(u2, v2 + rest, v2 + other, second);
    last := v2;
  }

  lemma {:induction false} MemberLocal(used: string, rest: string, other: string)
    requires Member(used + rest).outcome == Done(rest)
    requires SameNext(rest, other)
    ensures Member(used + other) == Parsed(Member(used + rest).events, Done(other))
    decreases |used + rest|, 0
  {
    var t := QuotedText(used + rest);
    var w := WaitFor(WaitFor(t.rest, ":").rest, VALUE_START);
    assert Value(t.text, w.c, w.rest).outcome == Done(rest);
    QuotedTextSuffix(used + rest);
    ValueSuffix(t.text, w.c, w.rest);
    var u, v := Split(used, rest, other, t.rest);
    QuotedTextLocal(u, v + rest, v + other);
    var last := TwoWaitsLocal(v, rest, other, ":", VALUE_START);
    ValueLocal(t.text, w.c, last, rest, other);
  }

  lemma {:induction false} LoopLocal(kind: Kind, used: string, rest: string, other: string, phase: Phase)
    requires Loop(kind, used + rest, phase).outcome == Done(rest)
    ensures Loop(kind, used + other, phase) == Parsed(Loop(kind, used + rest, phase).events, Done(other))
    decreases |used + rest|, 0
  {
    hide WaitFor, Loop, Element, ElementTurn, Expected;
    LoopAt(kind, used + rest, phase);
    LoopAt(kind, used + other, phase);
    WaitForSuffix(used + rest, Expected(kind, phase));
    var w := WaitFor(used + rest, Expected(kind, phase));
    var u1, u2 := Split(used, rest, other, w.rest);
    WaitForLocal(u1, u2 + rest, u2 + other, Expected(kind, phase));
    if w.c == Closer(kind) {
      assert u2 == "" && u2 + other == other;
    } else if w.c == ',' {
      LoopLocal(kind, u2, rest, other, AfterComma);
    } else {
      TurnLocal(kind, w.c, u2, rest, other);
    }
  }

  /** An element and what the loop reads after it. */
  lemma {:induction false} TurnLocal(kind: Kind, c: char, used: string, rest: string, other: string)
    requires ElementTurn(kind, Element(kind, c, used + rest)).outcome == Done(rest)
    ensures ElementTurn(kind, Element(kind, c, used + other))
         == Parsed(ElementTurn(kind, Element(kind, c, used + rest)).events, Done(other))
    decreases |used + rest|, 3
  {
    hide Loop, Element;
    ElementSuffix(kind, c, used + rest);
    var element := Element(kind, c, used + rest);
    var v1, v2 := Split(used, rest, other, element.outcome.rest);
    ElementLocal(kind, c, v1, v2 + rest, v2 + other);
    LoopLocal(kind, v2, rest, other, AfterValue);
  }

  lemma {:induction false} ElementLocal(kind: Kind, c: char, used: string, rest: string, other: string)
    requires Element(kind, c, used + rest).outcome == Done(rest)
    requires SameNext(rest, other)
    ensures Element(kind, c, used + other) == Parsed(Element(kind, c, used + rest).events, Done(other))
    decreases |used + rest|, 2
  {
    hide Member, Value;
    if kind == Struct {
      MemberLocal(used, rest, other);
    } else {
      ValueLocal("", c, used, rest, other);
    }
  }

  /** A successful result does not depend on anything after the matching outer brace. */
  lemma DocumentLocal(used: string, rest: string, other: string)
    requires Document(used + rest).outcome == Done(rest)
    ensures Document(used + other) == Parsed(Document(used + rest).events, Done(other))
  {
    var w := WaitFor(used + rest, "{");
    WaitForSuffix(used + rest, "{");
    var u1, u2 := Split(used, rest, other, w.rest);
    WaitForLocal(u1, u2 + rest, u2 + other, "{");
    LoopLocal(Struct, u2, rest, other, AfterStart);
  }
}
