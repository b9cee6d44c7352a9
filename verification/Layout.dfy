/**
  * White space outside string literals never matters to the reader.
  */
module Layout {
  import opened Text
  import opened Documents
  import opened ParserSpec

  /** `t` without the white space outside quotes; `quoted` says whether `t` starts inside them. */
  function Strip(t: string, quoted: bool): (s: string)
    ensures |s| <= |t|
  {
    if t == "" then ""
    else if !quoted && IsBlank(t[0]) then Strip(t[1..], quoted)
    else [t[0]] + Strip(t[1..], if t[0] == '\"' then !quoted else quoted)
  }

  ghost predicate Sharp(expected: string) {
    forall c | c in expected :: !IsBlank(c)
  }

  ghost predicate SameWaited(s: Waited, w: Waited) {
    match w
    case Got(c, rest) => s == Got(c, Strip(rest, c == '\"'))
    case Lost(fault, _) => s.Lost? && s.fault == fault
  }

  ghost predicate SameCollected(s: Collected, t: Collected) {
    match t
    case Text(text, rest) => s == Text(text, Strip(rest, false))
    case Cut(fault, _) => s.Cut? && s.fault == fault
  }

  /** `o` is the outcome on some text and `s` the outcome on that text stripped. */
  ghost predicate SameOutcome(s: Outcome, o: Outcome) {
    match o
    case Done(rest) => s == Done(Strip(rest, false))
    case Broken(fault, _) => s.Broken? && s.fault == fault
  }

  ghost predicate SameParsed(s: Parsed, p: Parsed) {
    s.events == p.events && SameOutcome(s.outcome, p.outcome)
  }

  lemma TokensAreSharp()
    ensures Sharp(":") && QuoteFree(":") && Sharp(VALUE_START) && Sharp(NUMBER_CHARACTERS) && QuoteFree(NUMBER_CHARACTERS)
  {
  }

  lemma {:induction false} WaitForStrip(rem: string, expected: string)
    requires Sharp(expected)
    ensures SameWaited(WaitFor(Strip(rem, false), expected), WaitFor(rem, expected))
  {
    if rem != "" {
      if IsBlank(rem[0]) {
        WaitForStrip(rem[1..], expected);
      } else {
        var tail := Strip(rem[1..], rem[0] == '\"');
        assert Strip(rem, false) == [rem[0]] + tail;
        assert Strip(rem, false)[1..] == tail;
      }
    }
  }

  lemma {:induction false} SpellStrip(rem: string, word: string)
    requires Sharp(word) && QuoteFree(word)
    ensures SameOutcome(Spell(Strip(rem, false), word), Spell(rem, word))
    decreases |word|
  {
    if word != "" {
      assert word[..1] == [word[0]];
      WaitForStrip(rem, word[..1]);
      var w := WaitFor(rem, word[..1]);
      if w.Got? {
        SpellStrip(w.rest, word[1..]);
      }
    }
  }

  lemma {:induction false} QuotedTextStrip(rem: string)
    ensures SameCollected(QuotedText(Strip(rem, true)), QuotedText(rem))
  {
    if rem != "" {
      var tail := Strip(rem[1..], rem[0] != '\"');
      assert Strip(rem, true) == [rem[0]] + tail;
      assert Strip(rem, true)[1..] == tail;
      if rem[0] != '\"' {
        QuotedTextStrip(rem[1..]);
      }
    }
  }

  lemma StripCons(c: char, rest: string)
    requires !IsBlank(c) && c != '\"'
    ensures Strip([c] + rest, false) == [c] + Strip(rest, false)
  {
    assert ([c] + rest)[1..] == rest;
  }

  lemma {:induction false} NumberTextStrip(rem: string, literal: string)
    ensures SameCollected(NumberText(Strip(rem, false), literal), NumberText(rem, literal))
    decreases |rem|
  {
    TokensAreSharp();
    WaitForStrip(rem, NUMBER_CHARACTERS);
    var w := WaitFor(rem, NUMBER_CHARACTERS);
    if w.Got? {
      if w.c in NUMBER_ENDS {
        StripCons(w.c, w.rest);
      } else {
        NumberTextStrip(w.rest, literal + [w.c]);
      }
    }
  }

  lemma {:induction false} ValueStrip(name: string, c: char, rem: string)
    ensures SameParsed(Value(name, c, Strip(rem, c == '\"')), Value(name, c, rem))
    decreases |rem|, 1
  {
    match c
    case '{' => LoopStrip(Struct, rem, AfterStart);
    case '[' => LoopStrip(Array, rem, AfterStart);
    case 't' => SpellStrip(rem, "rue");
    case 'f' => SpellStrip(rem, "alse");
    case 'n' => SpellStrip(rem, "ull");
    case '\"' => QuotedTextStrip(rem);
    case _ => NumberTextStrip(rem, [c]);
  }

  /** Two waits in a row, the first for something other than a quote. */
  lemma TwoWaitsStrip(rem: string, first: string, second: string)
    requires Sharp(first) && Sharp(second) && QuoteFree(first)
    ensures var w, s := WaitFor(rem, first), WaitFor(Strip(rem, false), first);
            && SameWaited(s, w)
            && (w.Got? ==> SameWaited(WaitFor(s.rest, second), WaitFor(w.rest, second)))
  {
    WaitForStrip(rem, first);
    var w := WaitFor(rem, first);
    if w.Got? {
      WaitForStrip(w.rest, second);
    }
  }

  lemma {:induction false} MemberStrip(rem: string)
    ensures SameParsed(Member(Strip(rem, true)), Member(rem))
    decreases |rem|, 0
  {
    QuotedTextStrip(rem);
    var t := QuotedText(rem);
    if t.Text? {
      TokensAreSharp();
      TwoWaitsStrip(t.rest, ":", VALUE_START);
      var colon := WaitFor(t.rest, ":");
      if colon.Got? {
        var w := WaitFor(colon.rest, VALUE_START);
        if w.Got? {
          ValueStrip(t.text, w.c, w.rest);
        }
      }
    }
  }

  lemma ExpectedIsSharp(kind: Kind, phase: Phase)
    ensures Sharp(Expected(kind, phase))
    ensures kind == Struct ==> forall c | c in Expected(kind, phase) :: c == ',' || c == '}' || c == '\"'
  {
  }

  lemma {:induction false} LoopStrip(kind: Kind, rem: string, phase: Phase)
    ensures SameParsed(Loop(kind, Strip(rem, false), phase), Loop(kind, rem, phase))
    decreases |rem|, 0
  {
    ExpectedIsSharp(kind, phase);
    WaitForStrip(rem, Expected(kind, phase));
    var w := WaitFor(rem, Expected(kind, phase));
    if w.Got? {
      if w.c == ',' {
        LoopStrip(kind, w.rest, AfterComma);
      } else if w.c != Closer(kind) {
        if kind == Struct {
          MemberStrip(w.rest);
        } else {
          ValueStrip("", w.c, w.rest);
        }
        var element := Element(kind, w.c, w.rest);
        if element.outcome.Done? {
          LoopStrip(kind, element.outcome.rest, AfterValue);
        }
      }
    }
  }

  /** For every text, valid or not, the callbacks and the outcome are those of the stripped text. */
  lemma DocumentStrip(text: string)
    ensures SameParsed(Document(Strip(text, false)), Document(text))
  {
    WaitForStrip(text, "{");
    var w := WaitFor(text, "{");
    if w.Got? {
      LoopStrip(Struct, w.rest, AfterStart);
    }
  }

  /** Two texts that differ only in white space outside strings are read alike. */
  lemma LayoutIrrelevant(a: string, b: string)
    requires Strip(a, false) == Strip(b, false)
    ensures Document(a).events == Document(b).events
    ensures Document(a).outcome.Done? == Document(b).outcome.Done?
    ensures Document(a).outcome.Broken? ==> Document(a).outcome.fault == Document(b).outcome.fault
  {
    DocumentStrip(a);
    DocumentStrip(b);
  }

  predicate Unquotes(t: string, quoted: bool) {
    if t == "" then quoted else Unquotes(t[1..], if t[0] == '\"' then !quoted else quoted)
  }

  lemma StripHead(c: char, t: string, quoted: bool)
    ensures var more := Strip(t, if c == '\"' then !quoted else quoted);
            Strip([c] + t, quoted) == if !quoted && IsBlank(c) then more else [c] + more
    ensures Unquotes([c] + t, quoted) == Unquotes(t, if c == '\"' then !quoted else quoted)
  {
    assert ([c] + t)[1..] == t;
  }

  lemma {:induction false} StripConcat(a: string, b: string, quoted: bool)
    ensures Strip(a + b, quoted) == Strip(a, quoted) + Strip(b, Unquotes(a, quoted))
    ensures Unquotes(a + b, quoted) == Unquotes(b, Unquotes(a, quoted))
    decreases |a|
  {
    if a == "" {
      assert a + b == b;
    } else {
      hide Strip, Unquotes, IsBlank;
      var c, t := a[0], a[1..];
      assert a == [c] + t && a + b == [c] + (t + b);
      StripHead(c, t, quoted);
      StripHead(c, t + b, quoted);
      StripConcat(t, b, if c == '\"' then !quoted else quoted);
    }
  }
}
