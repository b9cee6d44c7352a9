/**
  * A comma in front of a closer is never read.
  */
module Commas {
  import opened Text
  import opened Documents
  import opened ParserSpec
  import opened Layout
  import opened Tokens

  /** No comma outside quotes stands directly in front of a closer. */
  ghost predicate Clean(u: string) {
    forall i | 0 <= i < |u| - 1 && u[i] == ',' && Closes(u[i + 1]) :: Quotes(u[..i]) % 2 == 1
  }

  /** No white space outside quotes. */
  predicate Dense(t: string) {
    Strip(t, false) == t
  }

  // ---------- Pieces of text ----------

  lemma CleanConcat(a: string, b: string)
    requires Clean(a) && Clean(b) && Quotes(a) % 2 == 0
    requires a != "" && b != "" ==> a[|a| - 1] != ',' || !Closes(b[0])
    ensures Clean(a + b)
  {
    hide Quotes;
    forall i | 0 <= i < |a + b| - 1 && (a + b)[i] == ',' && Closes((a + b)[i + 1])
      ensures Quotes((a + b)[..i]) % 2 == 1
    {
      CleanAt(a, b, i);
    }
  }

  lemma CleanAt(a: string, b: string, i: nat)
    requires Clean(a) && Clean(b) && Quotes(a) % 2 == 0
    requires a != "" && b != "" ==> a[|a| - 1] != ',' || !Closes(b[0])
    requires i < |a + b| - 1 && (a + b)[i] == ',' && Closes((a + b)[i + 1])
    ensures Quotes((a + b)[..i]) % 2 == 1
  {
    hide Quotes;
    if i < |a| {
      assert (a + b)[..i] == a[..i];
      assert i < |a| - 1;
    } else {
      var k := i - |a|;
      assert (a + b)[..i] == a + b[..k] && b[k] == ',' && Closes(b[k + 1]);
      QuotesConcat(a, b[..k]);
    }
  }

  lemma {:induction false} NoQuotes(t: string)
    requires QuoteFree(t)
    ensures Quotes(t) == 0
  {
    if t != "" {
      assert t[0] != '\"';
      NoQuotes(t[1..]);
    }
  }

  lemma QuotedIsClean(t: string)
    requires QuoteFree(t)
    ensures Clean("\"" + t + "\"") && Quotes("\"" + t + "\"") == 2
  {
    var q := "\"" + t + "\"";
    NoQuotes(t);
    OneQuote('\"');
    QuotesConcat("\"", t);
    QuotesConcat("\"" + t, "\"");
    forall i | 0 <= i < |q| - 1 && q[i] == ',' && Closes(q[i + 1]) ensures Quotes(q[..i]) % 2 == 1 {
      assert q[..i] == "\"" + t[..i - 1];
      NoQuotes(t[..i - 1]);
      QuotesConcat("\"", t[..i - 1]);
    }
  }

  lemma {:induction false} StripTwice(t: string, quoted: bool)
    ensures Strip(Strip(t, quoted), quoted) == Strip(t, quoted)
    decreases |t|
  {
    if t != "" {
      hide Strip, IsBlank;
      var c, more := t[0], t[1..];
      var q := if c == '\"' then !quoted else quoted;
      assert t == [c] + more;
      StripHead(c, more, quoted);
      StripTwice(more, q);
      StripHead(c, Strip(more, q), quoted);
      assert IsBlank(c) ==> c != '\"' by { BlankIsNoQuote(c); }
    }
  }

  lemma BlankIsNoQuote(c: char)
    ensures IsBlank(c) <==> White(c)
    ensures White(c) ==> c != '\"'
  {
  }

  lemma DenseRest(u: string, v: string)
    requires Dense(u + v) && Quotes(u) % 2 == 0
    ensures Dense(v)
  {
    QuotesDecide(u, false);
    StripConcat(u, v, false);
    assert |Strip(u, false)| <= |u| && |Strip(v, false)| <= |v|;
    assert (u + v)[|u|..] == v;
    assert (Strip(u, false) + Strip(v, false))[|Strip(u, false)|..] == Strip(v, false);
  }

  lemma DenseFront(c: char, t: string)
    requires Dense([c] + t)
    ensures !White(c) && (c != '\"' ==> Dense(t))
  {
    StripHead(c, t, false);
    BlankIsNoQuote(c);
    if c != '\"' {
      OneQuote(c);
      DenseRest([c], t);
    }
  }

  // ---------- What is consumed is clean ----------

  /** A piece that starts and ends outside quotes and does not end with a comma. */
  ghost predicate Whole(e: string) {
    e != "" && Clean(e) && Quotes(e) % 2 == 0 && e[|e| - 1] != ','
  }

  /** A piece that starts and ends outside quotes and ends with a closer. */
  ghost predicate Ended(u: string) {
    u != "" && Clean(u) && Quotes(u) % 2 == 0 && Closes(u[|u| - 1])
  }

  lemma WholeThen(e: string, u: string)
    requires Whole(e) && Ended(u)
    ensures Ended(e + u)
  {
    hide Quotes, Clean;
    CleanConcat(e, u);
    QuotesConcat(e, u);
  }

  lemma WholeTwice(e: string, u: string)
    requires Whole(e) && Whole(u)
    ensures Whole(e + u)
  {
    hide Quotes, Clean;
    CleanConcat(e, u);
    QuotesConcat(e, u);
  }

  /** One character in front, which is no quote, and no comma before a closer. */
  lemma FrontThen(c: char, u: string)
    requires Ended(u) && c != '\"' && (c == ',' ==> !Closes(u[0]))
    ensures Ended([c] + u) && (c != ',' ==> Whole([c] + u))
  {
    hide Quotes;
    OneQuote(c);
    CleanConcat([c], u);
    QuotesConcat([c], u);
    assert ([c] + u)[|u|] == u[|u| - 1];
  }

  lemma CloserEnds(c: char)
    requires Closes(c)
    ensures Ended([c])
  {
    OneQuote(c);
  }

  lemma DenseWait(t: string, expected: string)
    requires Dense(t) && WaitFor(t, expected).Got?
    ensures t == [WaitFor(t, expected).c] + WaitFor(t, expected).rest
  {
    assert t == [t[0]] + t[1..];
    DenseFront(t[0], t[1..]);
    BlankIsNoQuote(t[0]);
  }

  lemma {:induction false} DenseSpell(rem: string, word: string)
    requires Dense(rem) && QuoteFree(word) && Spell(rem, word).Done?
    ensures rem == word + Spell(rem, word).rest
    decreases |word|
  {
    if word != "" {
      DenseWait(rem, word[..1]);
      var rest := WaitFor(rem, word[..1]).rest;
      assert word[..1] == [word[0]] && word[0] in word;
      DenseFront(word[0], rest);
      DenseSpell(rest, word[1..]);
      assert word == [word[0]] + word[1..];
    }
  }

  lemma {:induction false} QuotedConsumes(rem: string)
    requires QuotedText(rem).Text?
    ensures var t := QuotedText(rem); rem == t.text + "\"" + t.rest && QuoteFree(t.text)
  {
    if rem[0] == '\"' {
      assert rem == "" + "\"" + rem[1..];
    } else {
      QuotedConsumes(rem[1..]);
      assert rem == [rem[0]] + rem[1..];
    }
  }

  lemma {:induction false} DenseNumber(rem: string, literal: string) returns (u: string)
    requires Dense(rem) && NumberText(rem, literal).Text?
    ensures rem == u + NumberText(rem, literal).rest
    ensures ',' !in u && QuoteFree(u)
    decreases |rem|
  {
    var w := WaitFor(rem, NUMBER_CHARACTERS);
    hide WaitFor, NumberText;
    NumberTextAt(rem, literal);
    DenseWait(rem, NUMBER_CHARACTERS);
    NumberCharacters(w.c);
    if w.c in NUMBER_ENDS {
      u := "";
    } else {
      DenseFront(w.c, w.rest);
      var more := DenseNumber(w.rest, literal + [w.c]);
      u := [w.c] + more;
    }
  }

  lemma PlainIsWhole(e: string)
    requires e != "" && ',' !in e && QuoteFree(e)
    ensures Whole(e)
  {
    NoQuotes(e);
  }

  lemma {:induction false} ValueIsWhole(name: string, c: char, rem: string) returns (u: string)
    requires Dense([c] + rem) && c != ',' && Value(name, c, rem).outcome.Done?
    ensures rem == u + Value(name, c, rem).outcome.rest && Whole([c] + u)
    decreases |rem|, 1
  {
    hide Whole, Dense, Loop, Spell, NumberText, QuotedText, Quotes, Stoll, StodConverts;
    DenseFront(c, rem);
    match c
    case '{' => u := NodeIsWhole(c, Struct, rem);
    case '[' => u := NodeIsWhole(c, Array, rem);
    case 't' =>
      DenseSpell(rem, "rue");
      u := "rue";
      PlainIsWhole("true");
      assert [c] + u == "true";
    case 'f' =>
      DenseSpell(rem, "alse");
      u := "alse";
      PlainIsWhole("false");
      assert [c] + u == "false";
    case 'n' =>
      DenseSpell(rem, "ull");
      u := "ull";
      PlainIsWhole("null");
      assert [c] + u == "null";
    case '\"' =>
      QuotedConsumes(rem);
      u := QuotedText(rem).text + "\"";
      NameIsWhole(QuotedText(rem).text);
      assert [c] + u == "\"" + QuotedText(rem).text + "\"";
    case _ =>
      u := DenseNumber(rem, [c]);
      PlainIsWhole([c] + u);
  }

  lemma {:induction false} NodeIsWhole(c: char, kind: Kind, rem: string) returns (u: string)
    requires Dense(rem) && c != ',' && c != '\"' && Loop(kind, rem, AfterStart).outcome.Done?
    ensures rem == u + Loop(kind, rem, AfterStart).outcome.rest && Whole([c] + u) && Ended([c] + u)
    decreases |rem|, 0, 1
  {
    hide Loop, Dense, Ended, Whole;
    u := LoopIsClean(kind, rem, AfterStart);
    FrontThen(c, u);
  }

  lemma {:induction false} MemberIsWhole(rem: string) returns (u: string)
    requires Dense("\"" + rem) && Member(rem).outcome.Done?
    ensures rem == u + Member(rem).outcome.rest && Whole("\"" + u)
    decreases |rem|, 0, 0
  {
    hide Value, WaitFor, QuotedText, Dense, Whole, Quotes;
    QuotedConsumes(rem);
    var n, r1 := QuotedText(rem).text, QuotedText(rem).rest;
    var quoted := "\"" + n + "\"";
    NameIsWhole(n);
    assert "\"" + rem == quoted + r1;
    DenseRest(quoted, r1);
    DenseWait(r1, ":");
    var r2 := WaitFor(r1, ":").rest;
    assert WaitFor(r1, ":").c == ':';
    DenseFront(':', r2);
    DenseWait(r2, VALUE_START);
    var c, r3 := WaitFor(r2, VALUE_START).c, WaitFor(r2, VALUE_START).rest;
    var v := ValueIsWhole(n, c, r3);
    ColonIsWhole();
    WholeTwice(":", [c] + v);
    WholeTwice(quoted, ":" + ([c] + v));
    u := MemberPieces(n, c, v, r1, r2, r3, Member(rem).outcome.rest);
  }

  lemma NameIsWhole(n: string)
    requires QuoteFree(n)
    ensures Whole("\"" + n + "\"") && Quotes("\"" + n + "\"") % 2 == 0
  {
    hide Quotes, Clean;
    QuotedIsClean(n);
  }

  lemma ColonIsWhole()
    ensures Whole(":")
  {
    PlainIsWhole(":");
  }

  lemma MemberPieces(n: string, c: char, v: string, r1: string, r2: string, r3: string, rest: string) returns (u: string)
    requires r1 == [':'] + r2 && r2 == [c] + r3 && r3 == v + rest
    ensures n + "\"" + r1 == u + rest && "\"" + u == "\"" + n + "\"" + (":" + ([c] + v))
  {
    u := n + "\"" + (":" + ([c] + v));
  }

  lemma {:induction false} LoopIsClean(kind: Kind, rem: string, phase: Phase) returns (u: string)
    requires Dense(rem) && Loop(kind, rem, phase).outcome.Done?
    ensures rem == u + Loop(kind, rem, phase).outcome.rest
    ensures Ended(u) && (phase == AfterComma ==> u != "" && !Closes(u[0]))
    decreases |rem|, 0, 0
  {
    hide Value, Member, Dense, Quotes, Loop, Whole, Ended, ElementTurn, MayCome;
    NothingLoops(kind, phase);
    var c, t := rem[0], rem[1..];
    assert rem == [c] + t;
    DenseFront(c, t);
    LoopTakes(kind, phase, c, t);
    if Closes(c) {
      u := [c];
      CloserEnds(c);
      NoCloserAfterComma(kind, phase, c);
    } else if c == ',' {
      var more := LoopIsClean(kind, t, AfterComma);
      u := [c] + more;
      FrontThen(c, more);
    } else {
      MemberStarts(kind, phase, c);
      u := TurnIsClean(kind, c, t);
    }
  }

  lemma NoCloserAfterComma(kind: Kind, phase: Phase, c: char)
    requires Closes(c) && MayCome(kind, phase, c)
    ensures phase != AfterComma
  {
  }

  lemma MemberStarts(kind: Kind, phase: Phase, c: char)
    requires MayCome(kind, phase, c) && c != ',' && !Closes(c)
    ensures kind == Struct ==> c == '\"'
  {
  }

  /** An element and what the loop reads after it. */
  lemma {:induction false} TurnIsClean(kind: Kind, c: char, t: string) returns (u: string)
    requires Dense([c] + t) && c != ',' && !Closes(c) && (kind == Struct ==> c == '\"')
    requires ElementTurn(kind, if kind == Struct then Member(t) else Value("", c, t)).outcome.Done?
    ensures [c] + t == u + ElementTurn(kind, if kind == Struct then Member(t) else Value("", c, t)).outcome.rest
    ensures Ended(u) && u != "" && !Closes(u[0])
    decreases |t|, 2
  {
    hide Value, Member, Dense, Quotes, Loop, Whole, Ended;
    var e;
    if kind == Struct {
      e := MemberIsWhole(t);
    } else {
      e := ValueIsWhole("", c, t);
    }
    var element := [c] + e;
    var after := if kind == Struct then Member(t).outcome.rest else Value("", c, t).outcome.rest;
    assert [c] + t == element + after;
    WholeIsEven(element);
    DenseRest(element, after);
    var more := LoopIsClean(kind, after, AfterValue);
    u := element + more;
    WholeThen(element, more);
  }

  lemma WholeIsEven(e: string)
    requires Whole(e)
    ensures Quotes(e) % 2 == 0
  {
  }

  lemma NothingLoops(kind: Kind, phase: Phase)
    ensures Loop(kind, "", phase).outcome.Broken?
  {
  }

  // ---------- Trailing commas ----------

  /**
    * If a text that is read completely has a comma outside quotes in front of a closer, white space
    * aside, reading has ended before that comma.
    */
  lemma TrailingCommaIsNotRead(text: string, a: string, closer: char, b: string)
    requires Strip(text, false) == a + "," + [closer] + b && Quotes(a) % 2 == 0 && Closes(closer)
    requires Document(text).outcome.Done?
    ensures |Strip(Document(text).outcome.rest, false)| >= 2 + |b|
  {
    hide Strip, Quotes, Loop, WaitFor, Clean;
    var s := Strip(text, false);
    DocumentStrip(text);
    StripTwice(text, false);
    assert Dense(s);
    DenseWait(s, "{");
    var t := WaitFor(s, "{").rest;
    DenseFront('{', t);
    var u := NodeIsWhole('{', Struct, t);
    var rest := Document(s).outcome.rest;
    assert s == ("{" + u) + rest && rest == Strip(Document(text).outcome.rest, false);
    EndsBefore("{" + u, rest, a, closer, b);
  }

  lemma EndsBefore(read: string, rest: string, a: string, closer: char, b: string)
    requires read + rest == a + "," + [closer] + b && Quotes(a) % 2 == 0 && Closes(closer)
    requires Ended(read)
    ensures |rest| >= 2 + |b|
  {
    hide Quotes;
    var s := read + rest;
    assert s[|a|] == ',' && s[|a| + 1] == closer && s[..|a|] == a;
    assert forall i | 0 <= i < |read| :: s[i] == read[i];
    assert |a| <= |read| ==> read[..|a|] == s[..|a|];
  }
}
