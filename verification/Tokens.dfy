/**
  * Which characters the reader takes, skips and refuses, character by character.
  */
module Tokens {
  import opened Text
  import opened Documents
  import opened ParserSpec
  import opened Layout
  import RoundTrip
  import Parser

  // ---------- White space ----------

  function Quotes(t: string): nat {
    if t == "" then 0 else (if t[0] == '\"' then 1 else 0) + Quotes(t[1..])
  }

  lemma {:induction false} QuotesConcat(a: string, b: string)
    ensures Quotes(a + b) == Quotes(a) + Quotes(b)
  {
    if a == "" {
      assert a + b == b;
    } else {
      assert (a + b)[1..] == a[1..] + b;
      QuotesConcat(a[1..], b);
    }
  }

  lemma {:induction false} QuotesDecide(t: string, quoted: bool)
    ensures Unquotes(t, quoted) <==> quoted != (Quotes(t) % 2 == 1)
  {
    if t != "" {
      QuotesDecide(t[1..], if t[0] == '\"' then !quoted else quoted);
    }
  }

  /** Outside quotes each of the four characters can be left out: same calls, same success, same fault. */
  lemma WhiteIsSkipped(a: string, c: char, b: string)
    requires White(c) && Quotes(a) % 2 == 0
    ensures var p, q := Document(a + [c] + b), Document(a + b);
            && p.events == q.events && p.outcome.Done? == q.outcome.Done?
            && (p.outcome.Broken? ==> p.outcome.fault == q.outcome.fault)
  {
    hide Strip, Unquotes, Document, Quotes;
    QuotesDecide(a, false);
    assert a + [c] + b == a + ([c] + b);
    StripConcat(a, [c] + b, false);
    StripConcat(a, b, false);
    StripHead(c, b, false);
    LayoutIrrelevant(a + [c] + b, a + b);
  }

  /** In front of a document every other character but the brace is refused. */
  lemma OthersAreRefused(c: char, t: string)
    requires !White(c) && c != '{'
    ensures Document([c] + t) == Parsed([], Broken(UnexpectedCharacter(c), t))
  {
  }

  // ---------- Lines ----------

  /** The newlines outside quotes among the first `p` characters. */
  ghost function Newlines(data: string, p: nat): set<nat>
    requires p <= |data|
  {
    set i: nat | i < p && data[i] == '\n' && Quotes(data[..i]) % 2 == 0
  }

  /** The reader's place: inside quotes after an odd number of them, and one line on for each such newline. */
  lemma {:induction false} ScanCounts(data: string, p: nat)
    requires p <= |data|
    ensures Parser.Scan(data, p) == Parser.Place(Quotes(data[..p]) % 2 == 1, |Newlines(data, p)|)
  {
    if p == 0 {
      assert Newlines(data, 0) == {};
    } else {
      hide Quotes, Newlines;
      ScanCounts(data, p - 1);
      QuotesStep(data, p);
      NewlinesStep(data, p);
    }
  }

  lemma QuotesStep(data: string, p: nat)
    requires 0 < p <= |data|
    ensures Quotes(data[..p]) == Quotes(data[..p - 1]) + if data[p - 1] == '\"' then 1 else 0
  {
    assert data[..p] == data[..p - 1] + [data[p - 1]];
    QuotesConcat(data[..p - 1], [data[p - 1]]);
    OneQuote(data[p - 1]);
  }

  lemma NewlinesStep(data: string, p: nat)
    requires 0 < p <= |data|
    ensures |Newlines(data, p)| == |Newlines(data, p - 1)|
                                   + if data[p - 1] == '\n' && Quotes(data[..p - 1]) % 2 == 0 then 1 else 0
  {
    hide Quotes;
    var before := Newlines(data, p - 1);
    if data[p - 1] == '\n' && Quotes(data[..p - 1]) % 2 == 0 {
      assert Newlines(data, p) == before + {p - 1};
    } else {
      assert Newlines(data, p) == before;
    }
  }

  lemma OneQuote(c: char)
    ensures Quotes([c]) == if c == '\"' then 1 else 0
  {
    assert [c][1..] == "";
  }

  // ---------- What may come next ----------

  predicate StartsValue(c: char) {
    c == '{' || c == '[' || c == '\"' || c == 't' || c == 'f' || c == 'n' || c == '-' || '0' <= c <= '9'
  }

  /** In an array a '.' may start a number, and a comma between elements is not asked for. */
  predicate MayCome(kind: Kind, phase: Phase, c: char) {
    if kind == Struct then
      (c == '\"' && phase != AfterValue) || (c == ',' && phase == AfterValue) || (c == '}' && phase != AfterComma)
    else
      StartsValue(c) || c == '.' || (c == ',' && phase == AfterValue) || (c == ']' && phase != AfterComma)
  }

  lemma ExpectedMayCome(kind: Kind, phase: Phase, c: char)
    ensures c in Expected(kind, phase) <==> MayCome(kind, phase, c)
  {
    assert c in "0123456789" <==> '0' <= c <= '9' by { DigitRange(c); }
  }

  lemma DigitRange(c: char)
    ensures c in "0123456789" <==> '0' <= c <= '9'
  {
  }

  /** One character in a struct or array: skipped, refused, or taken. */
  lemma LoopTakes(kind: Kind, phase: Phase, c: char, t: string)
    ensures Loop(kind, [c] + t, phase) ==
            if White(c) then Loop(kind, t, phase)
            else if !MayCome(kind, phase, c) then Parsed([], Broken(UnexpectedCharacter(c), t))
            else if c == '}' || c == ']' then Parsed([End(kind)], Done(t))
            else if c == ',' then Loop(kind, t, AfterComma)
            else ElementTurn(kind, if kind == Struct then Member(t) else Value("", c, t))
  {
    hide Loop, Element, ElementTurn, Expected;
    assert ([c] + t)[1..] == t;
    ExpectedMayCome(kind, phase, c);
    LoopAt(kind, [c] + t, phase);
    LoopAt(kind, t, phase);
    ElementAt(kind, c, t);
  }

  /** A member: its name, a colon, and a value that starts like one, a '.' excluded. */
  lemma MemberTakes(name: string, c: char, t: string)
    requires QuoteFree(name) && !White(c)
    ensures Member(name + "\":" + [c] + t) ==
            if StartsValue(c) then Value(name, c, t) else Parsed([], Broken(UnexpectedCharacter(c), t))
  {
    hide Value, QuotedText;
    assert name + "\":" + [c] + t == name + "\"" + (":" + ([c] + t));
    RoundTrip.QuotedTextReads(name, ":" + ([c] + t));
    assert ":" + ([c] + t) == [':'] + ([c] + t);
    RoundTrip.WaitForHit(':', [c] + t, ":");
    assert ([c] + t)[1..] == t;
    DigitRange(c);
    assert c in VALUE_START <==> StartsValue(c);
  }

  lemma ColonIsNeeded(name: string, c: char, t: string)
    requires QuoteFree(name) && !White(c) && c != ':'
    ensures Member(name + "\"" + [c] + t) == Parsed([], Broken(UnexpectedCharacter(c), t))
  {
    hide Value, QuotedText;
    assert name + "\"" + [c] + t == name + "\"" + ([c] + t);
    RoundTrip.QuotedTextReads(name, [c] + t);
    assert ([c] + t)[1..] == t;
  }

  /** A string without its closing quote. */
  lemma {:induction false} OpenStringEnds(t: string)
    requires QuoteFree(t)
    ensures QuotedText(t) == Cut(UnexpectedEnd, "")
  {
    if t != "" {
      OpenStringEnds(t[1..]);
    }
  }

  // ---------- Words and numbers ----------

  lemma WordsAreRead(name: string, t: string)
    ensures Value(name, 't', "rue" + t) == Parsed([SetBool(name, true)], Done(t))
    ensures Value(name, 'f', "alse" + t) == Parsed([SetBool(name, false)], Done(t))
    ensures Value(name, 'n', "ull" + t) == Parsed([SetNull(name)], Done(t))
  {
    hide Spell;
    RoundTrip.SpellReads("rue", t);
    RoundTrip.SpellReads("alse", t);
    RoundTrip.SpellReads("ull", t);
  }

  /** A wrong letter in a word is the fault. */
  lemma MisspeltIsRefused(name: string, first: char, front: string, d: char, back: string, c: char, t: string)
    requires [first] + front + [d] + back in {"true", "false", "null"} && c != d && !White(c)
    ensures Value(name, first, front + [c] + t) == Parsed([], Broken(UnexpectedCharacter(c), t))
  {
    hide Spell;
    var word := [first] + (front + [d] + back);
    assert word == [first] + front + [d] + back && word[1..] == front + [d] + back;
    assert word[1..] == if word[0] == 't' then "rue" else if word[0] == 'f' then "alse" else "ull";
    SpellRefuses(front, d, back, c, t);
  }

  lemma {:induction false} SpellRefuses(front: string, d: char, back: string, c: char, t: string)
    requires c != d && !White(c)
    ensures Spell(front + [c] + t, front + [d] + back) == Broken(UnexpectedCharacter(c), t)
  {
    var rem, word := front + [c] + t, front + [d] + back;
    if front == "" {
      assert rem[1..] == t && word[..1] == [d];
    } else {
      assert rem[1..] == front[1..] + [c] + t && word[1..] == front[1..] + [d] + back;
      assert word[..1] == [front[0]];
      SpellRefuses(front[1..], d, back, c, t);
    }
  }

  predicate InNumber(c: char) {
    '0' <= c <= '9' || c == '.' || c == 'e' || c == 'E' || c == '+' || c == '-'
  }

  predicate Closes(c: char) {
    c == '}' || c == ']'
  }

  predicate EndsNumber(c: char) {
    c == ',' || Closes(c)
  }

  lemma NumberCharacters(c: char)
    ensures c in NUMBER_CHARACTERS <==> InNumber(c) || EndsNumber(c)
    ensures c in NUMBER_ENDS <==> EndsNumber(c)
  {
    DigitRange(c);
  }

  /** One character of a literal: skipped, refused, taken, or left for what follows. */
  lemma NumberTakes(c: char, t: string, literal: string)
    ensures NumberText([c] + t, literal) ==
            if White(c) then NumberText(t, literal)
            else if EndsNumber(c) then Text(literal, [c] + t)
            else if InNumber(c) then NumberText(t, literal + [c])
            else Cut(UnexpectedCharacter(c), t)
  {
    hide NumberText;
    assert ([c] + t)[1..] == t;
    NumberCharacters(c);
    NumberTextAt([c] + t, literal);
    NumberTextAt(t, literal);
  }

  /** A literal with a '.' behind its first character is passed on as a floating point number, every other as an integer. */
  lemma LiteralCalls(name: string, c: char, digits: string, t: string)
    requires forall i | 0 <= i < |digits| :: InNumber(digits[i])
    requires t != "" && EndsNumber(t[0])
    ensures var literal := [c] + digits;
            Number(name, c, digits + t) ==
            if '.' in digits && StodConverts(literal) then Parsed([SetFloating(name, literal)], Done(t))
            else if '.' !in digits && Stoll(literal).Some? then
              Parsed([SetIntegral(name, Stoll(literal).value)], Done(t))
            else Parsed([], Broken(BadNumber(literal), t))
  {
    hide NumberText, Stoll, StodConverts;
    LiteralIsTaken(digits, t, [c]);
    assert ([c] + digits)[1..] == digits;
  }

  lemma {:induction false} LiteralIsTaken(digits: string, t: string, literal: string)
    requires forall i | 0 <= i < |digits| :: InNumber(digits[i])
    requires t != "" && EndsNumber(t[0])
    ensures NumberText(digits + t, literal) == Text(literal + digits, t)
    decreases |digits|
  {
    hide NumberText;
    if digits == "" {
      assert digits + t == [t[0]] + t[1..] == t;
      NumberTakes(t[0], t[1..], literal);
    } else {
      var c := digits[0];
      assert digits + t == [c] + (digits[1..] + t);
      NumberTakes(c, digits[1..] + t, literal);
      LiteralIsTaken(digits[1..], t, literal + [c]);
      assert literal + [c] + digits[1..] == literal + digits;
    }
  }
}
