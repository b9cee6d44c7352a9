/**
  * The reader itself: a stream position, one character of pushback and a line counter.
  */
module Parser {
  import opened Text
  import opened Documents
  import opened ParserSpec

  /** `Threw` stands for the exception, with the line number its message names. */
  datatype Status = Fine | Threw(fault: Fault, line: nat)

  /** Where the first `p` characters of the input end: inside quotes or not, and after how many newlines outside quotes. */
  datatype Place = Place(quoted: bool, newlines: nat)

  ghost function Scan(data: string, p: nat): Place
    requires p <= |data|
  {
    if p == 0 then Place(false, 0) else Advance(Scan(data, p - 1), data[p - 1])
  }

  ghost function Advance(p: Place, c: char): Place {
    if c == '\"' then p.(quoted := !p.quoted)
    else if c == '\n' && !p.quoted then p.(newlines := p.newlines + 1)
    else p
  }

  const NO_CHAR: char := '\0'

  class Reader {
    const data: string
    var pos: nat
    var waitChar: char
    var lineNumber: nat
    /** The calls made on the callbacks so far. */
    var events: seq<Event>

    constructor (text: string)
      ensures data == text && Valid(false) && waitChar == NO_CHAR && Rem() == text && events == []
    {
      data := text;
      pos, waitChar, lineNumber, events := 0, NO_CHAR, 1, [];
    }

    ghost function Position(): (p: nat)
      reads this
    {
      if waitChar == NO_CHAR || pos == 0 then pos else pos - 1
    }

    /**
      * At most one character is pending, it is the one just read and ends a literal, and the
      * line number counts the newlines consumed outside strings. `quoted` tells whether what
      * has been consumed ends inside a string.
      */
    ghost predicate Valid(quoted: bool)
      reads this
    {
      && Consistent()
      && Scan(data, Position()) == Place(quoted, lineNumber - 1)
    }

    ghost predicate Consistent()
      reads this
    {
      && pos <= |data| && lineNumber >= 1
      && (waitChar != NO_CHAR ==> pos > 0 && data[pos - 1] == waitChar && waitChar in NUMBER_ENDS)
    }

    /** What has not been consumed, a pending character included. */
    ghost function Rem(): string
      requires Consistent()
      reads this
    {
      data[Position()..]
    }

    /** The state after an exception: `line` counts the newlines consumed outside strings. */
    ghost predicate Stopped(st: Status, fault: Fault, rest: string)
      reads this
    {
      && Consistent() && st.Threw? && st.fault == fault && Rem() == rest
      && st.line == 1 + Scan(data, Position()).newlines
    }

    /** The state after a call that ended with `outcome`. */
    ghost predicate Ended(st: Status, outcome: Outcome)
      reads this
    {
      match outcome
      case Done(rest) => st == Fine && Valid(false) && Rem() == rest
      case Broken(fault, rest) => Stopped(st, fault, rest)
    }

    /** The pending character, else the next one of the stream. */
    method GetNextChar() returns (ok: bool, ch: char)
      requires Consistent()
      modifies `pos, `waitChar
      ensures Consistent() && waitChar == NO_CHAR
      ensures ok == (old(Rem()) != "")
      ensures ok ==> ch == old(Rem())[0] && Rem() == old(Rem())[1..] && Position() == old(Position()) + 1
      ensures ok ==> data[old(Position())] == ch
      ensures !ok ==> Rem() == "" && Position() == old(Position())
    {
      ok, ch := true, waitChar;
      if waitChar != NO_CHAR {
        waitChar := NO_CHAR;
      } else if pos < |data| {
        ch := data[pos];
        pos := pos + 1;
      } else {
        ok := false;
      }
    }

    method Wait(expected: string) returns (st: Status, ch: char)
      requires Valid(false)
      requires '\n' !in expected
      modifies `pos, `waitChar, `lineNumber
      ensures match WaitFor(old(Rem()), expected)
              case Got(c, rest) =>
                && st == Fine && ch == c && Valid(c == '\"') && Rem() == rest
                && waitChar == NO_CHAR && pos > 0 && data[pos - 1] == c
              case Lost(fault, rest) => Stopped(st, fault, rest)
    {
      hide WaitFor;
      ghost var want := WaitFor(Rem(), expected);
      while true
        invariant Valid(false) && want == WaitFor(Rem(), expected)
        decreases |data| - Position()
      {
        ghost var at := Position();
        var ok: bool;
        ok, ch := GetNextChar();
        if !ok {
          WaitForEnd(expected);
          return Threw(UnexpectedEnd, lineNumber), ch;
        }
        WaitForAt(data, at, expected);
        if ch in expected {
          return Fine, ch;
        }
        if ch == '\n' {
          lineNumber := lineNumber + 1;
        } else if !(ch == ' ' || ch == '\t' || ch == '\r') {
          return Threw(UnexpectedCharacter(ch), lineNumber), ch;
        }
      }
    }

    /** Reads the stream directly: a pending character would be skipped. */
    method GetString() returns (st: Status, text: string)
      requires Valid(true) && waitChar == NO_CHAR
      modifies `pos
      ensures match QuotedText(old(Rem()))
              case Text(t, rest) =>
                st == Fine && text == t && Valid(false) && Rem() == rest && waitChar == NO_CHAR
              case Cut(fault, rest) => Stopped(st, fault, rest)
    {
      hide QuotedText;
      ghost var want := QuotedText(Rem());
      QuotedTextEnd();
      text := "";
      while pos < |data|
        invariant Valid(true) && waitChar == NO_CHAR
        invariant want == Prepend(text, QuotedText(data[pos..]))
      {
        var nextCh := data[pos];
        QuotedTextAt(data, pos, text);
        pos := pos + 1;
        if nextCh != '\"' {
          text := text + [nextCh];
        } else {
          return Fine, text;
        }
      }
      st := Threw(UnexpectedEnd, lineNumber);
    }

    /** Puts the character just read back: only ever one of the three that end a literal. */
    method PushBack(ch: char)
      requires Valid(false) && waitChar == NO_CHAR && pos > 0 && data[pos - 1] == ch && ch in NUMBER_ENDS
      modifies `waitChar
      ensures Valid(false) && waitChar == ch && Rem() == [ch] + old(Rem())
    {
      waitChar := ch;
    }

    method CallWithNumber(name: string, value: string, isFloatingPoint: bool) returns (st: Status)
      requires Valid(false) && value != "" && isFloatingPoint == ('.' in value[1..])
      modifies `events
      ensures var p := Literal(name, value, Rem());
              Ended(st, p.outcome) && events == old(events) + p.events
    {
      st := Fine;
      if isFloatingPoint {
        if StodConverts(value) {
          events := events + [SetFloating(name, value)];
        } else {
          st := Threw(BadNumber(value), lineNumber);
        }
      } else {
        match Stoll(value)
        case Some(n) => events := events + [SetIntegral(name, n)];
        case None => st := Threw(BadNumber(value), lineNumber);
      }
    }

    method SetNumber(name: string, startCh: char) returns (st: Status)
      requires Valid(false) && waitChar == NO_CHAR
      modifies this
      ensures var p := Number(name, startCh, old(Rem()));
              Ended(st, p.outcome) && events == old(events) + p.events
    {
      hide WaitFor, NumberText, Literal, Scan;
      ghost var want := NumberText(Rem(), [startCh]);
      var value, isFloatingPoint := [startCh], false;
      while true
        invariant Valid(false) && waitChar == NO_CHAR && events == old(events)
        invariant |value| > 0 && want == NumberText(Rem(), value)
        invariant isFloatingPoint == ('.' in value[1..])
        decreases |Rem()|
      {
        var ch: char;
        NumberTextAt(Rem(), value);
        st, ch := Wait(NUMBER_CHARACTERS);
        if st.Threw? {
          return;
        }
        if ch == '.' {
          isFloatingPoint := true;
        }
        if ch in NUMBER_ENDS {
          PushBack(ch);
          st := CallWithNumber(name, value, isFloatingPoint);
          return;
        }
        assert (value + [ch])[1..] == value[1..] + [ch];
        value := value + [ch];
      }
    }

    /** Three or four waits, one for each remaining letter of `true`, `false` or `null`. */
    method WaitWord(word: string) returns (st: Status)
      requires Valid(false) && '\n' !in word && '\"' !in word
      modifies `pos, `waitChar, `lineNumber
      ensures Ended(st, Spell(old(Rem()), word))
      decreases |word|
    {
      st := Fine;
      if word != "" {
        assert word[..1] == [word[0]];
        var ch: char;
        st, ch := Wait(word[..1]);
        if st == Fine {
          st := WaitWord(word[1..]);
        }
      }
    }

    method ParseWord(word: string, e: Event) returns (st: Status)
      requires Valid(false) && '\n' !in word && '\"' !in word
      modifies this
      ensures var p := Word(old(Rem()), word, e);
              Ended(st, p.outcome) && events == old(events) + p.events
    {
      hide Spell, Scan;
      st := WaitWord(word);
      if st == Fine {
        events := events + [e];
      }
    }

    /** The value whose first character has been read: a member's when named, an element's otherwise. */
    method ParseValue(name: string, startCh: char) returns (st: Status)
      requires Valid(startCh == '\"') && waitChar == NO_CHAR
      modifies this
      ensures var p := Value(name, startCh, old(Rem()));
              Ended(st, p.outcome) && events == old(events) + p.events
      decreases |Rem()|, 1
    {
      hide WaitFor, Loop, Word, QuotedText, Number, Scan;
      if startCh == '{' {
        events := events + [Start(Struct, name)];
        st := ParseStruct();
      } else if startCh == '[' {
        events := events + [Start(Array, name)];
        st := ParseArray();
      } else if startCh == 't' {
        st := ParseWord("rue", SetBool(name, true));
      } else if startCh == 'f' {
        st := ParseWord("alse", SetBool(name, false));
      } else if startCh == 'n' {
        st := ParseWord("ull", SetNull(name));
      } else if startCh == '\"' {
        var text: string;
        st, text := GetString();
        if st == Fine {
          events := events + [SetString(name, text)];
        }
      } else {
        st := SetNumber(name, startCh);
      }
    }

    /** A member whose opening quote has been read. */
    method ParseStructValue() returns (st: Status)
      requires Valid(true) && waitChar == NO_CHAR
      modifies this
      ensures var p := Member(old(Rem()));
              Ended(st, p.outcome) && events == old(events) + p.events
      decreases |Rem()|, 0
    {
      hide WaitFor, Value, QuotedText, Scan;
      var name: string;
      st, name := GetString();
      if st == Fine {
        var ch: char;
        st, ch := Wait(":");
        if st == Fine {
          st, ch := Wait(VALUE_START);
          if st == Fine {
            st := ParseValue(name, ch);
          }
        }
      }
    }

    method ParseStruct() returns (st: Status)
      requires Valid(false) && waitChar == NO_CHAR
      modifies this
      ensures var p := Loop(Struct, old(Rem()), AfterStart);
              Ended(st, p.outcome) && events == old(events) + p.events
      decreases |Rem()|, 0
    {
      hide WaitFor, Loop, Element, Expected, Scan;
      ghost var want := Loop(Struct, Rem(), AfterStart);
      var phase := AfterStart;
      while true
        invariant Valid(false)
        invariant After(old(events), want) == After(events, Loop(Struct, Rem(), phase))
        invariant |Rem()| <= |old(Rem())|
        decreases |Rem()|
      {
        var ch: char;
        LoopAt(Struct, Rem(), phase);
        st, ch := Wait(Expected(Struct, phase));
        if st.Threw? {
          return;
        }
        if ch == '}' {
          events := events + [End(Struct)];
          return;
        }
        if ch == ',' {
          phase := AfterComma;
        } else {
          ghost var before, element := events, Element(Struct, ch, Rem());
          ElementAt(Struct, ch, Rem());
          st := ParseStructValue();
          if st.Threw? {
            return;
          }
          AfterAfter(before, element.events, Loop(Struct, Rem(), AfterValue));
          phase := AfterValue;
        }
      }
    }

    method ParseArray() returns (st: Status)
      requires Valid(false) && waitChar == NO_CHAR
      modifies this
      ensures var p := Loop(Array, old(Rem()), AfterStart);
              Ended(st, p.outcome) && events == old(events) + p.events
      decreases |Rem()|, 0
    {
      hide WaitFor, Loop, Element, Expected, Scan;
      ghost var want := Loop(Array, Rem(), AfterStart);
      var phase := AfterStart;
      while true
        invariant Valid(false)
        invariant After(old(events), want) == After(events, Loop(Array, Rem(), phase))
        invariant |Rem()| <= |old(Rem())|
        decreases |Rem()|
      {
        var ch: char;
        LoopAt(Array, Rem(), phase);
        st, ch := Wait(Expected(Array, phase));
        if st.Threw? {
          return;
        }
        if ch == ']' {
          events := events + [End(Array)];
          return;
        }
        if ch == ',' {
          phase := AfterComma;
        } else {
          ghost var before, element := events, Element(Array, ch, Rem());
          ElementAt(Array, ch, Rem());
          st := ParseValue("", ch);
          if st.Threw? {
            return;
          }
          AfterAfter(before, element.events, Loop(Array, Rem(), AfterValue));
          phase := AfterValue;
        }
      }
    }

    /** Reads the outermost struct. */
    method Parse() returns (st: Status)
      requires Valid(false) && waitChar == NO_CHAR
      modifies this
      ensures var p := Document(old(Rem()));
              Ended(st, p.outcome) && events == old(events) + p.events
    {
      hide WaitFor, Loop, Scan;
      var ch: char;
      st, ch := Wait("{");
      if st == Fine {
        events := events + [Start(Struct, "")];
        st := ParseStruct();
      }
    }
  }

  lemma AfterAfter(a: seq<Event>, b: seq<Event>, p: Parsed)
    ensures After(a, After(b, p)) == After(a + b, p)
  {
  }

  function Prepend(text: string, t: Collected): Collected {
    match t
    case Text(more, rest) => Text(text + more, rest)
    case Cut(_, _) => t
  }

  lemma WaitForEnd(expected: string)
    ensures WaitFor("", expected) == Lost(UnexpectedEnd, "")
  {
  }

  lemma WaitForAt(data: string, p: nat, expected: string)
    requires p < |data|
    ensures WaitFor(data[p..], expected)
         == if data[p] in expected then Got(data[p], data[p + 1..])
            else if IsBlank(data[p]) then WaitFor(data[p + 1..], expected)
            else Lost(UnexpectedCharacter(data[p]), data[p + 1..])
  {
    assert data[p..][1..] == data[p + 1..];
  }

  lemma QuotedTextEnd()
    ensures QuotedText("") == Cut(UnexpectedEnd, "")
  {
  }

  lemma QuotedTextAt(data: string, p: nat, text: string)
    requires p < |data|
    ensures Prepend(text, QuotedText(data[p..]))
         == if data[p] == '\"' then Text(text, data[p + 1..])
            else Prepend(text + [data[p]], QuotedText(data[p + 1..]))
  {
    assert data[p..][1..] == data[p + 1..];
    var t := QuotedText(data[p + 1..]);
    if data[p] != '\"' && t.Text? {
      assert text + ([data[p]] + t.text) == text + [data[p]] + t.text;
    }
  }
}
