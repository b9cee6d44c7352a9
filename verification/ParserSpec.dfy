/**
  * What the reader does with the characters it has not consumed yet, as functions on that
  * text. A character that the reader has pushed back counts as not consumed.
  */
module ParserSpec {
  import opened Text
  import opened Documents

  const VALUE_START := "\"{[tf-0123456789n"
  const NUMBER_CHARACTERS := "}],.0123456789eE+-"
  const NUMBER_ENDS := ",}]"

  /** What a loop over members or elements has just seen. */
  datatype Phase = AfterStart | AfterValue | AfterComma

  /** The characters that may come next. */
  function Expected(kind: Kind, phase: Phase): string {
    match (kind, phase)
    case (Struct, AfterStart) => "\"}"
    case (Struct, AfterValue) => ",}"
    case (Struct, AfterComma) => "\""
    case (Array, AfterStart) => "]{[\"tf-.0123456789n"
    case (Array, AfterValue) => "]{[\"tf,-.0123456789n"
    case (Array, AfterComma) => "{[\"tf-.0123456789n"
  }

  /** Why reading stopped. */
  datatype Fault = UnexpectedEnd | UnexpectedCharacter(c: char) | BadNumber(literal: string)

  /** Looking for one of some expected characters; `rest` is what remains afterwards. */
  datatype Waited = Got(c: char, rest: string) | Lost(fault: Fault, rest: string)

  /** Collecting text; `rest` is what remains afterwards. */
  datatype Collected = Text(text: string, rest: string) | Cut(fault: Fault, rest: string)

  datatype Outcome = Done(rest: string) | Broken(fault: Fault, rest: string)

  /** The callbacks called, in order, and how it ended. */
  datatype Parsed = Parsed(events: seq<Event>, outcome: Outcome)

  function After(es: seq<Event>, p: Parsed): Parsed {
    Parsed(es + p.events, p.outcome)
  }

  function WaitFor(rem: string, expected: string): (w: Waited)
    ensures |w.rest| <= |rem|
    ensures w.Got? ==> |w.rest| < |rem| && w.c in expected
  {
    if rem == "" then Lost(UnexpectedEnd, "")
    else if rem[0] in expected then Got(rem[0], rem[1..])
    else if IsBlank(rem[0]) then WaitFor(rem[1..], expected)
    else Lost(UnexpectedCharacter(rem[0]), rem[1..])
  }

  /** Waits for the letters of `word` one after the other. */
  function Spell(rem: string, word: string): (o: Outcome)
    ensures |o.rest| <= |rem|
    decreases |word|
  {
    if word == "" then Done(rem)
    else match WaitFor(rem, word[..1])
      case Lost(fault, rest) => Broken(fault, rest)
      case Got(_, rest) => Spell(rest, word[1..])
  }

  /** Text up to the closing quote, taken as it is. */
  function QuotedText(rem: string): (t: Collected)
    ensures |t.rest| <= |rem|
    ensures t.Text? ==> |t.rest| < |rem|
  {
    if rem == "" then Cut(UnexpectedEnd, "")
    else if rem[0] == '\"' then Text("", rem[1..])
    else match QuotedText(rem[1..])
      case Text(text, rest) => Text([rem[0]] + text, rest)
      case Cut(fault, rest) => Cut(fault, rest)
  }

  /** The literal that starts with `literal`, up to the character that ends it, which stays. */
  function NumberText(rem: string, literal: string): (t: Collected)
    ensures |t.rest| <= |rem|
    ensures t.Text? ==> |literal| <= |t.text|
    decreases |rem|
  {
    match WaitFor(rem, NUMBER_CHARACTERS)
    case Lost(fault, rest) => Cut(fault, rest)
    case Got(c, rest) =>
      if c in NUMBER_ENDS then Text(literal, [c] + rest) else NumberText(rest, literal + [c])
  }

  function Number(name: string, c: char, rem: string): (p: Parsed)
    ensures |p.outcome.rest| <= |rem|
  {
    match NumberText(rem, [c])
    case Cut(fault, rest) => Parsed([], Broken(fault, rest))
    case Text(literal, rest) => Literal(name, literal, rest)
  }

  /** Only a '.' after the first character makes a literal a floating point number. */
  function Literal(name: string, literal: string, rest: string): (p: Parsed)
    requires literal != ""
    ensures p.outcome.rest == rest
  {
    if '.' in literal[1..] then
      if StodConverts(literal) then Parsed([SetFloating(name, literal)], Done(rest))
      else Parsed([], Broken(BadNumber(literal), rest))
    else match Stoll(literal)
      case Some(n) => Parsed([SetIntegral(name, n)], Done(rest))
      case None => Parsed([], Broken(BadNumber(literal), rest))
  }

  function Word(rem: string, word: string, e: Event): (p: Parsed)
    ensures |p.outcome.rest| <= |rem|
  {
    var o := Spell(rem, word);
    Parsed(if o.Done? then [e] else [], o)
  }

  /** A value whose first character `c` has been consumed. */
  function Value(name: string, c: char, rem: string): (p: Parsed)
    ensures |p.outcome.rest| <= |rem|
    decreases |rem|, 1
  {
    match c
    case '{' => After([Start(Struct, name)], Loop(Struct, rem, AfterStart))
    case '[' => After([Start(Array, name)], Loop(Array, rem, AfterStart))
    case 't' => Word(rem, "rue", SetBool(name, true))
    case 'f' => Word(rem, "alse", SetBool(name, false))
    case 'n' => Word(rem, "ull", SetNull(name))
    case '\"' =>
      (match QuotedText(rem)
       case Text(text, rest) => Parsed([SetString(name, text)], Done(rest))
       case Cut(fault, rest) => Parsed([], Broken(fault, rest)))
    case _ => Number(name, c, rem)
  }

  /** A member of a struct whose opening quote has been consumed. */
  function Member(rem: string): (p: Parsed)
    ensures |p.outcome.rest| <= |rem|
    decreases |rem|, 0
  {
    match QuotedText(rem)
    case Cut(fault, rest) => Parsed([], Broken(fault, rest))
    case Text(name, afterName) =>
      match WaitFor(afterName, ":")
      case Lost(fault, rest) => Parsed([], Broken(fault, rest))
      case Got(_, afterColon) =>
        match WaitFor(afterColon, VALUE_START)
        case Lost(fault, rest) => Parsed([], Broken(fault, rest))
        case Got(c, rest) => Value(name, c, rest)
  }

  /** What a loop does with a character that neither closes nor separates. */
  function Element(kind: Kind, c: char, rem: string): (p: Parsed)
    ensures |p.outcome.rest| <= |rem|
    decreases |rem|, 2
  {
    if kind == Struct then Member(rem) else Value("", c, rem)
  }

  /** Members up to the closing brace, or elements up to the closing bracket. */
  function Loop(kind: Kind, rem: string, phase: Phase): (p: Parsed)
    ensures |p.outcome.rest| <= |rem|
    ensures p.outcome.Done? ==> |p.outcome.rest| < |rem|
    decreases |rem|, 0
  {
    match WaitFor(rem, Expected(kind, phase))
    case Lost(fault, rest) => Parsed([], Broken(fault, rest))
    case Got(c, rest) =>
      if c == Closer(kind) then Parsed([End(kind)], Done(rest))
      else if c == ',' then Loop(kind, rest, AfterComma)
      else
        var element := Element(kind, c, rest);
        if element.outcome.Broken? then element
        else After(element.events, Loop(kind, element.outcome.rest, AfterValue))
  }

  /** A whole document: the outermost value has to be a struct. */
  function Document(text: string): Parsed {
    match WaitFor(text, "{")
    case Lost(fault, rest) => Parsed([], Broken(fault, rest))
    case Got(_, rest) => After([Start(Struct, "")], Loop(Struct, rest, AfterStart))
  }

  // ---------- One turn of each loop ----------

  ghost function LiteralTurn(w: Waited, literal: string): Collected {
    match w
    case Lost(fault, rest) => Cut(fault, rest)
    case Got(c, rest) => if c in NUMBER_ENDS then Text(literal, [c] + rest) else NumberText(rest, literal + [c])
  }

  /** One turn of the loop over the characters of a literal. */
  lemma NumberTextAt(rem: string, literal: string)
    ensures '\n' !in NUMBER_CHARACTERS && '\"' !in NUMBER_CHARACTERS
    ensures NumberText(rem, literal) == LiteralTurn(WaitFor(rem, NUMBER_CHARACTERS), literal)
  {
  }

  ghost function LoopTurn(kind: Kind, w: Waited): Parsed {
    match w
    case Lost(fault, rest) => Parsed([], Broken(fault, rest))
    case Got(c, rest) =>
      if c == Closer(kind) then Parsed([End(kind)], Done(rest))
      else if c == ',' then Loop(kind, rest, AfterComma)
      else ElementTurn(kind, Element(kind, c, rest))
  }

  ghost function ElementTurn(kind: Kind, element: Parsed): (p: Parsed)
    ensures |p.outcome.rest| <= |element.outcome.rest|
  {
    if element.outcome.Broken? then element
    else After(element.events, Loop(kind, element.outcome.rest, AfterValue))
  }

  /** One turn of a loop over members or elements. */
  lemma LoopAt(kind: Kind, rem: string, phase: Phase)
    ensures '\n' !in Expected(kind, phase)
    ensures Loop(kind, rem, phase) == LoopTurn(kind, WaitFor(rem, Expected(kind, phase)))
    ensures forall c | c in Expected(kind, phase) && kind == Struct && c != '}' && c != ',' :: c == '\"'
  {
  }

  lemma ElementAt(kind: Kind, c: char, rem: string)
    ensures Element(kind, c, rem) == if kind == Struct then Member(rem) else Value("", c, rem)
  {
  }
}
