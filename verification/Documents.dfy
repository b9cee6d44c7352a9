/**
  * JSON documents as trees, the events the reader reports for them, and what it means for a
  * sequence of events to be well nested.
  */
module Documents {
  import opened Text

  datatype Kind = Struct | Array

  /** A document. The children of an array carry the empty name, as its events do. */
  datatype Json =
    | JNull
    | JBool(b: bool)
    | JInt(n: int)
    | JString(s: string)
    | JNode(kind: Kind, kids: Kids)

  datatype Kids = Nil | Cons(name: string, value: Json, rest: Kids)

  /** One call on a callback of the reader. */
  datatype Event =
    | SetNull(name: string)
    | SetBool(name: string, b: bool)
    | SetIntegral(name: string, n: int)
    | SetFloating(name: string, literal: string)
    | SetString(name: string, s: string)
    | Start(kind: Kind, name: string)
    | End(kind: Kind)

  /** The characters around the children. */
  function Opener(kind: Kind): char {
    if kind == Struct then '{' else '['
  }

  function Closer(kind: Kind): char {
    if kind == Struct then '}' else ']'
  }

  /** Pre-order traversal of a named document. */
  function Trace(name: string, j: Json): seq<Event>
    decreases j
  {
    match j
    case JNull => [SetNull(name)]
    case JBool(b) => [SetBool(name, b)]
    case JInt(n) => [SetIntegral(name, n)]
    case JString(s) => [SetString(name, s)]
    case JNode(kind, kids) => [Start(kind, name)] + TraceKids(kids) + [End(kind)]
  }

  function TraceKids(kids: Kids): seq<Event>
    decreases kids
  {
    match kids
    case Nil => []
    case Cons(name, value, rest) => Trace(name, value) + TraceKids(rest)
  }

  /**
    * The stack of open structs and arrays after `es`, innermost first, starting from `open`;
    * `None` when some `End` has no matching `Start`.
    */
  function Nest(open: seq<Kind>, es: seq<Event>): Option<seq<Kind>>
    decreases |es|
  {
    if es == [] then Some(open)
    else match es[0]
      case Start(kind, _) => Nest([kind] + open, es[1..])
      case End(kind) => if open != [] && open[0] == kind then Nest(open[1..], es[1..]) else None
      case _ => Nest(open, es[1..])
  }

  ghost predicate WellNested(es: seq<Event>) {
    Nest([], es) == Some([])
  }

  /** The calls that would close everything in `open`. */
  function Closers(open: seq<Kind>): seq<Event> {
    if open == [] then [] else [End(open[0])] + Closers(open[1..])
  }

  lemma {:induction false} NestConcat(open: seq<Kind>, a: seq<Event>, b: seq<Event>)
    ensures Nest(open, a + b) == match Nest(open, a) case None => None case Some(inner) => Nest(inner, b)
    decreases |a|
  {
    if a == [] {
      assert a + b == b;
    } else {
      assert (a + b)[1..] == a[1..] + b;
      match a[0]
      case Start(kind, _) => NestConcat([kind] + open, a[1..], b);
      case End(kind) => if open != [] { NestConcat(open[1..], a[1..], b); }
      case _ => NestConcat(open, a[1..], b);
    }
  }

  lemma {:induction false} ClosersClose(open: seq<Kind>)
    ensures Nest(open, Closers(open)) == Some([])
  {
    if open != [] {
      assert Closers(open)[1..] == Closers(open[1..]);
      ClosersClose(open[1..]);
    }
  }

  /** A trace that never closes too much is the beginning of a well-nested one. */
  lemma OpenTraceCompletes(es: seq<Event>)
    requires Nest([], es).Some?
    ensures WellNested(es + Closers(Nest([], es).value))
  {
    var open := Nest([], es).value;
    NestConcat([], es, Closers(open));
    ClosersClose(open);
  }

  /** The children of an array are nameless, those of a struct have non-empty quote-free names. */
  ghost predicate Printable(j: Json)
    decreases j
  {
    match j
    case JNull => true
    case JBool(_) => true
    case JInt(n) => IsLongLong(n)
    case JString(s) => QuoteFree(s)
    case JNode(kind, kids) => PrintableKids(kind, kids)
  }

  ghost predicate PrintableKids(kind: Kind, kids: Kids)
    decreases kids
  {
    match kids
    case Nil => true
    case Cons(name, value, rest) =>
      && (if kind == Array then name == "" else name != "" && QuoteFree(name))
      && Printable(value)
      && PrintableKids(kind, rest)
  }
}
