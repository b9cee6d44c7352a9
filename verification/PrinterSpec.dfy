/**
  * The text the printer writes for a document, as a function.
  */
module PrinterSpec {
  import opened Text
  import opened Documents

  /** The printer's two settings. */
  datatype Style = Style(indent: string, hideNull: bool)

  function Repeat(s: string, n: nat): string {
    if n == 0 then "" else Repeat(s, n - 1) + s
  }

  function NamePart(style: Style, name: string): string {
    if name == "" then "" else "\"" + name + "\":" + (if style.indent == "" then "" else " ")
  }

  /** Separator, line break, indentation and name in front of a value. */
  function Lead(style: Style, first: bool, breaks: bool, depth: nat, name: string): string {
    (if first then "" else ",")
    + (if breaks && style.indent != "" then "\n" else "")
    + Repeat(style.indent, depth)
    + NamePart(style, name)
  }

  /** The line with a closing brace or bracket. */
  function Tail(style: Style, depth: nat, kind: Kind): string {
    (if style.indent != "" then "\n" else "") + Repeat(style.indent, depth) + [Closer(kind)]
  }

  /** Only a struct at depth 0 starts without a line break. */
  predicate Breaks(j: Json, depth: nat) {
    !j.JNode? || j.kind == Array || depth != 0
  }

  predicate Hidden(hideNull: bool, j: Json) {
    hideNull && j.JNull?
  }

  /** A document with its name, as the next element of whatever is open. */
  function Render(style: Style, name: string, j: Json, first: bool, depth: nat): string
    decreases j, 1
  {
    if Hidden(style.hideNull, j) then ""
    else Lead(style, first, Breaks(j, depth), depth, name) + Body(style, j, depth)
  }

  /** A document without what leads to it. */
  function Body(style: Style, j: Json, depth: nat): string
    decreases j, 0
  {
    match j
    case JNull => "null"
    case JBool(b) => if b then "true" else "false"
    case JInt(n) => Decimal(n)
    case JString(s) => "\"" + s + "\""
    case JNode(kind, kids) =>
      [Opener(kind)] + RenderKids(style, kids, true, depth + 1) + Tail(style, depth, kind)
  }

  /** Whatever is printed, a hidden null included, the next element is not the first. */
  function RenderKids(style: Style, kids: Kids, first: bool, depth: nat): string
    decreases kids, 0
  {
    match kids
    case Nil => ""
    case Cons(name, value, rest) =>
      Render(style, name, value, first, depth) + RenderKids(style, rest, false, depth)
  }
}
