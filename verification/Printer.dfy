/**
  * The printer: one method for each callback of the traversal, sharing the comma flag and the
  * indentation counter.
  */
module Printer {
  import opened Documents
  import opened PrinterSpec

  class Writer {
    const style: Style
    var out: string
    var firstElement: bool
    var indentCount: nat

    constructor (s: Style)
      ensures style == s && out == "" && firstElement && indentCount == 0
    {
      style := s;
      out, firstElement, indentCount := "", true, 0;
    }

    method Indentation()
      modifies `out
      ensures out == old(out) + Repeat(style.indent, indentCount)
    {
      var i: nat := indentCount;
      ghost var done: nat := 0;
      while i != 0
        invariant i + done == indentCount
        invariant out == old(out) + Repeat(style.indent, done)
        decreases i
      {
        assert Repeat(style.indent, done + 1) == Repeat(style.indent, done) + style.indent;
        out := out + style.indent;
        i, done := i - 1, done + 1;
      }
    }

    /** What every callback writes in front of its value. */
    method WriteLead(breaks: bool, name: string)
      modifies `out
      ensures out == old(out) + Lead(style, firstElement, breaks, indentCount, name)
    {
      hide Repeat, NamePart;
      var start := out;
      if !firstElement {
        out := out + ",";
      }
      if breaks && style.indent != "" {
        out := out + "\n";
      }
      Indentation();
      WriteName(name);
      Concat4(start, if firstElement then "" else ",", if breaks && style.indent != "" then "\n" else "",
              Repeat(style.indent, indentCount), NamePart(style, name));
    }

    method WriteName(name: string)
      modifies `out
      ensures out == old(out) + NamePart(style, name)
    {
      if name != "" {
        out := out + ("\"" + name + "\":");
        if style.indent != "" {
          out := out + " ";
        }
      }
    }

    method WriteScalar(name: string, text: string)
      modifies `out, `firstElement
      ensures out == old(out) + Lead(style, old(firstElement), true, indentCount, name) + text
      ensures !firstElement
    {
      WriteLead(true, name);
      out := out + text;
      firstElement := false;
    }

    method SetNull(name: string)
      modifies `out, `firstElement
      ensures out == old(out) + Render(style, name, JNull, old(firstElement), indentCount)
      ensures !firstElement
    {
      if !style.hideNull {
        WriteLead(true, name);
        out := out + "null";
      }
      firstElement := false;
    }

    method StartNode(kind: Kind, name: string)
      modifies this
      ensures out == old(out)
                     + Lead(style, old(firstElement), kind == Array || old(indentCount) != 0, old(indentCount), name)
                     + [Opener(kind)]
      ensures firstElement && indentCount == old(indentCount) + 1
    {
      WriteLead(kind == Array || indentCount != 0, name);
      firstElement := true;
      out := out + [Opener(kind)];
      indentCount := indentCount + 1;
    }

    method EndNode(kind: Kind)
      requires indentCount > 0
      modifies this
      ensures indentCount == old(indentCount) - 1
      ensures out == old(out) + Tail(style, indentCount, kind)
      ensures !firstElement
    {
      indentCount := indentCount - 1;
      if style.indent != "" {
        out := out + "\n";
      }
      Indentation();
      out := out + [Closer(kind)];
      firstElement := false;
    }
  }

  lemma Concat4(start: string, a: string, b: string, c: string, d: string)
    ensures start + a + b + c + d == start + (a + b + c + d)
  {
  }
}
