/**
  * `map_struct_to_json`: walking through an object drives the printer.
  */
module Traversal {
  import opened Text
  import opened Documents
  import opened Schema
  import opened ObjectRoundTrip
  import opened PrinterSpec
  import opened Printer

  /** Prints one object or scalar with its name. */
  method IterateOver(w: Writer, ty: Type, v: Value, name: string)
    requires HasType(ty, v)
    modifies w
    ensures w.out == old(w.out) + Render(w.style, name, Doc(ty, v), old(w.firstElement), old(w.indentCount))
    ensures !w.firstElement && w.indentCount == old(w.indentCount)
    decreases v, 1
  {
    hide Render, Lead, Tail, Decimal;
    ghost var before, first, depth := w.out, w.firstElement, w.indentCount;
    if IsScalar(ty) {
      ScalarText(before, w.style, name, ty, v, first, depth);
    } else {
      NodeText(before, w.style, name, Doc(ty, v).kind, Doc(ty, v).kids, first, depth);
    }
    match ty
    case TBool => w.WriteScalar(name, if v.b then "true" else "false");
    case TInt(_, _) => w.WriteScalar(name, Decimal(v.n));
    case TString => w.WriteScalar(name, "\"" + v.s + "\"");
    case TArray(elem) =>
      w.StartNode(Array, name);
      IterateItems(w, elem, v);
      w.EndNode(Array);
    case TStruct(_, _) =>
      w.StartNode(Struct, name);
      IterateMembers(w, ty, v);
      w.EndNode(Struct);
    case TMap(elem) =>
      w.StartNode(Struct, name);
      IterateEntries(w, elem, v);
      w.EndNode(Struct);
  }

  function Printed(v: Value): string {
    match v
    case VBool(b) => if b then "true" else "false"
    case VInt(n) => Decimal(n)
    case VString(s) => "\"" + s + "\""
    case _ => ""
  }

  /** A scalar is its lead and its text. */
  lemma ScalarText(before: string, style: Style, name: string, ty: Type, v: Value, first: bool, depth: nat)
    requires IsScalar(ty) && HasType(ty, v)
    ensures before + Render(style, name, Doc(ty, v), first, depth)
         == before + Lead(style, first, true, depth, name) + Printed(v)
  {
    hide Lead, Decimal;
    assert Render(style, name, Doc(ty, v), first, depth) == Lead(style, first, true, depth, name) + Printed(v);
  }

  /** A struct or array is its lead, its children between brackets, and its tail. */
  lemma NodeText(before: string, style: Style, name: string, kind: Kind, kids: Kids, first: bool, depth: nat)
    ensures before + Render(style, name, JNode(kind, kids), first, depth)
         == before + Lead(style, first, kind == Array || depth != 0, depth, name) + [Opener(kind)]
            + RenderKids(style, kids, true, depth + 1) + Tail(style, depth, kind)
  {
    hide Lead, RenderKids, Tail;
    Concat4(before, Lead(style, first, kind == Array || depth != 0, depth, name), [Opener(kind)],
            RenderKids(style, kids, true, depth + 1), Tail(style, depth, kind));
    Concat4("", Lead(style, first, kind == Array || depth != 0, depth, name), [Opener(kind)],
            RenderKids(style, kids, true, depth + 1), Tail(style, depth, kind));
  }

  method IterateMembers(w: Writer, ty: Type, v: Value)
    requires ty.TStruct? && HasType(ty, v) && w.firstElement
    modifies w
    ensures w.out == old(w.out) + RenderKids(w.style, MemberDocs(ty, v, 0), true, old(w.indentCount))
    ensures w.indentCount == old(w.indentCount)
    decreases v, 0
  {
    hide Render, RenderKids;
    ghost var depth := w.indentCount;
    for k := 0 to |ty.fields|
      invariant w.indentCount == depth && w.firstElement == (k == 0)
      invariant old(w.out) + RenderKids(w.style, MemberDocs(ty, v, 0), true, depth)
             == w.out + RenderKids(w.style, MemberDocs(ty, v, k), k == 0, depth)
    {
      var f, m := ty.fields[k], v.members[k];
      assert FieldHolds(f, m);
      ghost var before := w.out;
      if m.VAbsent? {
        w.SetNull(f.name);
      } else {
        IterateOver(w, f.ty, m, f.name);
      }
      RenderFirst(w.style, MemberDocs(ty, v, k), k == 0, depth, before);
    }
    RenderNone(w.style, |ty.fields| == 0, depth);
  }

  method IterateItems(w: Writer, elem: Type, v: Value)
    requires v.VArray? && (forall x | x in v.items :: HasType(elem, x)) && w.firstElement
    modifies w
    ensures w.out == old(w.out) + RenderKids(w.style, ItemDocs(elem, v.items), true, old(w.indentCount))
    ensures w.indentCount == old(w.indentCount)
    decreases v, 0
  {
    hide Render, RenderKids;
    ghost var depth := w.indentCount;
    assert v.items[0..] == v.items;
    for k := 0 to |v.items|
      invariant w.indentCount == depth && w.firstElement == (k == 0)
      invariant old(w.out) + RenderKids(w.style, ItemDocs(elem, v.items), true, depth)
             == w.out + RenderKids(w.style, ItemDocs(elem, v.items[k..]), k == 0, depth)
    {
      ghost var before := w.out;
      IterateOver(w, elem, v.items[k], "");
      assert v.items[k..][1..] == v.items[k + 1..];
      RenderFirst(w.style, ItemDocs(elem, v.items[k..]), k == 0, depth, before);
    }
    RenderNone(w.style, |v.items| == 0, depth);
  }

  method IterateEntries(w: Writer, elem: Type, v: Value)
    requires v.VMap? && (forall e | e in v.entries :: HasType(elem, e.value)) && w.firstElement
    modifies w
    ensures w.out == old(w.out) + RenderKids(w.style, EntryDocs(elem, v.entries), true, old(w.indentCount))
    ensures w.indentCount == old(w.indentCount)
    decreases v, 0
  {
    hide Render, RenderKids;
    ghost var depth := w.indentCount;
    assert v.entries[0..] == v.entries;
    for k := 0 to |v.entries|
      invariant w.indentCount == depth && w.firstElement == (k == 0)
      invariant old(w.out) + RenderKids(w.style, EntryDocs(elem, v.entries), true, depth)
             == w.out + RenderKids(w.style, EntryDocs(elem, v.entries[k..]), k == 0, depth)
    {
      ghost var before := w.out;
      IterateOver(w, elem, v.entries[k].value, v.entries[k].key);
      assert v.entries[k..][1..] == v.entries[k + 1..];
      RenderFirst(w.style, EntryDocs(elem, v.entries[k..]), k == 0, depth, before);
    }
    RenderNone(w.style, |v.entries| == 0, depth);
  }

  /** The first child is printed before the others. */
  lemma RenderFirst(style: Style, kids: Kids, first: bool, depth: nat, before: string)
    requires kids.Cons?
    ensures before + RenderKids(style, kids, first, depth)
         == before + Render(style, kids.name, kids.value, first, depth) + RenderKids(style, kids.rest, false, depth)
  {
  }

  lemma RenderNone(style: Style, first: bool, depth: nat)
    ensures RenderKids(style, Nil, first, depth) == ""
  {
  }

  method MapStructToJson(ty: Type, v: Value, style: Style) returns (text: string)
    requires !IsScalar(ty) && HasType(ty, v)
    ensures text == Render(style, "", Doc(ty, v), true, 0)
  {
    var w := new Writer(style);
    IterateOver(w, ty, v, "");
    text := w.out;
  }
}
