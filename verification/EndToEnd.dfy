/**
  * From an object to text and back.
  */
module EndToEnd {
  import opened Text
  import opened Documents
  import opened Schema
  import opened Cursor
  import opened Mapping
  import opened Feeding
  import opened Trees
  import opened ObjectRoundTrip
  import opened PrinterSpec
  import opened RoundTrip
  import ParserSpec

  // ---------- Nulls do not reach the mapping ----------

  lemma {:induction false} PrunedMapsAlike(ty: Type, o: Value, changed: set<nat>, hideNull: bool, kids: Kids)
    requires Wf(ty) && HasType(ty, o) && Routable(ty, kids)
    ensures Routable(ty, PruneKids(hideNull, kids))
    ensures MapKids(ty, o, changed, PruneKids(hideNull, kids)) == MapKids(ty, o, changed, kids)
    decreases kids
  {
    PrunedRoutable(ty, hideNull, kids);
    match kids
    case Nil =>
    case Cons(name, value, rest) =>
      match value
      case JNull => PrunedMapsAlike(ty, o, changed, hideNull, rest);
      case JNode(_, inner) =>
        hide LocalUse, LocalRelease, Child, PutChild;
        UseOpens(ty, o, changed, name);
        var used := LocalUse(ty, o, changed, name).value;
        var i := used.focus.index;
        ChildHasType(ty, used.obj, i);
        PrunedMapsAlike(ChildType(ty, i), Child(ty, used.obj, i), {}, hideNull, inner);
        var r := MapNode(ChildType(ty, i), Child(ty, used.obj, i), inner);
        if r.Ok? {
          PutChildHasType(ty, used.obj, i, r.value);
          PrunedMapsAlike(ty, PutChild(ty, used.obj, i, r.value), used.focus.changed, hideNull, rest);
        }
      case _ =>
        hide LocalSet, MapNode;
        LocalSetHasType(ty, o, changed, name, ScalarOfJson(value));
        var r := LocalSet(ty, o, changed, name, ScalarOfJson(value));
        if r.Ok? {
          PrunedMapsAlike(ty, r.value.obj, r.value.changed, hideNull, rest);
        }
  }

  lemma {:induction false} PrunedRoutable(ty: Type, hideNull: bool, kids: Kids)
    requires Routable(ty, kids)
    ensures Routable(ty, PruneKids(hideNull, kids))
    decreases kids
  {
    if kids.Cons? {
      PrunedRoutable(ty, hideNull, kids.rest);
      if kids.value.JNode? {
        PrunedRoutable(NestedType(ty, kids.name).value, hideNull, kids.value.kids);
      }
    }
  }

  // ---------- Any text ----------

  /** What becomes of a mapped value or an exception of the mapper. */
  function AsOutcome(r: Result<Value>): Outcome {
    match r
    case Ok(v) => Rebuilt(v)
    case Err(error) => MapperThrew(error)
  }

  lemma TreeMaps(ty: Type, target: Value, text: string, kids: Kids)
    requires Wf(ty) && HasType(ty, target) && Routable(ty, kids)
    requires var p := ParserSpec.Document(text); p.outcome.Done? && p.events == Trace("", JNode(Struct, kids))
    ensures MapText(ty, target, text) == AsOutcome(MapNode(ty, target, kids))
  {
    hide ParserSpec.Document, Feed, MapNode, Trace;
    FeedComputesMapping(ty, target, {}, kids);
  }

  /**
    * Every text that is read completely and holds no floating point number has a document tree, and
    * mapping the text is mapping the tree when its nested parts have a place in the schema.
    */
  lemma TextMaps(ty: Type, target: Value, text: string) returns (kids: Kids)
    requires Wf(ty) && HasType(ty, target)
    requires var p := ParserSpec.Document(text); p.outcome.Done? && FloatFree(p.events)
    ensures ParserSpec.Document(text).events == Trace("", JNode(Struct, kids))
    ensures Routable(ty, kids) ==> MapText(ty, target, text) == AsOutcome(MapNode(ty, target, kids))
  {
    hide ParserSpec.Document, MapText, MapNode, Trace;
    kids := DocumentIsTree(text);
    if Routable(ty, kids) {
      TreeMaps(ty, target, text, kids);
    }
  }

  // ---------- The round trip ----------

  /** Mapping printed text is mapping the document, unless a hidden null makes the reader stop at a stray comma. */
  lemma PrintedTextMaps(ty: Type, target: Value, style: Style, kids: Kids)
    requires Wf(ty) && HasType(ty, target) && Routable(ty, kids)
    requires AllWhite(style.indent) && PrintableKids(Struct, kids)
    ensures var r := MapText(ty, target, Render(style, "", JNode(Struct, kids), true, 0));
            if NoLeadingNull(style.hideNull, JNode(Struct, kids)) then r == AsOutcome(MapNode(ty, target, kids))
            else r.MapperThrew? || r == ReaderThrew(ParserSpec.UnexpectedCharacter(','))
  {
    hide ParserSpec.Document, MapText, MapNode, Render, Trace, NoLeadingNull, Routable;
    var j := JNode(Struct, kids);
    var text := Render(style, "", j, true, 0);
    PrintedReads(style, kids);
    if NoLeadingNull(style.hideNull, j) {
      PrunedNodeMapsAlike(ty, target, style.hideNull, kids);
      TreeMaps(ty, target, text, PruneKids(style.hideNull, kids));
    } else {
      BrokenText(ty, target, text);
    }
  }

  lemma PrunedNodeMapsAlike(ty: Type, o: Value, hideNull: bool, kids: Kids)
    requires Wf(ty) && HasType(ty, o) && Routable(ty, kids)
    ensures Routable(ty, PruneKids(hideNull, kids))
    ensures MapNode(ty, o, PruneKids(hideNull, kids)) == MapNode(ty, o, kids)
  {
    hide MapKids, PruneKids, Routable;
    PrunedMapsAlike(ty, o, {}, hideNull, kids);
  }

  /** Unless the mapper throws before, mapping ends with the reader's fault. */
  lemma BrokenText(ty: Type, target: Value, text: string)
    requires Wf(ty) && HasType(ty, target) && ParserSpec.Document(text).outcome.Broken?
    ensures var r := MapText(ty, target, text);
            r.MapperThrew? || r == ReaderThrew(ParserSpec.Document(text).outcome.fault)
  {
    hide ParserSpec.Document, Feed;
  }

  /** A sequence as root is printed too, but the reader wants a struct. */
  lemma SequenceIsNotRead(style: Style, kids: Kids)
    ensures var o := ParserSpec.Document(Render(style, "", JNode(Array, kids), true, 0)).outcome;
            o.Broken? && o.fault == ParserSpec.UnexpectedCharacter('[')
  {
    hide RenderKids, Tail, ParserSpec.Loop;
    var rest := RenderKids(style, kids, true, 1) + Tail(style, 0, Array);
    var text := Render(style, "", JNode(Array, kids), true, 0);
    assert Body(style, JNode(Array, kids), 0) == ['['] + rest;
    assert text == if style.indent == "" then ['['] + rest else ['\n'] + (['['] + rest);
    assert text[1..] == if style.indent == "" then rest else ['['] + rest;
  }

  /**
    * The round trip through text: an object printed with any indentation and mapped onto a
    * target gives the object back exactly when it is no sequence, no hidden null leads a struct or
    * array, and the object can be rebuilt on the target.
    */
  lemma ObjectSurvives(ty: Type, v: Value, target: Value, style: Style)
    requires !IsScalar(ty) && Wf(ty) && HasType(ty, v) && HasType(ty, target)
    requires AllWhite(style.indent) && Printable(Doc(ty, v))
    ensures MapText(ty, target, Render(style, "", Doc(ty, v), true, 0)) == Rebuilt(v)
       <==> !ty.TArray? && NoLeadingNull(style.hideNull, Doc(ty, v)) && Restores(ty, v, target)
  {
    hide MapText, MapKids, Render, Restores;
    if ty.TArray? {
      SequenceIsNotRead(style, Doc(ty, v).kids);
      BrokenText(ty, target, Render(style, "", Doc(ty, v), true, 0));
    } else {
      NodeComesBack(ty, v, target);
      PrintedTextMaps(ty, target, style, Doc(ty, v).kids);
    }
  }

  // ---------- Schemas without options ----------

  predicate NullFree(kids: Kids) {
    match kids
    case Nil => true
    case Cons(_, value, rest) => !value.JNull? && (value.JNode? ==> NullFree(value.kids)) && NullFree(rest)
  }

  lemma {:induction false} NullFreeNeverLeads(hideNull: bool, kids: Kids, first: bool)
    requires NullFree(kids)
    ensures NoLeadingNullIn(hideNull, kids, first)
    decreases kids
  {
    if kids.Cons? {
      NullFreeNeverLeads(hideNull, kids.rest, false);
      if kids.value.JNode? {
        NullFreeNeverLeads(hideNull, kids.value.kids, true);
      }
    }
  }

  lemma {:induction false} PlainIsNullFree(ty: Type, v: Value)
    requires Plain(ty) && HasType(ty, v)
    ensures !Doc(ty, v).JNull? && (Doc(ty, v).JNode? ==> NullFree(Doc(ty, v).kids))
    decreases v, 0, 0
  {
    match ty
    case TStruct(_, _) => MembersNullFree(ty, v, 0);
    case TArray(elem) => ItemsNullFree(elem, v.items);
    case TMap(elem) => EntriesNullFree(elem, v.entries);
    case _ =>
  }

  lemma {:induction false} MembersNullFree(ty: Type, v: Value, k: nat)
    requires ty.TStruct? && Plain(ty) && HasType(ty, v) && k <= |ty.fields|
    ensures NullFree(MemberDocs(ty, v, k))
    decreases v, -1, |ty.fields| - k
  {
    if k < |ty.fields| {
      MembersNullFree(ty, v, k + 1);
      assert FieldHolds(ty.fields[k], v.members[k]);
      PlainIsNullFree(ty.fields[k].ty, v.members[k]);
    }
  }

  lemma {:induction false} ItemsNullFree(elem: Type, items: seq<Value>)
    requires Plain(elem) && forall x | x in items :: HasType(elem, x)
    ensures NullFree(ItemDocs(elem, items))
    decreases items, 0, 0
  {
    if items != [] {
      PlainIsNullFree(elem, items[0]);
      ItemsNullFree(elem, items[1..]);
    }
  }

  lemma {:induction false} EntriesNullFree(elem: Type, entries: seq<Entry>)
    requires Plain(elem) && forall e | e in entries :: HasType(elem, e.value)
    ensures NullFree(EntryDocs(elem, entries))
    decreases entries, 0, 0
  {
    if entries != [] {
      PlainIsNullFree(elem, entries[0].value);
      EntriesNullFree(elem, entries[1..]);
    }
  }

  /** Without options, every object that is no sequence survives printing and mapping onto a fresh one. */
  lemma PlainObjectSurvives(ty: Type, v: Value, style: Style)
    requires (ty.TStruct? || ty.TMap?) && Wf(ty) && Plain(ty) && HasType(ty, v)
    requires AllWhite(style.indent) && Printable(Doc(ty, v))
    ensures HasType(ty, Fresh(ty))
    ensures MapText(ty, Fresh(ty), Render(style, "", Doc(ty, v), true, 0)) == Rebuilt(v)
  {
    hide MapText, Render, Restores;
    FreshRestores(ty, v);
    PlainIsNullFree(ty, v);
    NullFreeNeverLeads(style.hideNull, Doc(ty, v).kids, true);
    ObjectSurvives(ty, v, Fresh(ty), style);
  }

  // ---------- Hidden nulls ----------

  lemma {:induction false} PresentIsVisible(ty: Type, v: Value, k: nat, j: nat)
    requires ty.TStruct? && HasType(ty, v) && k <= j < |ty.fields| && !v.members[j].VAbsent?
    ensures !Invisible(true, MemberDocs(ty, v, k))
    decreases j - k
  {
    if k < j {
      PresentIsVisible(ty, v, k + 1, j);
    } else {
      var f, m := ty.fields[k], v.members[k];
      assert FieldHolds(f, m);
      assert MemberDocs(ty, v, k) == Cons(f.name, Doc(f.ty, m), MemberDocs(ty, v, k + 1));
      NoObjectIsNull(f.ty, m);
    }
  }

  lemma NoObjectIsNull(ty: Type, v: Value)
    requires HasType(ty, v)
    ensures !Doc(ty, v).JNull?
  {
  }

  /**
    * Any struct whose first member is absent and another one is not is never mapped back from text
    * printed with nulls hidden.
    */
  lemma HiddenFirstIsLost(ty: Type, v: Value, target: Value, indent: string, j: nat)
    requires ty.TStruct? && Wf(ty) && HasType(ty, v) && HasType(ty, target)
    requires j < |ty.fields| && v.members[0].VAbsent? && !v.members[j].VAbsent?
    requires AllWhite(indent) && Printable(Doc(ty, v))
    ensures !NoLeadingNull(true, Doc(ty, v))
    ensures !MapText(ty, target, Render(Style(indent, true), "", Doc(ty, v), true, 0)).Rebuilt?
  {
    hide MapText, Render;
    PresentIsVisible(ty, v, 1, j);
    assert FieldHolds(ty.fields[0], v.members[0]);
    assert FieldDoc(ty.fields[0], v.members[0]) == JNull;
    assert Doc(ty, v).kids == MemberDocs(ty, v, 0);
    assert MemberDocs(ty, v, 0) == Cons(ty.fields[0].name, JNull, MemberDocs(ty, v, 1));
    DocRoutable(ty, v);
    PrintedTextMaps(ty, target, Style(indent, true), Doc(ty, v).kids);
  }

  /** A struct with an optional member before another one. */
  function OptionalFirst(): Type {
    TStruct("s", [Field("a", TInt(0, 9), true, false, false, None, None, VAbsent),
                  Field("b", TInt(0, 9), false, false, false, None, None, VInt(0))])
  }

  /** There is such a struct. */
  lemma OptionalFirstIsLost(target: Value)
    requires HasType(OptionalFirst(), target)
    ensures var ty, v := OptionalFirst(), VStruct([VAbsent, VInt(1)]);
            && Wf(ty) && HasType(ty, v)
            && !MapText(ty, target, Render(Style("", true), "", Doc(ty, v), true, 0)).Rebuilt?
  {
    hide MapText, Render;
    var ty, v := OptionalFirst(), VStruct([VAbsent, VInt(1)]);
    var fields := ty.fields;
    assert WfField(fields[0]) && WfField(fields[1]);
    assert FieldHolds(fields[0], VAbsent) && FieldHolds(fields[1], VInt(1));
    assert MemberDocs(ty, v, 2) == Nil;
    assert MemberDocs(ty, v, 1) == Cons("b", JInt(1), Nil);
    assert Doc(ty, v).kids == Cons("a", JNull, Cons("b", JInt(1), Nil));
    HiddenFirstIsLost(ty, v, target, "", 1);
  }

  /** With nulls printed, nothing can spoil the text. */
  lemma ShownNullsNeverLead(kids: Kids, first: bool)
    ensures NoLeadingNullIn(false, kids, first)
    decreases kids
  {
    if kids.Cons? {
      ShownNullsNeverLead(kids.rest, false);
      if kids.value.JNode? {
        ShownNullsNeverLead(kids.value.kids, true);
      }
    }
  }
}
