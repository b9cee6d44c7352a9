/**
  * The layout of printed text, told from its characters alone: where lines break and how far they
  * are indented is decided by the brackets, commas and colons outside quotes.
  */
module Pretty {
  import opened Text
  import opened Documents
  import opened PrinterSpec
  import opened RoundTrip
  import opened Tokens
  import Layout

  // ---------- Spreading compact text over lines ----------

  /** What a writer knows at a place in the text: inside quotes or not, how many brackets are open, the last character. */
  datatype Place = Place(quoted: bool, depth: int, last: char)

  predicate Opens(c: char) {
    c == '{' || c == '['
  }

  function After(p: Place, c: char): Place {
    if c == '\"' then Place(!p.quoted, p.depth, c)
    else if p.quoted then Place(true, p.depth, c)
    else if Opens(c) then Place(false, p.depth + 1, c)
    else if Closes(c) then Place(false, p.depth - 1, c)
    else Place(false, p.depth, c)
  }

  /** A line break and `depth` times the indent. */
  function NewLine(indent: string, depth: int): string
    requires indent != ""
  {
    if depth <= 0 then "\n" else "\n" + seq(depth * |indent|, k requires 0 <= k => indent[k % |indent|])
  }

  /**
    * What stands in front of a character outside quotes: a new line before a closer, one level further
    * out; a new line before anything else that follows an opener or a comma, but for a comma; a blank
    * behind a colon.
    */
  function Gap(indent: string, p: Place, c: char): string
    requires indent != ""
  {
    if p.quoted then ""
    else if Closes(c) then NewLine(indent, p.depth - 1)
    else if (Opens(p.last) || p.last == ',') && c != ',' then NewLine(indent, p.depth)
    else if p.last == ':' then " "
    else ""
  }

  function Spread(indent: string, p: Place, t: string): string
    requires indent != ""
    decreases |t|
  {
    if t == "" then "" else Gap(indent, p, t[0]) + [t[0]] + Spread(indent, After(p, t[0]), t[1..])
  }

  function Through(p: Place, t: string): Place
    decreases |t|
  {
    if t == "" then p else Through(After(p, t[0]), t[1..])
  }

  lemma {:induction false} SpreadConcat(indent: string, p: Place, a: string, b: string)
    requires indent != ""
    ensures Spread(indent, p, a + b) == Spread(indent, p, a) + Spread(indent, Through(p, a), b)
    ensures Through(p, a + b) == Through(Through(p, a), b)
    decreases |a|
  {
    if a == "" {
      assert a + b == b;
    } else {
      assert (a + b)[0] == a[0] && (a + b)[1..] == a[1..] + b;
      SpreadConcat(indent, After(p, a[0]), a[1..], b);
      hide Gap, After;
      Regroup3(Gap(indent, p, a[0]), [a[0]], Spread(indent, After(p, a[0]), a[1..]),
               Spread(indent, Through(After(p, a[0]), a[1..]), b));
    }
  }

  lemma Regroup3(a: string, b: string, c: string, d: string)
    ensures a + b + (c + d) == a + b + c + d
  {
  }

  lemma SpreadOne(indent: string, p: Place, c: char)
    requires indent != ""
    ensures Spread(indent, p, [c]) == Gap(indent, p, c) + [c] && Through(p, [c]) == After(p, c)
  {
    assert [c][1..] == "";
  }

  // ---------- Indentation ----------

  lemma {:induction false} RepeatIsTiled(indent: string, n: nat)
    requires indent != ""
    ensures |Repeat(indent, n)| == n * |indent|
    ensures forall k | 0 <= k < n * |indent| :: Repeat(indent, n)[k] == indent[k % |indent|]
  {
    if n > 0 {
      var m := |indent|;
      RepeatIsTiled(indent, n - 1);
      assert n * m == (n - 1) * m + m;
      forall k | 0 <= k < n * m ensures Repeat(indent, n)[k] == indent[k % m] {
        if k >= (n - 1) * m {
          Shifted(n - 1, m, k - (n - 1) * m);
        }
      }
    }
  }

  lemma Shifted(q: nat, m: nat, r: nat)
    requires r < m
    ensures (q * m + r) % m == r
    decreases q
  {
    if q > 0 {
      Shifted(q - 1, m, r);
      assert q * m + r == (q - 1) * m + r + m;
      assert ((q - 1) * m + r + m) % m == ((q - 1) * m + r) % m by { OneRound((q - 1) * m + r, m); }
    }
  }

  lemma OneRound(a: nat, m: nat)
    requires m > 0
    ensures (a + m) % m == a % m
  {
    var q := a / m;
    assert a + m == (q + 1) * m + a % m;
    Unique(a + m, m, q + 1, a % m);
  }

  lemma Unique(a: nat, m: nat, q: nat, r: nat)
    requires m > 0 && r < m && a == q * m + r
    ensures a % m == r
  {
    var d: int := a / m - q;
    assert d * m == r - a % m;
    Multiples(d, m);
  }

  lemma Multiples(d: int, m: int)
    requires m > 0
    ensures d >= 1 ==> d * m >= m
    ensures d <= -1 ==> d * m <= -m
  {
  }

  lemma NewLineIs(indent: string, depth: nat)
    requires indent != ""
    ensures NewLine(indent, depth) == "\n" + Repeat(indent, depth)
  {
    RepeatIsTiled(indent, depth);
    if depth > 0 {
      var tiled := seq(depth * |indent|, k requires 0 <= k => indent[k % |indent|]);
      assert tiled == Repeat(indent, depth);
    } else {
      assert Repeat(indent, depth) == "";
    }
  }

  // ---------- Pieces of text ----------

  /** A place outside quotes where neither a new line nor a blank is due. */
  predicate Settled(p: Place) {
    !p.quoted && !Opens(p.last) && p.last != ',' && p.last != ':'
  }

  predicate IsPlain(c: char) {
    c != '\"' && !Opens(c) && !Closes(c) && c != ',' && c != ':'
  }

  lemma SpreadHead(indent: string, p: Place, c: char, t: string)
    requires indent != ""
    ensures Spread(indent, p, [c] + t) == Gap(indent, p, c) + [c] + Spread(indent, After(p, c), t)
    ensures Through(p, [c] + t) == Through(After(p, c), t)
  {
    hide Gap, After;
    assert ([c] + t)[1..] == t;
  }

  lemma SpreadNothing(indent: string, p: Place)
    requires indent != ""
    ensures Spread(indent, p, "") == "" && Through(p, "") == p
  {
  }

  lemma PlainStep(indent: string, p: Place, c: char)
    requires indent != "" && Settled(p) && IsPlain(c)
    ensures Gap(indent, p, c) == "" && After(p, c) == Place(false, p.depth, c) && Settled(After(p, c))
  {
    hide NewLine;
  }

  lemma {:induction false} PlainSpreads(indent: string, p: Place, t: string)
    requires indent != "" && Settled(p) && forall i | 0 <= i < |t| :: IsPlain(t[i])
    ensures Spread(indent, p, t) == t
    ensures Through(p, t) == if t == "" then p else Place(false, p.depth, t[|t| - 1])
    decreases |t|
  {
    hide Spread, Through, Gap, After, Settled, IsPlain;
    if t == "" {
      SpreadNothing(indent, p);
    } else {
      var c, more := t[0], t[1..];
      assert t == [c] + more;
      PlainStep(indent, p, c);
      SpreadHead(indent, p, c, more);
      PlainSpreads(indent, After(p, c), more);
    }
  }

  lemma InsideStep(indent: string, p: Place, c: char)
    requires indent != "" && p.quoted && c != '\"'
    ensures Gap(indent, p, c) == "" && After(p, c) == Place(true, p.depth, c)
  {
    hide NewLine;
  }

  lemma {:induction false} InsideSpreads(indent: string, p: Place, t: string)
    requires indent != "" && p.quoted && QuoteFree(t)
    ensures Spread(indent, p, t) == t
    ensures Through(p, t).quoted && Through(p, t).depth == p.depth
    decreases |t|
  {
    hide Spread, Through, Gap, After;
    if t == "" {
      SpreadNothing(indent, p);
    } else {
      var c, more := t[0], t[1..];
      assert t == [c] + more && c in t;
      InsideStep(indent, p, c);
      SpreadHead(indent, p, c, more);
      InsideSpreads(indent, After(p, c), more);
    }
  }

  lemma QuotedSpreads(indent: string, p: Place, t: string)
    requires indent != "" && !p.quoted && QuoteFree(t)
    ensures Spread(indent, p, "\"" + t + "\"") == Gap(indent, p, '\"') + ("\"" + t + "\"")
    ensures Through(p, "\"" + t + "\"") == Place(false, p.depth, '\"')
  {
    hide Gap;
    var q := After(p, '\"');
    SpreadOne(indent, p, '\"');
    InsideSpreads(indent, q, t);
    SpreadOne(indent, Through(q, t), '\"');
    InsideGap(indent, Through(q, t), '\"');
    SpreadConcat(indent, p, "\"", t);
    SpreadConcat(indent, p, "\"" + t, "\"");
  }

  lemma InsideGap(indent: string, p: Place, c: char)
    requires indent != "" && p.quoted
    ensures Gap(indent, p, c) == ""
  {
  }

  // ---------- What the printer writes is compact text spread ----------

  /** Where a value or a name is due: on a line of its own, or behind a colon. */
  predicate Due(p: Place, depth: nat, first: bool) {
    !p.quoted && p.depth == depth && (if first then Opens(p.last) else p.last != ':')
  }

  /** Settled again behind a value. */
  predicate Done(p: Place, depth: int) {
    Settled(p) && p.depth == depth
  }

  /** The front of a value up to its first character `c`: separator, new line, name. */
  lemma LeadSpreads(style: Style, p: Place, first: bool, depth: nat, name: string, c: char)
    requires style.indent != "" && Due(p, depth, first) && QuoteFree(name) && !Closes(c) && c != ','
    ensures var lead := Lead(Compact(style), first, true, depth, name);
            && Spread(style.indent, p, lead) + Gap(style.indent, Through(p, lead), c)
               == Lead(style, first, true, depth, name)
            && !Through(p, lead).quoted && Through(p, lead).depth == depth
  {
    hide Spread, Through, Gap, NewLine, Lead, Repeat;
    var comma := if first then "" else ",";
    var q := Through(p, comma);
    CompactLead(Compact(style), first, true, depth, name);
    CommaSpreads(style.indent, p, depth, first);
    if name == "" {
      assert comma + "" == comma;
      BareLead(style, first, depth);
      LineDue(style.indent, q, depth, c);
    } else {
      NamedLead(style, first, depth, name);
      NameSpreads(style.indent, q, depth, name, c);
      var named := "\"" + name + "\":";
      SpreadConcat(style.indent, p, comma, named);
      Regroup2(comma, Spread(style.indent, q, named), Gap(style.indent, Through(q, named), c));
    }
  }

  lemma BareLead(style: Style, first: bool, depth: nat)
    requires style.indent != ""
    ensures Lead(style, first, true, depth, "") == (if first then "" else ",") + ("\n" + Repeat(style.indent, depth))
  {
    hide Repeat;
  }

  lemma NamedLead(style: Style, first: bool, depth: nat, name: string)
    requires style.indent != "" && name != ""
    ensures Lead(style, first, true, depth, name)
         == (if first then "" else ",") + ("\n" + Repeat(style.indent, depth) + ("\"" + name + "\":") + " ")
  {
    hide Repeat;
  }

  /** Behind an opener or a comma a line is due before anything but a comma or a closer. */
  lemma LineDue(indent: string, p: Place, depth: nat, c: char)
    requires indent != "" && !p.quoted && p.depth == depth && (Opens(p.last) || p.last == ',') && !Closes(c) && c != ','
    ensures Gap(indent, p, c) == "\n" + Repeat(indent, depth)
  {
    hide NewLine, Repeat;
    NewLineIs(indent, depth);
  }

  lemma NameSpreads(indent: string, p: Place, depth: nat, name: string, c: char)
    requires indent != "" && !p.quoted && p.depth == depth && (Opens(p.last) || p.last == ',') && !Closes(c)
    requires QuoteFree(name)
    ensures var named := "\"" + name + "\":";
            && Spread(indent, p, named) + Gap(indent, Through(p, named), c)
               == "\n" + Repeat(indent, depth) + named + " "
            && Through(p, named) == Place(false, depth, ':')
  {
    hide Spread, Through, NewLine, Repeat;
    var quoted := "\"" + name + "\"";
    QuotedSpreads(indent, p, name);
    LineDue(indent, p, depth, '\"');
    var q := Place(false, depth, '\"');
    SpreadOne(indent, q, ':');
    ColonGaps(indent, depth, c);
    SpreadConcat(indent, p, quoted, ":");
    assert quoted + ":" == "\"" + name + "\":";
    hide Gap;
    Regroup2("\n" + Repeat(indent, depth), quoted, ":");
  }

  lemma ColonGaps(indent: string, depth: nat, c: char)
    requires indent != "" && !Closes(c)
    ensures Gap(indent, Place(false, depth, '\"'), ':') == ""
    ensures Gap(indent, Place(false, depth, ':'), c) == " "
  {
    hide NewLine;
  }

  lemma CommaSpreads(indent: string, p: Place, depth: nat, first: bool)
    requires indent != "" && Due(p, depth, first)
    ensures var comma := if first then "" else ",";
            && Spread(indent, p, comma) == comma
            && !Through(p, comma).quoted && Through(p, comma).depth == depth
            && (Opens(Through(p, comma).last) || Through(p, comma).last == ',')
  {
    if !first {
      SpreadOne(indent, p, ',');
    }
  }

  lemma {:induction false} BodySpreads(style: Style, p: Place, j: Json, depth: nat)
    requires style.indent != "" && !p.quoted && p.depth == depth && Printable(j)
    ensures var t := Body(Compact(style), j, depth);
            && t != "" && !Closes(t[0]) && t[0] != ','
            && Spread(style.indent, p, t) == Gap(style.indent, p, t[0]) + Body(style, j, depth)
            && Done(Through(p, t), depth)
    decreases j, 0
  {
    hide Spread, Through, Gap, Decimal;
    match j
    case JNull => ScalarSpreads(style.indent, p, "null");
    case JBool(b) => ScalarSpreads(style.indent, p, if b then "true" else "false");
    case JInt(n) =>
      DecimalIsPlain(n);
      ScalarSpreads(style.indent, p, Decimal(n));
    case JString(s) =>
      QuotedSpreads(style.indent, p, s);
    case JNode(kind, kids) =>
      var q := After(p, Opener(kind));
      KidsSpread(style, q, kind, kids, true, depth + 1);
      NodeSpreads(style, p, kind, kids, depth);
  }

  lemma DecimalIsPlain(n: int)
    ensures var t := Decimal(n); t != "" && forall i | 0 <= i < |t| :: IsPlain(t[i])
  {
    hide Decimal;
    DecimalShape(n);
    var t := Decimal(n);
    forall i | 0 <= i < |t| ensures IsPlain(t[i]) {
      if i > 0 {
        assert IsDigit(t[1..][i - 1]);
      }
    }
  }

  lemma ScalarSpreads(indent: string, p: Place, t: string)
    requires indent != "" && !p.quoted && t != "" && forall i | 0 <= i < |t| :: IsPlain(t[i])
    ensures Spread(indent, p, t) == Gap(indent, p, t[0]) + t
    ensures Done(Through(p, t), p.depth)
  {
    hide Gap;
    PlainSpreads(indent, After(p, t[0]), t[1..]);
    assert t == [t[0]] + t[1..];
    Regroup2(Gap(indent, p, t[0]), [t[0]], t[1..]);
  }

  lemma Regroup2(a: string, b: string, c: string)
    ensures a + b + c == a + (b + c)
  {
  }

  /** The brackets around children that spread. */
  lemma NodeSpreads(style: Style, p: Place, kind: Kind, kids: Kids, depth: nat)
    requires style.indent != "" && !p.quoted && p.depth == depth
    requires var t := RenderKids(Compact(style), kids, true, depth + 1);
             var q := After(p, Opener(kind));
             && Spread(style.indent, q, t) == RenderKids(style, kids, true, depth + 1)
             && !Through(q, t).quoted && Through(q, t).depth == depth + 1
    ensures var t := Body(Compact(style), JNode(kind, kids), depth);
            && t != "" && t[0] == Opener(kind)
            && Spread(style.indent, p, t)
               == Gap(style.indent, p, t[0]) + Body(style, JNode(kind, kids), depth)
            && Done(Through(p, t), depth)
  {
    hide Spread, Through, RenderKids;
    var indent, open, close := style.indent, [Opener(kind)], [Closer(kind)];
    var t, full := RenderKids(Compact(style), kids, true, depth + 1), RenderKids(style, kids, true, depth + 1);
    var q := After(p, Opener(kind));
    CompactTail(Compact(style), depth, kind);
    SpreadOne(indent, p, Opener(kind));
    SpreadOne(indent, Through(q, t), Closer(kind));
    SpreadConcat(indent, p, open, t);
    SpreadConcat(indent, p, open + t, close);
    assert Body(Compact(style), JNode(kind, kids), depth) == open + t + close;
    NewLineIs(indent, depth);
    assert Gap(indent, Through(q, t), Closer(kind)) + close == Tail(style, depth, kind);
    hide Gap, Tail;
    Regroup4(Gap(indent, p, Opener(kind)), open, full, Tail(style, depth, kind));
  }

  lemma Regroup4(a: string, b: string, c: string, d: string)
    ensures a + b + c + d == a + (b + c + d)
  {
  }

  lemma {:induction false} KidsSpread(style: Style, p: Place, kind: Kind, kids: Kids, first: bool, depth: nat)
    requires style.indent != "" && Due(p, depth, first) && depth > 0 && PrintableKids(kind, kids)
    ensures var t := RenderKids(Compact(style), kids, first, depth);
            && Spread(style.indent, p, t) == RenderKids(style, kids, first, depth)
            && !Through(p, t).quoted && Through(p, t).depth == depth
    decreases kids, 1
  {
    match kids
    case Nil =>
    case Cons(name, value, rest) =>
      if Hidden(style.hideNull, value) {
        KidsSpread(style, p, kind, rest, false, depth);
        var more := RenderKids(Compact(style), rest, false, depth);
        assert "" + more == more && "" + RenderKids(style, rest, false, depth) == RenderKids(style, rest, false, depth);
      } else {
        hide Spread, Through, Render;
        RenderSpreads(style, p, name, value, first, depth);
        var t := Render(Compact(style), name, value, first, depth);
        KidsSpread(style, Through(p, t), kind, rest, false, depth);
        SpreadConcat(style.indent, p, t, RenderKids(Compact(style), rest, false, depth));
      }
  }

  /** One value with all that leads to it. */
  lemma {:induction false} RenderSpreads(style: Style, p: Place, name: string, j: Json, first: bool, depth: nat)
    requires style.indent != "" && Due(p, depth, first) && depth > 0
    requires QuoteFree(name) && Printable(j) && !Hidden(style.hideNull, j)
    ensures var t := Render(Compact(style), name, j, first, depth);
            && Spread(style.indent, p, t) == Render(style, name, j, first, depth)
            && Done(Through(p, t), depth)
    decreases j, 1
  {
    hide Spread, Through, Gap, Lead, Body;
    var indent := style.indent;
    var lead, body := Lead(Compact(style), first, true, depth, name), Body(Compact(style), j, depth);
    var q := Through(p, lead);
    LeadKeepsPlace(style, p, first, depth, name);
    BodySpreads(style, q, j, depth);
    LeadSpreads(style, p, first, depth, name, body[0]);
    SpreadConcat(indent, p, lead, body);
    Regroup2(Spread(indent, p, lead), Gap(indent, q, body[0]), Body(style, j, depth));
  }

  lemma LeadKeepsPlace(style: Style, p: Place, first: bool, depth: nat, name: string)
    requires style.indent != "" && Due(p, depth, first) && QuoteFree(name)
    ensures var q := Through(p, Lead(Compact(style), first, true, depth, name)); !q.quoted && q.depth == depth
  {
    LeadSpreads(style, p, first, depth, name, 'x');
  }

  /**
    * Printed text is its compact form spread over lines, for every document and every indent but the
    * empty one; a sequence as root starts on a new line.
    */
  lemma PrintedIsSpread(style: Style, kind: Kind, kids: Kids)
    requires style.indent != "" && PrintableKids(kind, kids)
    ensures var j := JNode(kind, kids);
            Render(style, "", j, true, 0)
            == (if kind == Array then "\n" else "")
               + Spread(style.indent, Place(false, 0, ' '), Render(Compact(style), "", j, true, 0))
  {
    hide Spread, Body;
    var j := JNode(kind, kids);
    BodySpreads(style, Place(false, 0, ' '), j, 0);
    CompactLead(Compact(style), true, kind == Array, 0, "");
    var t := Body(Compact(style), j, 0);
    assert Render(Compact(style), "", j, true, 0) == t;
    assert Gap(style.indent, Place(false, 0, ' '), t[0]) == "";
    assert Lead(style, true, kind == Array, 0, "") == if kind == Array then "\n" else "";
    assert "" + Body(style, j, 0) == Body(style, j, 0);
  }

  /** The compact form is the printed text without its white space outside quotes, and has none itself. */
  lemma CompactIsStripped(style: Style, kind: Kind, kids: Kids)
    requires AllWhite(style.indent) && PrintableKids(kind, kids)
    ensures var j := JNode(kind, kids);
            var compact := Render(Compact(style), "", j, true, 0);
            && Layout.Strip(Render(style, "", j, true, 0), false) == compact
            && Layout.Strip(compact, false) == compact
  {
    RenderStrips(style, "", JNode(kind, kids), true, 0);
    RenderStrips(Compact(style), "", JNode(kind, kids), true, 0);
  }

  /**
    * So the white space of printed text is decided by its other characters and the indent: it is just
    * what `Spread` puts there, and none at all with an empty indent.
    */
  lemma LayoutIsDecided(style: Style, kind: Kind, kids: Kids)
    requires AllWhite(style.indent) && PrintableKids(kind, kids)
    ensures var text := Render(style, "", JNode(kind, kids), true, 0);
            text == if style.indent == "" then Layout.Strip(text, false)
                    else (if kind == Array then "\n" else "")
                         + Spread(style.indent, Place(false, 0, ' '), Layout.Strip(text, false))
  {
    hide Render, Spread, Layout.Strip;
    CompactIsStripped(style, kind, kids);
    if style.indent == "" {
      assert Compact(style) == style;
    } else {
      PrintedIsSpread(style, kind, kids);
    }
  }

  // ---------- Lines ----------

  /** No white space outside quotes. */
  predicate Tight(p: Place, t: string)
    decreases |t|
  {
    t != "" ==> (!p.quoted ==> !White(t[0])) && Tight(After(p, t[0]), t[1..])
  }

  lemma {:induction false} WhiteKeepsPlace(p: Place, w: string)
    requires !p.quoted && AllWhite(w)
    ensures !Through(p, w).quoted && Through(p, w).depth == p.depth
    decreases |w|
  {
    if w != "" {
      WhiteKeepsPlace(After(p, w[0]), w[1..]);
    }
  }

  lemma GapIsWhite(indent: string, p: Place, c: char)
    requires indent != "" && AllWhite(indent)
    ensures AllWhite(Gap(indent, p, c)) && (p.quoted ==> Gap(indent, p, c) == "")
    ensures '\n' !in indent ==> forall k | 0 <= k < |Gap(indent, p, c)| && Gap(indent, p, c)[k] == '\n' :: k == 0
  {
    hide NewLine;
    NewLineIsWhite(indent, p.depth - 1);
    NewLineIsWhite(indent, p.depth);
  }

  lemma NewLineIsWhite(indent: string, depth: int)
    requires indent != "" && AllWhite(indent)
    ensures var s := NewLine(indent, depth);
            && AllWhite(s) && s[0] == '\n'
            && ('\n' !in indent ==> forall k | 0 < k < |s| :: s[k] != '\n')
  {
    var s := NewLine(indent, depth);
    forall k | 0 <= k < |s| ensures White(s[k]) && (k > 0 ==> s[k] in indent) {
      if k > 0 {
        var m := |indent|;
        assert 0 <= (k - 1) % m < m;
        assert s[k] == indent[(k - 1) % m];
        assert White(indent[(k - 1) % m]);
      }
    }
  }

  /** Reading the gap and the character is reading the character. */
  lemma OverGap(indent: string, p: Place, c: char)
    requires indent != "" && AllWhite(indent)
    ensures Through(p, Gap(indent, p, c) + [c]) == After(p, c)
    ensures Through(p, Gap(indent, p, c)).quoted == p.quoted
  {
    hide Gap;
    var g := Gap(indent, p, c);
    GapIsWhite(indent, p, c);
    SpreadConcat(indent, p, g, [c]);
    SpreadOne(indent, Through(p, g), c);
    if !p.quoted {
      WhiteKeepsPlace(p, g);
    } else {
      assert g == "";
    }
  }

  /**
    * Each line break outside quotes is one that stands in front of a character `c` of the compact text:
    * behind it come the indent, once for each bracket open there, a closer's own already closed, and
    * then `c`, which is no white space.
    */
  lemma {:induction false} BreakStartsLine(indent: string, p: Place, t: string, k: nat)
    returns (before: string, c: char, rest: string)
    requires indent != "" && AllWhite(indent) && '\n' !in indent && Tight(p, t)
    requires k < |Spread(indent, p, t)| && Spread(indent, p, t)[k] == '\n'
    requires !Through(p, Spread(indent, p, t)[..k]).quoted
    ensures t == before + [c] + rest && Spread(indent, p, t)[..k] == Spread(indent, p, before)
    ensures var q := Through(p, before);
            && !q.quoted && !White(c)
            && Spread(indent, p, t)[k..]
               == NewLine(indent, if Closes(c) then q.depth - 1 else q.depth) + [c] + Spread(indent, After(q, c), rest)
    decreases |t|
  {
    hide Spread, Through, Gap, After, NewLine;
    SpreadNothing(indent, p);
    var c0, t' := t[0], t[1..];
    assert t == [c0] + t';
    SpreadHead(indent, p, c0, t');
    GapIsWhite(indent, p, c0);
    var g, more := Gap(indent, p, c0), Spread(indent, After(p, c0), t');
    var s := g + [c0] + more;
    OverGap(indent, p, c0);
    assert s[..|g|] == g && s[|g|] == c0;
    assert k != |g|;
    if k < |g| {
      before, c, rest := "", c0, t';
      assert k == 0 && s[..0] == "";
      assert t == "" + [c0] + t';
      assert s[0..] == s;
      LineGap(indent, p, c0);
    } else {
      var k' := k - |g| - 1;
      SpreadConcat(indent, p, g + [c0], more[..k']);
      assert s[..k] == (g + [c0]) + more[..k'] && s[k] == more[k'];
      before, c, rest := BreakStartsLine(indent, After(p, c0), t', k');
      SpreadHead(indent, p, c0, before);
      assert s[k..] == more[k'..];
      assert t == [c0] + before + [c] + rest;
      before := [c0] + before;
      assert s[..k] == g + [c0] + more[..k'];
    }
  }

  /** A gap with a line break is a line break with its indentation. */
  lemma LineGap(indent: string, p: Place, c: char)
    requires indent != "" && Gap(indent, p, c) != "" && Gap(indent, p, c)[0] == '\n'
    ensures Gap(indent, p, c) == NewLine(indent, if Closes(c) then p.depth - 1 else p.depth) && !p.quoted
  {
    hide NewLine;
  }

  /** Text that is its own stripped form is tight. */
  lemma {:induction false} StrippedIsTight(p: Place, t: string)
    requires Layout.Strip(t, p.quoted) == t
    ensures Tight(p, t)
    decreases |t|
  {
    if t != "" {
      StrippedIsTight(After(p, t[0]), t[1..]);
    }
  }

  lemma {:induction false} ThroughQuotes(p: Place, t: string)
    ensures Through(p, t).quoted <==> p.quoted != (Quotes(t) % 2 == 1)
    decreases |t|
  {
    if t != "" {
      ThroughQuotes(After(p, t[0]), t[1..]);
    }
  }

  /** So in the text of a struct each line break outside quotes starts a line like that. */
  lemma PrintedLines(style: Style, kids: Kids, k: nat) returns (before: string, c: char, rest: string)
    requires style.indent != "" && AllWhite(style.indent) && '\n' !in style.indent && PrintableKids(Struct, kids)
    requires var text := Render(style, "", JNode(Struct, kids), true, 0);
             k < |text| && text[k] == '\n' && Quotes(text[..k]) % 2 == 0
    ensures var text := Render(style, "", JNode(Struct, kids), true, 0);
            var start := Place(false, 0, ' ');
            var q := Through(start, before);
            && Layout.Strip(text, false) == before + [c] + rest && !q.quoted && !White(c)
            && text[k..] == NewLine(style.indent, if Closes(c) then q.depth - 1 else q.depth)
                            + [c] + Spread(style.indent, After(q, c), rest)
  {
    hide Render, Spread, Through, Quotes, NewLine, After, Layout.Strip;
    var text, start := Render(style, "", JNode(Struct, kids), true, 0), Place(false, 0, ' ');
    var compact := Render(Compact(style), "", JNode(Struct, kids), true, 0);
    PrintedIsSpread(style, Struct, kids);
    CompactIsStripped(style, Struct, kids);
    assert "" + Spread(style.indent, start, compact) == Spread(style.indent, start, compact);
    StrippedIsTight(start, compact);
    ThroughQuotes(start, text[..k]);
    before, c, rest := BreakStartsLine(style.indent, start, compact, k);
  }

  // ---------- The compact form ----------

  /** The text of a document without white space. */
  function Canonical(j: Json): string
    decreases j
  {
    match j
    case JNull => "null"
    case JBool(b) => if b then "true" else "false"
    case JInt(n) => Decimal(n)
    case JString(s) => "\"" + s + "\""
    case JNode(kind, kids) => if kind == Struct then "{" + Joined(kids) + "}" else "[" + Joined(kids) + "]"
  }

  /** The children, each behind its name if it has one, with commas between them. */
  function Joined(kids: Kids): string
    decreases kids
  {
    match kids
    case Nil => ""
    case Cons(name, value, rest) =>
      (if name == "" then "" else "\"" + name + "\":") + Canonical(value)
      + (if rest == Nil then "" else "," + Joined(rest))
  }

  /** With no hidden null in a leading place, the compact form is the plain text of what is not hidden. */
  lemma CompactIsCanonical(style: Style, kind: Kind, kids: Kids)
    requires style.indent == "" && NoLeadingNull(style.hideNull, JNode(kind, kids))
    ensures Render(style, "", JNode(kind, kids), true, 0) == Canonical(Prune(style.hideNull, JNode(kind, kids)))
  {
    var j := JNode(kind, kids);
    CompactLead(style, true, Breaks(j, 0), 0, "");
    BodyIsCanonical(style, j, 0);
  }

  lemma {:induction false} BodyIsCanonical(style: Style, j: Json, depth: nat)
    requires style.indent == "" && NoLeadingNull(style.hideNull, j)
    ensures Body(style, j, depth) == Canonical(Prune(style.hideNull, j))
    decreases j, 0
  {
    hide RenderKids, Joined, Tail, Decimal, PruneKids;
    if j.JNode? {
      KidsAreJoined(style, j.kids, true, depth + 1);
      Bracketed(style, j.kind, j.kids, depth);
    }
  }

  lemma Bracketed(style: Style, kind: Kind, kids: Kids, depth: nat)
    requires style.indent == ""
    requires RenderKids(style, kids, true, depth + 1) == "" + Joined(PruneKids(style.hideNull, kids))
    ensures Body(style, JNode(kind, kids), depth) == Canonical(JNode(kind, PruneKids(style.hideNull, kids)))
  {
    hide RenderKids, Joined, Tail, PruneKids;
    CompactTail(style, depth, kind);
    var t := Joined(PruneKids(style.hideNull, kids));
    assert "" + t == t;
  }

  lemma {:induction false} KidsAreJoined(style: Style, kids: Kids, first: bool, depth: nat)
    requires style.indent == "" && NoLeadingNullIn(style.hideNull, kids, first)
    ensures RenderKids(style, kids, first, depth)
         == (if first || PruneKids(style.hideNull, kids) == Nil then "" else ",") + Joined(PruneKids(style.hideNull, kids))
    decreases kids, 1
  {
    if kids.Cons? {
      var Cons(name, value, rest) := kids;
      if !Hidden(style.hideNull, value) {
        hide Body, Joined, RenderKids;
        KidsAreJoined(style, rest, false, depth);
        BodyIsCanonical(style, value, depth);
        VisibleIsJoined(style, kids, first, depth);
      } else if first {
        hide Joined;
        InvisiblePrintsNothing(style, rest, depth);
        InvisibleIsPruned(style.hideNull, rest);
        HiddenIsSkipped(style, kids, first, depth);
        NothingJoined();
      } else {
        hide Joined, RenderKids;
        KidsAreJoined(style, rest, false, depth);
        HiddenIsSkipped(style, kids, first, depth);
      }
    }
  }

  lemma NothingJoined()
    ensures Joined(Nil) == ""
  {
  }

  lemma HiddenIsSkipped(style: Style, kids: Kids, first: bool, depth: nat)
    requires kids.Cons? && Hidden(style.hideNull, kids.value)
    ensures RenderKids(style, kids, first, depth) == RenderKids(style, kids.rest, false, depth)
    ensures PruneKids(style.hideNull, kids) == PruneKids(style.hideNull, kids.rest)
  {
    var t := RenderKids(style, kids.rest, false, depth);
    assert "" + t == t;
  }

  lemma VisibleIsJoined(style: Style, kids: Kids, first: bool, depth: nat)
    requires style.indent == "" && kids.Cons? && !Hidden(style.hideNull, kids.value)
    requires Body(style, kids.value, depth) == Canonical(Prune(style.hideNull, kids.value))
    requires var rest := PruneKids(style.hideNull, kids.rest);
             RenderKids(style, kids.rest, false, depth) == (if rest == Nil then "" else ",") + Joined(rest)
    ensures RenderKids(style, kids, first, depth)
         == (if first then "" else ",") + Joined(PruneKids(style.hideNull, kids))
  {
    hide Body, Lead, Canonical, Joined;
    CompactLead(style, first, Breaks(kids.value, depth), depth, kids.name);
    JoinedFront(kids.name, Prune(style.hideNull, kids.value), PruneKids(style.hideNull, kids.rest), first);
  }

  lemma JoinedFront(name: string, j: Json, rest: Kids, first: bool)
    ensures (if first then "" else ",") + (if name == "" then "" else "\"" + name + "\":") + Canonical(j)
            + ((if rest == Nil then "" else ",") + Joined(rest))
         == (if first then "" else ",") + Joined(Cons(name, j, rest))
  {
    hide Canonical;
  }

  lemma {:induction false} InvisibleIsPruned(hideNull: bool, kids: Kids)
    requires Invisible(hideNull, kids)
    ensures PruneKids(hideNull, kids) == Nil
    decreases kids
  {
    if kids.Cons? {
      InvisibleIsPruned(hideNull, kids.rest);
    }
  }
}
