/**
  * UTF-8 one code point at a time: the classification and bit arithmetic of the library, the
  * grammar and tables of RFC 3629, and how the two relate.
  */
module Utf8Core {

  const LEAD_SURROGATE_MIN: bv32 := 0xd800
  const LEAD_SURROGATE_MAX: bv32 := 0xdbff
  const TRAIL_SURROGATE_MIN: bv32 := 0xdc00
  const TRAIL_SURROGATE_MAX: bv32 := 0xdfff
  const CODE_POINT_MAX: bv32 := 0x0010ffff

  // ---------- The library's classification ----------

  function Wide(o: bv8): bv32 {
    o as bv32
  }

  /** `static_cast<uint8_t>`. */
  function Narrow(x: bv32): bv8 {
    (x & 0xff) as bv8
  }

  predicate IsTrail(o: bv8) {
    o >> 6 == 0x2
  }

  predicate IsLeadSurrogate(cp: bv32) {
    LEAD_SURROGATE_MIN <= cp <= LEAD_SURROGATE_MAX
  }

  predicate IsTrailSurrogate(cp: bv32) {
    TRAIL_SURROGATE_MIN <= cp <= TRAIL_SURROGATE_MAX
  }

  predicate IsSurrogate(cp: bv32) {
    LEAD_SURROGATE_MIN <= cp <= TRAIL_SURROGATE_MAX
  }

  predicate IsCodePointValid(cp: bv32) {
    cp <= CODE_POINT_MAX && !IsSurrogate(cp)
  }

  /** How many octets a lead octet announces; 0 for an octet that cannot lead. */
  function SequenceLength(lead: bv8): (n: nat)
    ensures n <= 4
  {
    if lead < 0x80 then 1
    else if lead >> 5 == 0x6 then 2
    else if lead >> 4 == 0xe then 3
    else if lead >> 3 == 0x1e then 4
    else 0
  }

  predicate IsOverlongSequence(cp: bv32, length: nat) {
    if cp < 0x80 then length != 1
    else if cp < 0x800 then length != 2
    else if cp < 0x10000 then length != 3
    else false
  }

  // ---------- Section 4 of RFC 3629: the grammar ----------

  /** UTF8-tail. */
  predicate Tail(o: bv8) {
    0x80 <= o <= 0xBF
  }

  predicate Start3(a: bv8, b: bv8) {
    || (a == 0xE0 && 0xA0 <= b <= 0xBF)
    || (0xE1 <= a <= 0xEC && Tail(b))
    || (a == 0xED && 0x80 <= b <= 0x9F)
    || (0xEE <= a <= 0xEF && Tail(b))
  }

  predicate Start4(a: bv8, b: bv8) {
    || (a == 0xF0 && 0x90 <= b <= 0xBF)
    || (0xF1 <= a <= 0xF3 && Tail(b))
    || (a == 0xF4 && 0x80 <= b <= 0x8F)
  }

  /** UTF8-char. */
  predicate Utf8Char(o: seq<bv8>) {
    || (|o| == 1 && o[0] <= 0x7F)
    || (|o| == 2 && 0xC2 <= o[0] <= 0xDF && Tail(o[1]))
    || (|o| == 3 && Start3(o[0], o[1]) && Tail(o[2]))
    || (|o| == 4 && Start4(o[0], o[1]) && Tail(o[2]) && Tail(o[3]))
  }

  // ---------- Section 3 of RFC 3629: the table ----------

  function Bits2(a: bv8, b: bv8): bv32 {
    ((Wide(a) & 0x1F) << 6) | (Wide(b) & 0x3F)
  }

  function Bits3(a: bv8, b: bv8, c: bv8): bv32 {
    ((Wide(a) & 0x0F) << 12) | ((Wide(b) & 0x3F) << 6) | (Wide(c) & 0x3F)
  }

  function Bits4(a: bv8, b: bv8, c: bv8, d: bv8): bv32 {
    ((Wide(a) & 0x07) << 18) | ((Wide(b) & 0x3F) << 12) | ((Wide(c) & 0x3F) << 6) | (Wide(d) & 0x3F)
  }

  /** The bits of a character, six in each continuation octet. */
  function Scalar(o: seq<bv8>): bv32
    requires Utf8Char(o)
  {
    if |o| == 1 then Wide(o[0])
    else if |o| == 2 then Bits2(o[0], o[1])
    else if |o| == 3 then Bits3(o[0], o[1], o[2])
    else Bits4(o[0], o[1], o[2], o[3])
  }

  function Lead2(cp: bv32): bv8 { Narrow((cp >> 6) | 0xc0) }
  function Lead3(cp: bv32): bv8 { Narrow((cp >> 12) | 0xe0) }
  function Lead4(cp: bv32): bv8 { Narrow((cp >> 18) | 0xf0) }
  function Tail18(cp: bv32): bv8 { Narrow(((cp >> 12) & 0x3f) | 0x80) }
  function Tail12(cp: bv32): bv8 { Narrow(((cp >> 6) & 0x3f) | 0x80) }
  function Tail6(cp: bv32): bv8 { Narrow((cp & 0x3f) | 0x80) }

  /** The octets that `append` writes. */
  function Encode(cp: bv32): (o: seq<bv8>)
    ensures 1 <= |o| <= 4
  {
    if cp < 0x80 then [Narrow(cp)]
    else if cp < 0x800 then [Lead2(cp), Tail6(cp)]
    else if cp < 0x10000 then [Lead3(cp), Tail12(cp), Tail6(cp)]
    else [Lead4(cp), Tail18(cp), Tail12(cp), Tail6(cp)]
  }

  lemma Encode1(cp: bv32)
    requires cp < 0x80
    ensures Narrow(cp) <= 0x7F && Wide(Narrow(cp)) == cp
  {
  }

  lemma Encode2(cp: bv32)
    requires 0x80 <= cp < 0x800
    ensures 0xC2 <= Lead2(cp) <= 0xDF && Tail(Tail6(cp)) && Bits2(Lead2(cp), Tail6(cp)) == cp
  {
  }

  lemma Encode3(cp: bv32)
    requires 0x800 <= cp < 0x10000 && !IsSurrogate(cp)
    ensures Start3(Lead3(cp), Tail12(cp)) && Tail(Tail6(cp)) && Bits3(Lead3(cp), Tail12(cp), Tail6(cp)) == cp
  {
  }

  lemma Encode4(cp: bv32)
    requires 0x10000 <= cp <= CODE_POINT_MAX
    ensures Start4(Lead4(cp), Tail18(cp)) && Tail(Tail12(cp)) && Tail(Tail6(cp))
    ensures Bits4(Lead4(cp), Tail18(cp), Tail12(cp), Tail6(cp)) == cp
  {
  }

  lemma Decode2(a: bv8, b: bv8)
    requires 0xC2 <= a <= 0xDF && Tail(b)
    ensures var cp := Bits2(a, b); 0x80 <= cp < 0x800 && Lead2(cp) == a && Tail6(cp) == b
  {
  }

  lemma Decode3(a: bv8, b: bv8, c: bv8)
    requires Start3(a, b) && Tail(c)
    ensures var cp := Bits3(a, b, c);
            0x800 <= cp < 0x10000 && !IsSurrogate(cp) && Lead3(cp) == a && Tail12(cp) == b && Tail6(cp) == c
  {
  }

  lemma Decode4(a: bv8, b: bv8, c: bv8, d: bv8)
    requires Start4(a, b) && Tail(c) && Tail(d)
    ensures var cp := Bits4(a, b, c, d);
            && 0x10000 <= cp <= CODE_POINT_MAX
            && Lead4(cp) == a && Tail18(cp) == b && Tail12(cp) == c && Tail6(cp) == d
  {
  }

  /** Every valid code point is encoded as a character of the grammar that has its bits. */
  lemma EncodeDecodes(cp: bv32)
    requires IsCodePointValid(cp)
    ensures Utf8Char(Encode(cp)) && Scalar(Encode(cp)) == cp
  {
    hide Lead2, Lead3, Lead4, Tail18, Tail12, Tail6, Narrow, Wide, Bits2, Bits3, Bits4, Start3, Start4, Tail;
    if cp < 0x80 {
      Encode1(cp);
    } else if cp < 0x800 {
      Encode2(cp);
    } else if cp < 0x10000 {
      Encode3(cp);
    } else {
      Encode4(cp);
    }
  }

  /** Every character of the grammar denotes a valid code point and is the encoding of it. */
  lemma DecodeEncodes(o: seq<bv8>)
    requires Utf8Char(o)
    ensures IsCodePointValid(Scalar(o)) && Encode(Scalar(o)) == o
  {
    hide Lead2, Lead3, Lead4, Tail18, Tail12, Tail6, Bits2, Bits3, Bits4, Start3, Start4, Tail;
    if |o| == 1 {
      Decode1(o[0]);
    } else if |o| == 2 {
      Decode2(o[0], o[1]);
    } else if |o| == 3 {
      Decode3(o[0], o[1], o[2]);
    } else {
      Decode4(o[0], o[1], o[2], o[3]);
    }
  }

  lemma Decode1(a: bv8)
    requires a <= 0x7F
    ensures Wide(a) < 0x80 && Narrow(Wide(a)) == a && IsCodePointValid(Wide(a))
  {
  }

  /** The first octet of a character announces its length, and only it is no continuation octet. */
  lemma CharShape(o: seq<bv8>)
    requires Utf8Char(o)
    ensures SequenceLength(o[0]) == |o| && !IsTrail(o[0])
    ensures forall i | 1 <= i < |o| :: IsTrail(o[i])
  {
  }

  // ---------- Judging the octets at a position ----------

  datatype UtfError =
    | NotEnoughRoom | InvalidLead | IncompleteSequence | OverlongSequence | InvalidCodePoint

  /** The character at the front, or what is wrong with it. */
  datatype Judgement = Good(length: nat, cp: bv32) | Bad(error: UtfError)

  /** How many continuation octets `s` starts with. */
  function TrailRun(s: seq<bv8>): (k: nat)
    ensures k <= |s| && forall i | 0 <= i < k :: IsTrail(s[i])
    ensures k < |s| ==> !IsTrail(s[k])
  {
    if s == [] || !IsTrail(s[0]) then 0 else 1 + TrailRun(s[1..])
  }

  /**
    * A complete sequence outside the grammar whose bits are a surrogate or too large: a
    * three-octet or over-long four-octet surrogate, or a lead or second octet beyond F4 8F.
    */
  predicate BeyondCodePoints(a: bv8, b: bv8) {
    || (a == 0xED && b >= 0xA0)
    || (a == 0xF0 && b == 0x8D)
    || (a == 0xF4 && b >= 0x90)
    || a >= 0xF5
  }

  /** What is wrong with octets that do not start with a character. */
  function Fault(s: seq<bv8>): UtfError
    requires s != []
  {
    var n := SequenceLength(s[0]);
    if n == 0 then InvalidLead
    else if TrailRun(s[1..]) < n - 1 then
      if 1 + TrailRun(s[1..]) == |s| then NotEnoughRoom else IncompleteSequence
    else if n >= 3 && BeyondCodePoints(s[0], s[1]) && (s[0] == 0xF0 ==> s[2] >= 0xA0) then InvalidCodePoint
    else OverlongSequence
  }

  function Judge(s: seq<bv8>): (j: Judgement)
    requires s != []
    ensures j.Good? ==> 1 <= j.length <= |s|
  {
    var n := SequenceLength(s[0]);
    if 0 < n <= |s| && Utf8Char(s[..n]) then Good(n, Scalar(s[..n])) else Bad(Fault(s))
  }

  /** A character is found exactly when some prefix is one, and it is that prefix. */
  lemma JudgeFindsPrefix(s: seq<bv8>, n: nat)
    requires s != [] && n <= |s| && Utf8Char(s[..n])
    ensures Judge(s) == Good(n, Scalar(s[..n]))
  {
    CharShape(s[..n]);
  }

  lemma JudgeIsPrefix(s: seq<bv8>)
    requires s != [] && Judge(s).Good?
    ensures var j := Judge(s); Utf8Char(s[..j.length]) && j.cp == Scalar(s[..j.length])
  {
  }
}
