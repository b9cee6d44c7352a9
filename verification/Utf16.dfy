/**
  * UTF-16: transcoding from and to UTF-8, and sections 2.1 and 2.2 of RFC 2781.
  */
module Utf16 {
  import opened Text
  import opened Utf8Core
  import opened Utf8Text
  import opened Utf8Repair
  import opened Utf8Functions
  import opened Utf8Ranges

  // ---------- The library's arithmetic, modulo 2^32 and 2^16 ----------

  const LEAD_OFFSET: bv32 := LEAD_SURROGATE_MIN - (0x10000 >> 10)
  const SURROGATE_OFFSET: bv32 := 0x10000 - (LEAD_SURROGATE_MIN << 10) - TRAIL_SURROGATE_MIN

  function Wide16(w: bv16): bv32 {
    w as bv32
  }

  /** `static_cast<uint16_t>`. */
  function Narrow16(x: bv32): bv16 {
    (x & 0xffff) as bv16
  }

  function LeadWord(cp: bv32): bv16 {
    Narrow16((cp >> 10) + LEAD_OFFSET)
  }

  function TrailWord(cp: bv32): bv16 {
    Narrow16((cp & 0x3ff) + TRAIL_SURROGATE_MIN)
  }

  function Joined(lead: bv32, trail: bv32): bv32 {
    (lead << 10) + trail + SURROGATE_OFFSET
  }

  predicate Lead(w: bv16) {
    IsLeadSurrogate(Wide16(w))
  }

  predicate Trail(w: bv16) {
    IsTrailSurrogate(Wide16(w))
  }

  // ---------- Section 2.1 of RFC 2781: encoding ----------

  /** 110110yyyyyyyyyy and 110111xxxxxxxxxx for the twenty bits of `cp - 0x10000`. */
  function HighHalf(cp: bv32): bv16 {
    0xD800 | Narrow16((cp - 0x10000) >> 10)
  }

  function LowHalf(cp: bv32): bv16 {
    0xDC00 | Narrow16((cp - 0x10000) & 0x3FF)
  }

  function Units(cp: bv32): (u: seq<bv16>)
    ensures 1 <= |u| <= 2
  {
    if cp < 0x10000 then [Narrow16(cp)] else [HighHalf(cp), LowHalf(cp)]
  }

  function UnitsAll(cps: seq<bv32>): seq<bv16> {
    if cps == [] then [] else Units(cps[0]) + UnitsAll(cps[1..])
  }

  // ---------- Section 2.2 of RFC 2781: decoding ----------

  function PairValue(w1: bv16, w2: bv16): bv32 {
    (((Wide16(w1) & 0x3FF) << 10) | (Wide16(w2) & 0x3FF)) + 0x10000
  }

  /** How many units the character at the front has; 0 when there is no character. */
  function UnitCount(u: seq<bv16>): (n: nat)
    requires u != []
    ensures n <= |u|
  {
    if Lead(u[0]) then if |u| > 1 && Trail(u[1]) then 2 else 0
    else if Trail(u[0]) then 0 else 1
  }

  /** The code point at the front. */
  function FrontValue(u: seq<bv16>): bv32
    requires u != [] && UnitCount(u) > 0
  {
    if UnitCount(u) == 1 then Wide16(u[0]) else PairValue(u[0], u[1])
  }

  datatype Decoded16 = Decoded16(cps: seq<bv32>, rest: seq<bv16>)

  function DecodeUnits(u: seq<bv16>): (d: Decoded16)
    ensures |d.rest| <= |u|
  {
    if u == [] || UnitCount(u) == 0 then Decoded16([], u)
    else
      var d := DecodeUnits(u[UnitCount(u)..]);
      Decoded16([FrontValue(u)] + d.cps, d.rest)
  }

  // ---------- The library's arithmetic is that of the standard ----------

  lemma OffsetsEncode(cp: bv32)
    requires 0x10000 <= cp <= CODE_POINT_MAX
    ensures LeadWord(cp) == HighHalf(cp) && TrailWord(cp) == LowHalf(cp)
  {
  }

  lemma OffsetDecodes(a: bv16, b: bv16)
    requires Lead(a) && Trail(b)
    ensures Joined(Wide16(a), Wide16(b)) == PairValue(a, b)
  {
  }

  // ---------- One code point ----------

  lemma WideNarrow(cp: bv32)
    requires cp < 0x10000
    ensures Wide16(Narrow16(cp)) == cp
  {
  }

  lemma Single(cp: bv32)
    requires IsCodePointValid(cp) && cp < 0x10000
    ensures !Lead(Narrow16(cp)) && !Trail(Narrow16(cp)) && Wide16(Narrow16(cp)) == cp
  {
    hide Wide16, Narrow16;
    WideNarrow(cp);
  }

  lemma Pair(cp: bv32)
    requires 0x10000 <= cp <= CODE_POINT_MAX
    ensures Lead(HighHalf(cp)) && Trail(LowHalf(cp)) && PairValue(HighHalf(cp), LowHalf(cp)) == cp
  {
  }

  lemma SingleBack(w: bv16)
    requires !Lead(w) && !Trail(w)
    ensures IsCodePointValid(Wide16(w)) && Wide16(w) < 0x10000 && Narrow16(Wide16(w)) == w
  {
  }

  lemma PairBack(a: bv16, b: bv16)
    requires Lead(a) && Trail(b)
    ensures var cp := PairValue(a, b); 0x10000 <= cp <= CODE_POINT_MAX && HighHalf(cp) == a && LowHalf(cp) == b
  {
  }

  lemma LargeIsValid(cp: bv32)
    requires 0x10000 <= cp <= CODE_POINT_MAX
    ensures IsCodePointValid(cp)
  {
  }

  lemma LeadIsNoTrailUnit(w: bv16)
    requires Lead(w)
    ensures !Trail(w)
  {
  }

  lemma TrailIsNoLead(w: bv16)
    requires Trail(w)
    ensures !Lead(w)
  {
  }

  /** The units of a valid code point are decoded to it, whatever follows. */
  lemma UnitsDecode(cp: bv32, more: seq<bv16>)
    requires IsCodePointValid(cp)
    ensures UnitCount(Units(cp) + more) == |Units(cp)| && FrontValue(Units(cp) + more) == cp
  {
    hide Lead, Trail, HighHalf, LowHalf, PairValue, Narrow16, Wide16;
    if cp < 0x10000 {
      Single(cp);
    } else {
      Pair(cp);
    }
  }

  /** What is decoded is valid, and has the units it was decoded from. */
  lemma FrontEncodes(u: seq<bv16>)
    requires u != [] && UnitCount(u) > 0
    ensures IsCodePointValid(FrontValue(u)) && Units(FrontValue(u)) == u[..UnitCount(u)]
  {
    hide Lead, Trail, HighHalf, LowHalf, PairValue, Narrow16, Wide16;
    if UnitCount(u) == 1 {
      SingleBack(u[0]);
    } else {
      PairBack(u[0], u[1]);
      LargeIsValid(PairValue(u[0], u[1]));
    }
  }

  // ---------- Strings ----------

  lemma {:induction false} UnitsThenDecode(cps: seq<bv32>)
    requires AllValid(cps)
    ensures DecodeUnits(UnitsAll(cps)) == Decoded16(cps, [])
  {
    hide UnitCount, FrontValue, Units, IsCodePointValid;
    if cps != [] {
      var e, more := Units(cps[0]), UnitsAll(cps[1..]);
      UnitsDecode(cps[0], more);
      assert (e + more)[|e|..] == more;
      UnitsThenDecode(cps[1..]);
    }
  }

  lemma {:induction false} DecodeThenUnits(u: seq<bv16>)
    ensures var d := DecodeUnits(u); UnitsAll(d.cps) + d.rest == u
  {
    hide UnitCount, FrontValue, Units, IsCodePointValid;
    if u != [] && UnitCount(u) > 0 {
      var n := UnitCount(u);
      FrontEncodes(u);
      DecodeThenUnits(u[n..]);
      var d := DecodeUnits(u[n..]);
      assert ([FrontValue(u)] + d.cps)[1..] == d.cps;
      Rejoin(u, n, UnitsAll(d.cps), d.rest);
    }
  }

  lemma Rejoin(u: seq<bv16>, n: nat, more: seq<bv16>, rest: seq<bv16>)
    requires n <= |u| && u[n..] == more + rest
    ensures u[..n] + more + rest == u
  {
    assert u == u[..n] + u[n..];
  }

  lemma {:induction false} DecodedUnitsAreValid(u: seq<bv16>)
    ensures AllValid(DecodeUnits(u).cps)
  {
    hide UnitCount, FrontValue, IsCodePointValid;
    if u != [] && UnitCount(u) > 0 {
      FrontEncodes(u);
      DecodedUnitsAreValid(u[UnitCount(u)..]);
    }
  }

  /** A surrogate at `i` without its partner. */
  predicate Unpaired(u: seq<bv16>, i: nat)
    requires i < |u|
  {
    || (Lead(u[i]) && !(i + 1 < |u| && Trail(u[i + 1])))
    || (Trail(u[i]) && !(i > 0 && Lead(u[i - 1])))
  }

  predicate AllPaired(u: seq<bv16>) {
    forall i | 0 <= i < |u| :: !Unpaired(u, i)
  }

  /** The character at the front has its surrogates paired, and what follows is paired among itself. */
  lemma UnpairedBehind(u: seq<bv16>)
    requires u != [] && UnitCount(u) > 0
    ensures forall i | 0 <= i < UnitCount(u) :: !Unpaired(u, i)
    ensures forall i | 0 <= i < |u| - UnitCount(u) :: Unpaired(u[UnitCount(u)..], i) <==> Unpaired(u, UnitCount(u) + i)
  {
    hide Lead, Trail;
    var n := UnitCount(u);
    if n == 2 {
      TrailIsNoLead(u[1]);
      LeadIsNoTrailUnit(u[0]);
    }
  }

  lemma PairedBehind(u: seq<bv16>)
    requires u != [] && UnitCount(u) > 0
    ensures AllPaired(u) <==> AllPaired(u[UnitCount(u)..])
  {
    hide Lead, Trail, Unpaired;
    UnpairedBehind(u);
    var n := UnitCount(u);
    if AllPaired(u[n..]) {
      forall i | 0 <= i < |u| ensures !Unpaired(u, i) {
        if i >= n {
          assert !Unpaired(u[n..], i - n);
        }
      }
    }
    if AllPaired(u) {
      forall i | 0 <= i < |u| - n ensures !Unpaired(u[n..], i) {
        assert !Unpaired(u, n + i);
      }
    }
  }

  /** Decoding stops at the first unpaired surrogate. */
  lemma {:induction false} StopsAtFirstUnpaired(u: seq<bv16>)
    ensures var rest := DecodeUnits(u).rest;
            var p := |u| - |rest|;
            && rest == u[p..]
            && (forall i | 0 <= i < p :: !Unpaired(u, i))
            && (rest != [] ==> Unpaired(u, p))
    decreases |u|
  {
    hide Lead, Trail, FrontValue, Unpaired;
    if u != [] {
      if UnitCount(u) == 0 {
        FrontIsUnpaired(u);
      } else {
        var n := UnitCount(u);
        var t := u[n..];
        UnpairedBehind(u);
        StopsAtFirstUnpaired(t);
        var rest := DecodeUnits(u).rest;
        var p := |u| - |rest|;
        assert DecodeUnits(t).rest == rest && t[p - n..] == u[p..];
        forall i | 0 <= i < p ensures !Unpaired(u, i) {
          if i >= n {
            assert !Unpaired(t, i - n);
          }
        }
        if rest != [] {
          assert Unpaired(t, p - n);
        }
      }
    }
  }

  lemma FrontIsUnpaired(u: seq<bv16>)
    requires u != [] && UnitCount(u) == 0
    ensures Unpaired(u, 0)
  {
    hide Lead, Trail;
  }

  lemma SurrogateRanges(w: bv16)
    ensures Lead(w) <==> 0xD800 <= w <= 0xDBFF
    ensures Trail(w) <==> 0xDC00 <= w <= 0xDFFF
  {
  }

  /** Decoding fails exactly when the input holds an unpaired surrogate. */
  lemma {:induction false} DecodesWhenPaired(u: seq<bv16>)
    ensures DecodeUnits(u).rest == [] <==> AllPaired(u)
  {
    hide Lead, Trail, AllPaired, FrontValue;
    if u == [] {
      EmptyPaired();
    } else if UnitCount(u) == 0 {
      FrontUnpaired(u);
    } else {
      PairedBehind(u);
      DecodesWhenPaired(u[UnitCount(u)..]);
    }
  }

  lemma EmptyPaired()
    ensures AllPaired([])
  {
  }

  lemma FrontUnpaired(u: seq<bv16>)
    requires u != [] && UnitCount(u) == 0
    ensures !AllPaired(u)
  {
    hide Lead, Trail;
    assert Unpaired(u, 0);
  }

  // ---------- Transcoding ----------

  /** The exception that ends utf16to8: it carries the word after a lead, or else the lone surrogate. */
  function WordFault(rest: seq<bv16>): Option<Exception> {
    if rest == [] then None
    else if Lead(rest[0]) && |rest| > 1 then Some(BadUtf16(rest[1]))
    else Some(BadUtf16(rest[0]))
  }

  /** The word that utf16to8 throws: the one behind a lead surrogate if there is one, else the surrogate itself. */
  lemma ThrowsWord(u: seq<bv16>, p: nat)
    requires p < |u|
    ensures WordFault(u[p..]) == Some(BadUtf16(if 0xD800 <= u[p] <= 0xDBFF && p + 1 < |u| then u[p + 1] else u[p]))
  {
    hide Lead;
    SurrogateRanges(u[p]);
  }

  /** What has been written and what is still to be written make up `goal`, up to the fault at `rest`. */
  predicate OctetsDue(written: seq<bv8>, left: seq<bv16>, goal: seq<bv8>, rest: seq<bv16>) {
    written + EncodeAll(DecodeUnits(left).cps) == goal && DecodeUnits(left).rest == rest
  }

  lemma OctetsDueStart(result: seq<bv8>, u: seq<bv16>)
    ensures OctetsDue(result, u, result + EncodeAll(DecodeUnits(u).cps), DecodeUnits(u).rest)
  {
  }

  lemma OctetsDueNext(written: seq<bv8>, u: seq<bv16>, goal: seq<bv8>, rest: seq<bv16>)
    requires OctetsDue(written, u, goal, rest) && u != [] && UnitCount(u) > 0
    ensures OctetsDue(written + Encode(FrontValue(u)), u[UnitCount(u)..], goal, rest)
  {
    hide Encode, UnitCount, FrontValue;
    var more := DecodeUnits(u[UnitCount(u)..]).cps;
    EncodeCons(FrontValue(u), more);
    assert written + (Encode(FrontValue(u)) + EncodeAll(more)) == written + Encode(FrontValue(u)) + EncodeAll(more);
  }

  lemma OctetsDueStop(written: seq<bv8>, u: seq<bv16>, goal: seq<bv8>, rest: seq<bv16>)
    requires OctetsDue(written, u, goal, rest) && (u == [] || UnitCount(u) == 0)
    ensures written == goal && u == rest
  {
  }

  method Utf16to8(u: seq<bv16>, start: nat, end: nat, result: seq<bv8>)
    returns (thrown: Option<Exception>, result': seq<bv8>)
    requires start <= end <= |u|
    ensures result' == result + EncodeAll(DecodeUnits(u[start..end]).cps)
    ensures thrown == WordFault(DecodeUnits(u[start..end]).rest)
    ensures thrown.None? <==> AllPaired(u[start..end])
  {
    hide Encode, IsCodePointValid, AllPaired, PairValue, Wide16, Narrow16, IsLeadSurrogate, IsTrailSurrogate;
    hide EncodeAll, DecodeUnits, OctetsDue, Joined;
    result' := result;
    ghost var whole := u[start..end];
    ghost var goal, rest := result + EncodeAll(DecodeUnits(whole).cps), DecodeUnits(whole).rest;
    DecodesWhenPaired(whole);
    OctetsDueStart(result, whole);
    var it := start;
    while it != end
      invariant start <= it <= end && OctetsDue(result', u[it..end], goal, rest)
      decreases end - it
    {
      ghost var t, written := u[it..end], result';
      var cp := Wide16(u[it]);
      it := it + 1;
      if IsLeadSurrogate(cp) {
        if it != end {
          var trailSurrogate := Wide16(u[it]);
          it := it + 1;
          if IsTrailSurrogate(trailSurrogate) {
            OffsetDecodes(t[0], t[1]);
            cp := Joined(cp, trailSurrogate);
          } else {
            OctetsDueStop(written, t, goal, rest);
            NarrowWide(t[1]);
            return Some(BadUtf16(Narrow16(trailSurrogate))), result';
          }
        } else {
          OctetsDueStop(written, t, goal, rest);
          NarrowWide(t[0]);
          return Some(BadUtf16(Narrow16(cp))), result';
        }
      } else if IsTrailSurrogate(cp) {
        OctetsDueStop(written, t, goal, rest);
        NarrowWide(t[0]);
        return Some(BadUtf16(Narrow16(cp))), result';
      }
      FrontEncodes(t);
      OctetsDueNext(written, t, goal, rest);
      assert t[UnitCount(t)..] == u[it..end];
      thrown, result' := Append(cp, result');
    }
    OctetsDueStop(result', [], goal, rest);
    thrown := None;
  }

  lemma NarrowWide(w: bv16)
    ensures Narrow16(Wide16(w)) == w
  {
  }

  /** What has been written and what is still to be written make up `goal`, up to the fault. */
  predicate UnitsDue(written: seq<bv16>, left: seq<bv8>, goal: seq<bv16>, fault: Option<Exception>) {
    written + UnitsAll(DecodeAll(left).cps) == goal && DecodingFault(left) == fault
  }

  lemma UnitsDueStart(result: seq<bv16>, s: seq<bv8>)
    ensures UnitsDue(result, s, result + UnitsAll(DecodeAll(s).cps), DecodingFault(s))
  {
  }

  lemma UnitsDueNext(written: seq<bv16>, s: seq<bv8>, goal: seq<bv16>, fault: Option<Exception>)
    requires UnitsDue(written, s, goal, fault) && s != [] && Judge(s).Good?
    ensures UnitsDue(written + Units(Judge(s).cp), s[Judge(s).length..], goal, fault)
  {
    hide Judge, Units;
    var cp, more := Judge(s).cp, DecodeAll(s[Judge(s).length..]).cps;
    DecodingFaultStep(s);
    assert ([cp] + more)[1..] == more;
    assert written + (Units(cp) + UnitsAll(more)) == written + Units(cp) + UnitsAll(more);
  }

  lemma UnitsDueStop(written: seq<bv16>, s: seq<bv8>, goal: seq<bv16>, fault: Option<Exception>)
    requires UnitsDue(written, s, goal, fault) && (s == [] || Judge(s).Bad?)
    ensures written == goal && fault == if s == [] then None else Some(NextFault(s))
  {
    hide Judge;
  }

  method Utf8to16(s: seq<bv8>, start: nat, end: nat, result: seq<bv16>)
    returns (thrown: Option<Exception>, result': seq<bv16>)
    requires start <= end <= |s|
    ensures result' == result + UnitsAll(DecodeAll(s[start..end]).cps)
    ensures thrown == DecodingFault(s[start..end])
    ensures thrown.None? <==> InLanguage(s[start..end])
  {
    hide Judge, NextFault, InLanguage, UnitsDue, HighHalf, LowHalf, LeadWord, TrailWord, Narrow16, IsCodePointValid;
    hide DecodeAll, UnitsAll, DecodingFault;
    result' := result;
    ghost var whole := s[start..end];
    ghost var goal, fault := result + UnitsAll(DecodeAll(whole).cps), DecodingFault(whole);
    DecodingFaultMeans(whole);
    UnitsDueStart(result, whole);
    var it := start;
    while it != end
      invariant start <= it <= end && UnitsDue(result', s[it..end], goal, fault)
      decreases end - it
    {
      ghost var t, written := s[it..end], result';
      var cp;
      thrown, it, cp := Next(s, it, end);
      if thrown.Some? {
        UnitsDueStop(written, t, goal, fault);
        return;
      }
      UnitsDueNext(written, t, goal, fault);
      assert t[Judge(t).length..] == s[it..end];
      GoodIsValid(t);
      if cp > 0xffff {
        AboveBmp(cp);
        OffsetsEncode(cp);
        result' := result' + [LeadWord(cp)];
        result' := result' + [TrailWord(cp)];
        assert result' == written + Units(cp);
      } else {
        InBmp(cp);
        result' := result' + [Narrow16(cp)];
      }
    }
    UnitsDueStop(result', [], goal, fault);
    thrown := None;
  }

  lemma AboveBmp(cp: bv32)
    requires IsCodePointValid(cp) && cp > 0xffff
    ensures 0x10000 <= cp <= CODE_POINT_MAX && !(cp < 0x10000)
  {
  }

  lemma InBmp(cp: bv32)
    requires !(cp > 0xffff)
    ensures cp < 0x10000
  {
  }

  lemma GoodIsValid(s: seq<bv8>)
    requires s != [] && Judge(s).Good?
    ensures IsCodePointValid(Judge(s).cp)
  {
    hide Judge, Utf8Char, Scalar, IsCodePointValid;
    JudgeIsPrefix(s);
    DecodeEncodes(s[..Judge(s).length]);
  }

  // ---------- Transcoding back ----------

  /** From UTF-8 to UTF-16 and back is the identity on valid UTF-8, and the units are well formed. */
  lemma OctetsComeBack(s: seq<bv8>)
    requires InLanguage(s)
    ensures var u := UnitsAll(DecodeAll(s).cps); AllPaired(u) && EncodeAll(DecodeUnits(u).cps) == s
  {
    hide InLanguage, AllPaired;
    LanguageIsDecodable(s);
    DecodeThenEncode(s);
    UnitsThenDecode(DecodeAll(s).cps);
    DecodesWhenPaired(UnitsAll(DecodeAll(s).cps));
  }

  /** From UTF-16 to UTF-8 and back is the identity on well-formed UTF-16, and the octets are valid. */
  lemma UnitsComeBack(u: seq<bv16>)
    requires AllPaired(u)
    ensures var s := EncodeAll(DecodeUnits(u).cps); InLanguage(s) && UnitsAll(DecodeAll(s).cps) == u
  {
    hide InLanguage, AllPaired;
    var cps := DecodeUnits(u).cps;
    DecodesWhenPaired(u);
    DecodeThenUnits(u);
    DecodedUnitsAreValid(u);
    assert UnitsAll(cps) + [] == UnitsAll(cps);
    EncodeThenDecode(cps);
    LanguageIsDecodable(EncodeAll(cps));
  }
}
