/**
  * The unchecked functions. They have no end to stop at and raise no errors; on valid input they give
  * what the checked ones give, and every index below is one they read, so none is outside the range.
  */
module Utf8Unchecked {
  import opened Utf8Core
  import opened Utf8Checked
  import opened Utf8Text
  import opened Utf8Functions
  import opened Utf8Ranges
  import opened Utf16

  // ---------- One code point ----------

  method Append(cp: bv32, result: seq<bv8>) returns (result': seq<bv8>)
    ensures result' == result + Encode(cp)
  {
    result' := result;
    if cp < 0x80 {
      result' := result' + [Narrow(cp)];
    } else if cp < 0x800 {
      result' := result' + [Narrow((cp >> 6) | 0xc0)];
      result' := result' + [Narrow((cp & 0x3f) | 0x80)];
    } else if cp < 0x10000 {
      result' := result' + [Narrow((cp >> 12) | 0xe0)];
      result' := result' + [Narrow(((cp >> 6) & 0x3f) | 0x80)];
      result' := result' + [Narrow((cp & 0x3f) | 0x80)];
    } else {
      result' := result' + [Narrow((cp >> 18) | 0xf0)];
      result' := result' + [Narrow(((cp >> 12) & 0x3f) | 0x80)];
      result' := result' + [Narrow(((cp >> 6) & 0x3f) | 0x80)];
      result' := result' + [Narrow((cp & 0x3f) | 0x80)];
    }
  }

  /** How far the unchecked `next` moves, whatever the octets. */
  function Stride(lead: bv8): (n: nat)
    ensures 1 <= n <= 4
  {
    if SequenceLength(lead) == 0 then 1 else SequenceLength(lead)
  }

  /** The value the unchecked `next` computes, whatever the octets. */
  function RawValue(s: seq<bv8>): bv32
    requires s != [] && Stride(s[0]) <= |s|
  {
    if SequenceLength(s[0]) == 0 then Wide(s[0]) else SumOf(s)
  }

  method Next(s: seq<bv8>, it: nat) returns (it': nat, cp: bv32)
    requires it < |s| && it + Stride(s[it]) <= |s|
    ensures it' == it + Stride(s[it]) && cp == RawValue(s[it..])
  {
    hide Wide, IsTrail;
    it', cp := it, Wide(s[it]);
    var length := SequenceLength(s[it]);
    if length == 2 {
      it' := it' + 1;
      cp := ((cp << 6) & 0x7ff) + (Wide(s[it']) & 0x3f);
    } else if length == 3 {
      it' := it' + 1;
      cp := ((cp << 12) & 0xffff) + ((Wide(s[it']) << 6) & 0xfff);
      it' := it' + 1;
      cp := cp + (Wide(s[it']) & 0x3f);
    } else if length == 4 {
      it' := it' + 1;
      cp := ((cp << 18) & 0x1fffff) + ((Wide(s[it']) << 12) & 0x3ffff);
      it' := it' + 1;
      cp := cp + ((Wide(s[it']) << 6) & 0xfff);
      it' := it' + 1;
      cp := cp + (Wide(s[it']) & 0x3f);
    }
    it' := it' + 1;
  }

  lemma GoodReads(s: seq<bv8>)
    requires s != [] && Judge(s).Good?
    ensures Stride(s[0]) == Judge(s).length && RawValue(s) == Judge(s).cp
  {
    hide Utf8Char, Scalar, SumOf, IsCodePointValid, IsOverlongSequence, SequenceLength, BeyondCodePoints;
    var n := Judge(s).length;
    JudgeIsPrefix(s);
    CharHasTrails(s, n);
    JudgedByChecks(s, SumOf(s));
  }

  lemma JudgedWithin(s: seq<bv8>, n: nat)
    requires 0 < n <= |s| && Judge(s[..n]).Good?
    ensures Judge(s) == Judge(s[..n])
  {
    hide Utf8Char, Scalar;
    var m := Judge(s[..n]).length;
    JudgeIsPrefix(s[..n]);
    assert s[..n][..m] == s[..m];
    JudgeFindsPrefix(s, m);
  }

  /**
    * Where the checked `next` finds a character before `end`, the unchecked one moves to the same
    * position and gives the same code point, reading nothing at or behind `end`.
    */
  lemma NextAgrees(s: seq<bv8>, it: nat, end: nat)
    requires it < end <= |s| && Judge(s[it..end]).Good?
    ensures var j := Judge(s[it..end]);
            it + Stride(s[it]) == it + j.length <= end && RawValue(s[it..]) == j.cp
  {
    hide Judge, SumOf, Wide, SequenceLength;
    assert s[it..][..end - it] == s[it..end];
    JudgedWithin(s[it..], end - it);
    GoodReads(s[it..]);
  }

  method PeekNext(s: seq<bv8>, it: nat) returns (cp: bv32)
    requires it < |s| && it + Stride(s[it]) <= |s|
    ensures cp == RawValue(s[it..])
  {
    var it';
    it', cp := Next(s, it);
  }

  // ---------- Stepping ----------

  /** On valid text between `start` and `it`, what the checked `prior` gives. */
  method Prior(s: seq<bv8>, it: nat, ghost start: nat) returns (it': nat, cp: bv32)
    requires start < it <= |s| && InLanguage(s[start..it])
    ensures StepsBack(s, start, it, it') && Judge(s[it'..it]) == Good(it - it', cp)
  {
    hide Judge, IsTrail, InLanguage, RawValue, Stride;
    ghost var p := CharacterBefore(s, it, start);
    it' := it - 1;
    while IsTrail(s[it'])
      invariant p <= it' < it && forall i | it' < i < it :: IsTrail(s[i])
      decreases it'
    {
      it' := it' - 1;
    }
    NextAgrees(s, it', it);
    cp := PeekNext(s, it');
  }

  lemma CharacterBefore(s: seq<bv8>, it: nat, start: nat) returns (p: nat)
    requires start < it <= |s| && InLanguage(s[start..it])
    ensures StepsBack(s, start, it, p) && Judge(s[p..it]).Good? && Judge(s[p..it]).length == it - p
  {
    hide Judge, IsTrail, InLanguage;
    var t := s[start..it];
    assert t[..it - start] == t;
    var q := NextUndoesPrior(t, it - start);
    p := start + q;
    assert forall i | 0 <= i < |t| :: t[i] == s[start + i];
    assert forall i | p < i < it :: s[i] == t[i - start];
    assert t[q..] == s[p..it];
  }

  /** Where a valid text still has code points, a character starts. */
  lemma CharacterAhead(s: seq<bv8>, it: nat, end: nat)
    requires it < end <= |s| && InLanguage(s[it..end])
    ensures Judge(s[it..end]).Good? && it + Judge(s[it..end]).length <= end
    ensures var n, d := Judge(s[it..end]).length, DecodeAll(s[it..end]);
            && InLanguage(s[it + n..end])
            && d.cps == [Judge(s[it..end]).cp] + DecodeAll(s[it + n..end]).cps
  {
    hide Judge, InLanguage;
    LanguageIsDecodable(s[it..end]);
    var n := Judge(s[it..end]).length;
    assert s[it..end][n..] == s[it + n..end];
    LanguageIsDecodable(s[it + n..end]);
  }

  /** The position the checked `advance` reaches. */
  method Advance(s: seq<bv8>, it: nat, n: nat, ghost end: nat) returns (it': nat)
    requires it <= end <= |s| && InLanguage(s[it..end]) && n <= |DecodeAll(s[it..end]).cps|
    ensures it' == it + |EncodeAll(DecodeAll(s[it..end]).cps[..n])| <= end
  {
    hide Judge, InLanguage, RawValue, Stride, DecodeAll, EncodeAll;
    ghost var cps := DecodeAll(s[it..end]).cps;
    it' := it;
    NothingEncoded();
    for i := 0 to n
      invariant it <= it' <= end && InLanguage(s[it'..end])
      invariant DecodeAll(s[it'..end]).cps == cps[i..]
      invariant it' == it + |EncodeAll(cps[..i])|
    {
      NotAtEnd(s[it'..end]);
      CharacterAhead(s, it', end);
      AdvanceStep(cps, s[it'..end], i);
      NextAgrees(s, it', end);
      var cp;
      it', cp := Next(s, it');
    }
  }

  lemma NothingEncoded()
    ensures EncodeAll([]) == []
  {
  }

  lemma NotAtEnd(s: seq<bv8>)
    requires DecodeAll(s).cps != []
    ensures s != []
  {
  }

  method Distance(s: seq<bv8>, first: nat, last: nat) returns (dist: nat)
    requires first <= |s| && last <= |s| && (first < last ==> InLanguage(s[first..last]))
    ensures dist == if first < last then |DecodeAll(s[first..last]).cps| else 0
    ensures first < last ==> dist == CountStarts(s[first..last])
  {
    hide Judge, InLanguage, RawValue, Stride, DecodeAll;
    if first < last {
      LanguageIsDecodable(s[first..last]);
      LengthIsStarts(s[first..last]);
    }
    NothingDecoded();
    var first' := first;
    dist := 0;
    while first' < last
      invariant first < last ==>
                  && first <= first' <= last && InLanguage(s[first'..last])
                  && dist + |DecodeAll(s[first'..last]).cps| == |DecodeAll(s[first..last]).cps|
      invariant first >= last ==> first' == first && dist == 0
      decreases last - first'
    {
      CharacterAhead(s, first', last);
      NextAgrees(s, first', last);
      var cp;
      first', cp := Next(s, first');
      dist := dist + 1;
    }
  }

  lemma NothingDecoded()
    ensures DecodeAll([]).cps == []
  {
  }

  /** `++` on the unchecked iterator moves by the announced length alone: as far as decoding would. */
  lemma IncrementAgrees(s: seq<bv8>, it: nat, end: nat)
    requires it < end <= |s| && Judge(s[it..end]).Good?
    ensures SequenceLength(s[it]) == Judge(s[it..end]).length
  {
    hide Utf8Char, Scalar;
    JudgeIsPrefix(s[it..end]);
    CharShape(s[it..end][..Judge(s[it..end]).length]);
  }

  // ---------- Transcoding ----------

  method Utf8to32(s: seq<bv8>, start: nat, end: nat, result: seq<bv32>) returns (result': seq<bv32>)
    requires start <= end <= |s| && InLanguage(s[start..end])
    ensures result' == result + DecodeAll(s[start..end]).cps
  {
    hide Judge, InLanguage, RawValue, Stride, DecodeAll;
    NothingDecoded();
    result' := result;
    var it := start;
    while it < end
      invariant start <= it <= end && InLanguage(s[it..end])
      invariant result' + DecodeAll(s[it..end]).cps == result + DecodeAll(s[start..end]).cps
      decreases end - it
    {
      CharacterAhead(s, it, end);
      NextAgrees(s, it, end);
      var cp;
      it, cp := Next(s, it);
      result' := result' + [cp];
    }
  }

  /** Encodes every value, also those that the checked function refuses. */
  method Utf32to8(cps: seq<bv32>, start: nat, end: nat, result: seq<bv8>) returns (result': seq<bv8>)
    requires start <= end <= |cps|
    ensures result' == result + EncodeAll(cps[start..end])
  {
    hide Encode;
    result' := result;
    var it := start;
    while it != end
      invariant start <= it <= end && result' == result + EncodeAll(cps[start..it])
    {
      EncodeSnoc(cps[start..it], cps[it]);
      SliceSnoc(cps, start, it);
      result' := Append(cps[it], result');
      it := it + 1;
    }
  }

  method Utf8to16(s: seq<bv8>, start: nat, end: nat, result: seq<bv16>) returns (result': seq<bv16>)
    requires start <= end <= |s| && InLanguage(s[start..end])
    ensures result' == result + UnitsAll(DecodeAll(s[start..end]).cps)
  {
    hide Judge, InLanguage, RawValue, Stride, DecodeAll, UnitsAll, UnitsDue;
    hide HighHalf, LowHalf, LeadWord, TrailWord, Narrow16, IsCodePointValid, DecodingFault;
    ghost var goal, fault := result + UnitsAll(DecodeAll(s[start..end]).cps), DecodingFault(s[start..end]);
    UnitsDueStart(result, s[start..end]);
    result' := result;
    var it := start;
    while it < end
      invariant start <= it <= end && InLanguage(s[it..end]) && UnitsDue(result', s[it..end], goal, fault)
      decreases end - it
    {
      ghost var t, written := s[it..end], result';
      CharacterAhead(s, it, end);
      NextAgrees(s, it, end);
      UnitsDueNext(written, t, goal, fault);
      GoodIsValid(t);
      var cp;
      it, cp := Next(s, it);
      assert t[Judge(t).length..] == s[it..end];
      if cp > 0xffff {
        AboveBmp(cp);
        OffsetsEncode(cp);
        result' := result' + [LeadWord(cp)];
        result' := result' + [TrailWord(cp)];
        assert result' == written + Units(cp);
      } else {
        InBmp(cp);
        result' := result' + [Narrow16(cp)];
      }
    }
    assert s[it..end] == [];
    UnitsDueStop(result', [], goal, fault);
  }

  /** Reads the word after a lead without looking whether there is one. */
  method Utf16to8(u: seq<bv16>, start: nat, end: nat, result: seq<bv8>) returns (result': seq<bv8>)
    requires start <= end <= |u| && AllPaired(u[start..end])
    ensures result' == result + EncodeAll(DecodeUnits(u[start..end]).cps)
  {
    hide Encode, IsCodePointValid, AllPaired, PairValue, Wide16, Narrow16, IsLeadSurrogate, IsTrailSurrogate;
    hide EncodeAll, DecodeUnits, OctetsDue, Joined;
    result' := result;
    ghost var whole := u[start..end];
    ghost var goal, rest := result + EncodeAll(DecodeUnits(whole).cps), DecodeUnits(whole).rest;
    OctetsDueStart(result, whole);
    var it := start;
    while it != end
      invariant start <= it <= end && AllPaired(u[it..end]) && OctetsDue(result', u[it..end], goal, rest)
      decreases end - it
    {
      ghost var t, written := u[it..end], result';
      PairedFront(t);
      OctetsDueNext(written, t, goal, rest);
      PairedBehind(t);
      var cp := Wide16(u[it]);
      it := it + 1;
      if IsLeadSurrogate(cp) {
        var trailSurrogate := Wide16(u[it]);
        it := it + 1;
        OffsetDecodes(t[0], t[1]);
        cp := Joined(cp, trailSurrogate);
      }
      result' := Append(cp, result');
      assert t[UnitCount(t)..] == u[it..end];
    }
    OctetsDueStop(result', [], goal, rest);
  }

  lemma PairedFront(u: seq<bv16>)
    requires u != [] && AllPaired(u)
    ensures UnitCount(u) > 0
  {
    hide AllPaired, Lead, Trail;
    if UnitCount(u) == 0 {
      FrontUnpaired(u);
    }
  }
}
