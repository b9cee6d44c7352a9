/**
  * The checked functions on ranges of octets or code points, and the decision whether a range is valid.
  */
module Utf8Ranges {
  import opened Text
  import opened Utf8Core
  import opened Utf8Checked
  import opened Utf8Text
  import opened Utf8Repair
  import opened Utf8Functions

  /** The exception that ends decoding. */
  function DecodingFault(s: seq<bv8>): Option<Exception> {
    var rest := DecodeAll(s).rest;
    if rest == [] then None else if Judge(rest).Good? then None else Some(NextFault(rest))
  }

  lemma DecodingFaultStep(s: seq<bv8>)
    requires s != []
    ensures DecodingFault(s) == if Judge(s).Good? then DecodingFault(s[Judge(s).length..]) else Some(NextFault(s))
  {
    hide Judge;
  }

  lemma {:induction false} DecodingFaultMeans(s: seq<bv8>)
    ensures DecodingFault(s).None? <==> InLanguage(s)
  {
    hide Judge, InLanguage, DecodeAll;
    DecodeSplits(s);
    LanguageIsDecodable(s);
  }

  /** The position after `n` code points, if decoding gets that far. */
  method Advance(s: seq<bv8>, it: nat, n: nat, end: nat) returns (thrown: Option<Exception>, it': nat)
    requires it <= end <= |s|
    requires var d := DecodeAll(s[it..end]); d.rest != [] || n <= |d.cps|
    ensures var d := DecodeAll(s[it..end]);
            if n <= |d.cps| then thrown == None && it' == it + |EncodeAll(d.cps[..n])|
            else thrown == DecodingFault(s[it..end]) && it' == end - |d.rest|
  {
    hide Judge, Encode, NextFault;
    ghost var t := s[it..end];
    it' := it;
    for i := 0 to n
      invariant it <= it' <= end
      invariant var d, e := DecodeAll(t), DecodeAll(s[it'..end]);
                && i <= |d.cps| && it' == it + |EncodeAll(d.cps[..i])|
                && e == Decoded(d.cps[i..], d.rest)
                && DecodingFault(s[it'..end]) == DecodingFault(t)
    {
      ghost var u := s[it'..end];
      var cp;
      DecodingFaultStep(u);
      thrown, it', cp := Next(s, it', end);
      if thrown.Some? {
        return;
      }
      assert DecodeAll(u).cps[0] == Judge(u).cp;
      AdvanceStep(DecodeAll(t).cps, u, i);
      assert u[Judge(u).length..] == s[it'..end];
    }
    thrown := None;
  }

  lemma AdvanceStep(cps: seq<bv32>, u: seq<bv8>, i: nat)
    requires u != [] && Judge(u).Good? && i < |cps| && DecodeAll(u).cps == cps[i..]
    ensures |EncodeAll(cps[..i + 1])| == |EncodeAll(cps[..i])| + Judge(u).length
    ensures DecodeAll(u[Judge(u).length..]).cps == cps[i + 1..]
  {
    hide Judge, Encode, Utf8Char, Scalar, IsCodePointValid;
    var n := Judge(u).length;
    JudgeIsPrefix(u);
    DecodeEncodes(u[..n]);
    EncodeSnoc(cps[..i], cps[i]);
    assert cps[..i + 1] == cps[..i] + [cps[i]];
  }

  lemma {:induction false} EncodeSnoc(cps: seq<bv32>, cp: bv32)
    ensures EncodeAll(cps + [cp]) == EncodeAll(cps) + Encode(cp)
  {
    hide Encode;
    if cps == [] {
      assert cps + [cp] == [cp];
    } else {
      assert (cps + [cp])[1..] == cps[1..] + [cp];
      EncodeSnoc(cps[1..], cp);
    }
  }

  lemma SliceSnoc(cps: seq<bv32>, start: nat, i: nat)
    requires start <= i < |cps|
    ensures cps[start..i + 1] == cps[start..i] + [cps[i]]
  {
  }

  /** The number of code points: that of the octets that are no continuation octets. */
  method Distance(s: seq<bv8>, first: nat, last: nat) returns (thrown: Option<Exception>, dist: nat)
    requires first <= |s| && last <= |s|
    ensures first >= last ==> thrown == None && dist == 0
    ensures first < last ==> thrown == DecodingFault(s[first..last]) && dist == |DecodeAll(s[first..last]).cps|
    ensures first < last && InLanguage(s[first..last]) ==>
              thrown == None && dist == CountStarts(s[first..last])
  {
    hide Judge, NextFault, IsTrail, InLanguage;
    dist := 0;
    if first < last {
      DecodingFaultMeans(s[first..last]);
      LanguageIsDecodable(s[first..last]);
      if InLanguage(s[first..last]) {
        LengthIsStarts(s[first..last]);
      }
    }
    var first' := first;
    while first' < last
      invariant first <= first' && (first < last ==> first' <= last)
      invariant first < last ==>
                  && dist + |DecodeAll(s[first'..last]).cps| == |DecodeAll(s[first..last]).cps|
                  && DecodingFault(s[first'..last]) == DecodingFault(s[first..last])
      invariant first >= last ==> dist == 0
      decreases last - first'
    {
      ghost var u := s[first'..last];
      var cp;
      DecodingFaultStep(u);
      thrown, first', cp := Next(s, first', last);
      if thrown.Some? {
        return;
      }
      assert u[Judge(u).length..] == s[first'..last];
      dist := dist + 1;
    }
    thrown := None;
  }

  method Utf8to32(s: seq<bv8>, start: nat, end: nat, result: seq<bv32>)
    returns (thrown: Option<Exception>, result': seq<bv32>)
    requires start <= end <= |s|
    ensures result' == result + DecodeAll(s[start..end]).cps
    ensures thrown == DecodingFault(s[start..end])
    ensures thrown.None? <==> InLanguage(s[start..end])
  {
    hide Judge, NextFault, InLanguage;
    result' := result;
    DecodingFaultMeans(s[start..end]);
    var it := start;
    while it != end
      invariant start <= it <= end
      invariant result' + DecodeAll(s[it..end]).cps == result + DecodeAll(s[start..end]).cps
      invariant DecodingFault(s[it..end]) == DecodingFault(s[start..end])
      decreases end - it
    {
      ghost var u := s[it..end];
      var cp;
      DecodingFaultStep(u);
      thrown, it, cp := Next(s, it, end);
      if thrown.Some? {
        return;
      }
      assert u[Judge(u).length..] == s[it..end];
      result' := result' + [cp];
    }
    thrown := None;
  }

  /** How many code points come before the first invalid one. */
  function ValidRun(cps: seq<bv32>): (k: nat)
    ensures k <= |cps| && AllValid(cps[..k]) && (k < |cps| ==> !IsCodePointValid(cps[k]))
  {
    if cps == [] || !IsCodePointValid(cps[0]) then 0 else 1 + ValidRun(cps[1..])
  }

  method Utf32to8(cps: seq<bv32>, start: nat, end: nat, result: seq<bv8>)
    returns (thrown: Option<Exception>, result': seq<bv8>)
    requires start <= end <= |cps|
    ensures var k := ValidRun(cps[start..end]);
            && result' == result + EncodeAll(cps[start..start + k])
            && thrown == if start + k == end then None else Some(BadCodePoint(cps[start + k]))
  {
    hide Encode, IsCodePointValid;
    result' := result;
    ghost var k := ValidRun(cps[start..end]);
    var it := start;
    while it != end
      invariant start <= it <= start + k <= end
      invariant result' == result + EncodeAll(cps[start..it])
      decreases end - it
    {
      if it < start + k {
        assert cps[it] == cps[start..end][..k][it - start];
      } else {
        assert cps[it] == cps[start..end][k];
      }
      ghost var before := result';
      thrown, result' := Append(cps[it], result');
      if thrown.Some? {
        return;
      }
      EncodeSnoc(cps[start..it], cps[it]);
      SliceSnoc(cps, start, it);
      it := it + 1;
    }
    thrown := None;
  }

  // ---------- Validation ----------

  /** The end of the longest run from the start that is in the language. */
  method FindInvalid(s: seq<bv8>, start: nat, end: nat) returns (result: nat)
    requires start <= end <= |s|
    ensures start <= result <= end && InLanguage(s[start..result])
    ensures forall q | result < q <= end :: !InLanguage(s[start..q])
  {
    hide Judge, InLanguage;
    result := start;
    ghost var t := s[start..end];
    while result != end
      invariant start <= result <= end
      invariant DecodeAll(s[result..end]).rest == DecodeAll(t).rest
      decreases end - result
    {
      ghost var u := s[result..end];
      var err, cp;
      err, result, cp := ValidateNext(s, result, end, 0);
      if err != None {
        break;
      }
      assert u[Judge(u).length..] == s[result..end];
    }
    assert result == end - |DecodeAll(t).rest|;
    LongestRun(t, 0);
    assert t[..result - start] == s[start..result];
    forall q | result < q <= end ensures !InLanguage(s[start..q]) {
      LongestRun(t, q - start);
      assert t[..q - start] == s[start..q];
    }
  }

  method IsValid(s: seq<bv8>, start: nat, end: nat) returns (r: bool)
    requires start <= end <= |s|
    ensures r <==> InLanguage(s[start..end])
  {
    var at := FindInvalid(s, start, end);
    r := at == end;
  }
}
