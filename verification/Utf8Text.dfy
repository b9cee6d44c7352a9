/**
  * Octet strings as a whole: decoding and encoding are inverse to each other, encoding keeps the
  * order, and sequence starts can be told without decoding.
  */
module Utf8Text {
  import opened Utf8Core

  // ---------- Encoding and decoding strings ----------

  predicate AllValid(cps: seq<bv32>) {
    forall i | 0 <= i < |cps| :: IsCodePointValid(cps[i])
  }

  function EncodeAll(cps: seq<bv32>): seq<bv8> {
    if cps == [] then [] else Encode(cps[0]) + EncodeAll(cps[1..])
  }

  /** The code points up to the first sequence that cannot be decoded, and what remains from there. */
  datatype Decoded = Decoded(cps: seq<bv32>, rest: seq<bv8>)

  function DecodeAll(s: seq<bv8>): (d: Decoded)
    ensures |d.rest| <= |s|
    decreases |s|
  {
    if s == [] then Decoded([], [])
    else match Judge(s)
      case Bad(_) => Decoded([], s)
      case Good(n, cp) =>
        var d := DecodeAll(s[n..]);
        Decoded([cp] + d.cps, d.rest)
  }

  /** UTF8-octets of the grammar: a sequence of characters. */
  ghost predicate InLanguage(s: seq<bv8>) {
    exists parts: seq<seq<bv8>> :: AllChars(parts) && Flatten(parts) == s
  }

  ghost predicate AllChars(parts: seq<seq<bv8>>) {
    forall p | p in parts :: Utf8Char(p)
  }

  ghost function Flatten(parts: seq<seq<bv8>>): seq<bv8> {
    if parts == [] then [] else parts[0] + Flatten(parts[1..])
  }

  /** What was decoded is encoded back, in front of what remains. */
  lemma {:induction false} DecodeSplits(s: seq<bv8>)
    ensures var d := DecodeAll(s); s == EncodeAll(d.cps) + d.rest && (d.rest != [] ==> Judge(d.rest).Bad?)
    decreases |s|
  {
    hide Judge, Utf8Char, Scalar, Encode, IsCodePointValid;
    if s != [] && Judge(s).Good? {
      var n := Judge(s).length;
      JudgeIsPrefix(s);
      DecodeEncodes(s[..n]);
      DecodeSplits(s[n..]);
      var d := DecodeAll(s[n..]);
      EncodeCons(Judge(s).cp, d.cps);
      Regroup(s, n, Encode(Judge(s).cp), EncodeAll(d.cps), d.rest);
    }
  }

  lemma Regroup(s: seq<bv8>, n: nat, e: seq<bv8>, more: seq<bv8>, rest: seq<bv8>)
    requires n <= |s| && e == s[..n] && s[n..] == more + rest
    ensures s == e + more + rest
  {
  }

  lemma {:induction false} DecodedAreValid(s: seq<bv8>)
    ensures AllValid(DecodeAll(s).cps)
    decreases |s|
  {
    hide Judge, Utf8Char, Scalar, IsCodePointValid;
    if s != [] && Judge(s).Good? {
      var n := Judge(s).length;
      JudgeIsPrefix(s);
      DecodeEncodes(s[..n]);
      DecodedAreValid(s[n..]);
    }
  }

  lemma EncodeCons(cp: bv32, cps: seq<bv32>)
    ensures EncodeAll([cp] + cps) == Encode(cp) + EncodeAll(cps)
  {
    hide Encode;
    assert ([cp] + cps)[1..] == cps;
  }

  /** Decoding goes through an encoded string and on with what follows it. */
  lemma {:induction false} DecodeOfEncode(cps: seq<bv32>, t: seq<bv8>)
    requires AllValid(cps)
    ensures DecodeAll(EncodeAll(cps) + t) == Decoded(cps + DecodeAll(t).cps, DecodeAll(t).rest)
    decreases |cps|
  {
    hide Judge, Encode, IsCodePointValid, DecodeAll;
    if cps == [] {
      assert EncodeAll(cps) + t == t;
    } else {
      var more := EncodeAll(cps[1..]) + t;
      assert EncodeAll(cps) + t == Encode(cps[0]) + more;
      DecodeStep(cps[0], more);
      DecodeOfEncode(cps[1..], t);
      assert [cps[0]] + (cps[1..] + DecodeAll(t).cps) == cps + DecodeAll(t).cps;
    }
  }

  lemma DecodeStep(cp: bv32, t: seq<bv8>)
    requires IsCodePointValid(cp)
    ensures DecodeAll(Encode(cp) + t) == Decoded([cp] + DecodeAll(t).cps, DecodeAll(t).rest)
    ensures Judge(Encode(cp) + t) == Good(|Encode(cp)|, cp)
  {
    hide Judge, Utf8Char, Scalar, Encode, IsCodePointValid;
    var e := Encode(cp);
    var s := e + t;
    EncodeDecodes(cp);
    assert s[..|e|] == e && s[|e|..] == t;
    JudgeFindsPrefix(s, |e|);
  }

  /** `utf8to32` after `utf32to8` is the identity on valid code points. */
  lemma EncodeThenDecode(cps: seq<bv32>)
    requires AllValid(cps)
    ensures DecodeAll(EncodeAll(cps)) == Decoded(cps, [])
  {
    DecodeOfEncode(cps, []);
    assert EncodeAll(cps) + [] == EncodeAll(cps);
    assert cps + [] == cps;
  }

  /** Whenever an octet string decodes, encoding the result gives exactly that string. */
  lemma DecodeThenEncode(s: seq<bv8>)
    requires DecodeAll(s).rest == []
    ensures AllValid(DecodeAll(s).cps) && EncodeAll(DecodeAll(s).cps) == s
  {
    DecodedAreValid(s);
    DecodeSplits(s);
    assert EncodeAll(DecodeAll(s).cps) + [] == EncodeAll(DecodeAll(s).cps);
  }

  lemma {:induction false} FlattenEncodes(parts: seq<seq<bv8>>) returns (cps: seq<bv32>)
    requires AllChars(parts)
    ensures AllValid(cps) && EncodeAll(cps) == Flatten(parts)
  {
    if parts == [] {
      cps := [];
    } else {
      DecodeEncodes(parts[0]);
      var more := FlattenEncodes(parts[1..]);
      cps := [Scalar(parts[0])] + more;
      assert cps[1..] == more;
    }
  }

  lemma {:induction false} EncodeFlattens(cps: seq<bv32>) returns (parts: seq<seq<bv8>>)
    requires AllValid(cps)
    ensures AllChars(parts) && Flatten(parts) == EncodeAll(cps)
  {
    if cps == [] {
      parts := [];
    } else {
      EncodeDecodes(cps[0]);
      var more := EncodeFlattens(cps[1..]);
      parts := [Encode(cps[0])] + more;
      assert parts[1..] == more;
    }
  }

  /** Decoding succeeds on exactly the language of the grammar. */
  lemma LanguageIsDecodable(s: seq<bv8>)
    ensures InLanguage(s) <==> DecodeAll(s).rest == []
  {
    if InLanguage(s) {
      var parts :| AllChars(parts) && Flatten(parts) == s;
      var cps := FlattenEncodes(parts);
      EncodeThenDecode(cps);
    }
    if DecodeAll(s).rest == [] {
      DecodeThenEncode(s);
      var parts := EncodeFlattens(DecodeAll(s).cps);
    }
  }

  /** Where decoding stops is the end of the longest prefix in the language. */
  lemma LongestRun(s: seq<bv8>, q: nat)
    requires q <= |s|
    ensures var p := |s| - |DecodeAll(s).rest|;
            InLanguage(s[..p]) && (InLanguage(s[..q]) ==> q <= p)
  {
    hide Judge, DecodeAll, EncodeAll, InLanguage, Utf8Char, Scalar, Encode, IsCodePointValid;
    var d := DecodeAll(s);
    var p := |s| - |d.rest|;
    DecodeSplits(s);
    DecodedAreValid(s);
    assert s[..p] == EncodeAll(d.cps);
    EncodeThenDecode(d.cps);
    LanguageIsDecodable(s[..p]);
    LanguageIsDecodable(s[..q]);
    if InLanguage(s[..q]) {
      DecodeThenEncode(s[..q]);
      DecodeOfEncode(DecodeAll(s[..q]).cps, s[q..]);
      assert s[..q] + s[q..] == s;
    }
  }

  // ---------- Sequence starts ----------

  /** How many octets are no continuation octets. */
  function CountStarts(s: seq<bv8>): nat {
    if s == [] then 0 else (if IsTrail(s[0]) then 0 else 1) + CountStarts(s[1..])
  }

  lemma {:induction false} CountStartsConcat(a: seq<bv8>, b: seq<bv8>)
    ensures CountStarts(a + b) == CountStarts(a) + CountStarts(b)
  {
    if a == [] {
      assert a + b == b;
    } else {
      assert (a + b)[1..] == a[1..] + b;
      CountStartsConcat(a[1..], b);
    }
  }

  lemma {:induction false} CountStartsOfTrails(s: seq<bv8>)
    requires forall i | 0 <= i < |s| :: IsTrail(s[i])
    ensures CountStarts(s) == 0
  {
    if s != [] {
      CountStartsOfTrails(s[1..]);
    }
  }

  /** A valid string has as many code points as octets that are no continuation octets. */
  lemma {:induction false} LengthIsStarts(s: seq<bv8>)
    requires DecodeAll(s).rest == []
    ensures |DecodeAll(s).cps| == CountStarts(s)
    decreases |s|
  {
    hide Judge, Utf8Char, Scalar;
    if s != [] {
      var n := Judge(s).length;
      JudgeIsPrefix(s);
      CharShape(s[..n]);
      LengthIsStarts(s[n..]);
      assert s == [s[0]] + (s[1..n] + s[n..]);
      assert forall i | 0 <= i < n - 1 :: s[1..n][i] == s[..n][i + 1];
      CountStartsOfTrails(s[1..n]);
      CountStartsConcat(s[1..n], s[n..]);
      assert s[1..] == s[1..n] + s[n..];
    }
  }

  lemma LanguageConcat(a: seq<bv8>, b: seq<bv8>)
    requires InLanguage(a)
    ensures InLanguage(a + b) <==> InLanguage(b)
  {
    LanguageIsDecodable(a);
    LanguageIsDecodable(b);
    LanguageIsDecodable(a + b);
    DecodeThenEncode(a);
    DecodeOfEncode(DecodeAll(a).cps, b);
  }

  lemma CharInLanguage(o: seq<bv8>)
    requires Utf8Char(o)
    ensures InLanguage(o)
  {
    assert Flatten([o]) == o;
    assert AllChars([o]);
  }

  /** In a valid string a sequence starts exactly at the octets that are no continuation octets. */
  lemma {:induction false} StartsAreLeads(s: seq<bv8>, p: nat)
    requires InLanguage(s) && p < |s|
    ensures InLanguage(s[..p]) <==> !IsTrail(s[p])
    decreases |s|
  {
    hide Judge, Utf8Char, Scalar, InLanguage, IsTrail;
    var n := FirstCharacter(s);
    if p == 0 {
      LanguageIsDecodable([]);
      assert s[..0] == [];
    } else if p < n {
      InsideFirst(s, n, p);
    } else {
      StartsAreLeads(s[n..], p - n);
      assert s[..p] == s[..n] + s[n..][..p - n];
      LanguageConcat(s[..n], s[n..][..p - n]);
    }
  }

  /** A valid string is a character and a valid string. */
  lemma FirstCharacter(s: seq<bv8>) returns (n: nat)
    requires InLanguage(s) && s != []
    ensures 0 < n <= |s| && Utf8Char(s[..n]) && InLanguage(s[..n]) && InLanguage(s[n..]) && !IsTrail(s[0])
  {
    hide Judge, Utf8Char, Scalar, InLanguage, IsTrail;
    LanguageIsDecodable(s);
    n := Judge(s).length;
    JudgeIsPrefix(s);
    CharShape(s[..n]);
    CharInLanguage(s[..n]);
    assert s == s[..n] + s[n..];
    LanguageConcat(s[..n], s[n..]);
  }

  lemma InsideFirst(s: seq<bv8>, n: nat, p: nat)
    requires 0 < p < n <= |s| && Utf8Char(s[..n])
    ensures !InLanguage(s[..p]) && IsTrail(s[p])
  {
    hide Utf8Char, InLanguage, IsTrail;
    CharShape(s[..n]);
    assert s[p] == s[..n][p];
    ShorterIsNoString(s[..n], p);
    assert s[..n][..p] == s[..p];
  }

  /** No proper non-empty prefix of a character is a string of the language: encodings are prefix free. */
  lemma ShorterIsNoString(o: seq<bv8>, p: nat)
    requires Utf8Char(o) && 0 < p < |o|
    ensures !InLanguage(o[..p])
  {
    LanguageIsDecodable(o[..p]);
    CharShape(o);
    assert SequenceLength(o[..p][0]) == |o| > p;
  }
}
