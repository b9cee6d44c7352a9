/**
  * Comparing UTF-8 strings octet by octet is comparing their code points.
  */
module Utf8Order {
  import opened Utf8Core
  import opened Utf8Text

  predicate OctetBelow(a: bv8, b: bv8) {
    a < b
  }

  predicate Below(x: bv32, y: bv32) {
    x < y
  }

  predicate OctetsLess(a: seq<bv8>, b: seq<bv8>) {
    b != [] && (a == [] || OctetBelow(a[0], b[0]) || (a[0] == b[0] && OctetsLess(a[1..], b[1..])))
  }

  predicate CodePointsLess(a: seq<bv32>, b: seq<bv32>) {
    b != [] && (a == [] || Below(a[0], b[0]) || (a[0] == b[0] && CodePointsLess(a[1..], b[1..])))
  }

  // ---------- Both orders are strict, and the one on octets is total ----------

  lemma OctetTrichotomy(a: bv8, b: bv8)
    ensures OctetBelow(a, b) || a == b || OctetBelow(b, a)
  {
  }

  lemma BelowStrict(x: bv32, y: bv32)
    requires Below(x, y)
    ensures !Below(y, x) && x != y
  {
  }

  lemma BelowIrreflexive(x: bv32)
    ensures !Below(x, x)
  {
  }

  lemma {:induction false} OctetsTotal(a: seq<bv8>, b: seq<bv8>)
    ensures OctetsLess(a, b) || a == b || OctetsLess(b, a)
  {
    hide OctetBelow;
    if a != [] && b != [] {
      OctetTrichotomy(a[0], b[0]);
      assert a == [a[0]] + a[1..] && b == [b[0]] + b[1..];
      OctetsTotal(a[1..], b[1..]);
    }
  }

  lemma {:induction false} CodePointsStrict(a: seq<bv32>, b: seq<bv32>)
    requires CodePointsLess(a, b)
    ensures !CodePointsLess(b, a) && a != b
  {
    hide Below;
    if a != [] {
      if Below(a[0], b[0]) {
        BelowStrict(a[0], b[0]);
      } else {
        BelowIrreflexive(a[0]);
        CodePointsStrict(a[1..], b[1..]);
      }
    }
  }

  // ---------- One character ----------

  /** The first octet at which two octet tuples differ is smaller in the first one. */
  predicate Before2(a: bv8, b: bv8, x: bv8, y: bv8) {
    a < x || (a == x && b < y)
  }

  predicate Before3(a: bv8, b: bv8, c: bv8, x: bv8, y: bv8, z: bv8) {
    a < x || (a == x && (b < y || (b == y && c < z)))
  }

  predicate Before4(a: bv8, b: bv8, c: bv8, d: bv8, x: bv8, y: bv8, z: bv8, w: bv8) {
    a < x || (a == x && (b < y || (b == y && (c < z || (c == z && d < w)))))
  }

  lemma Less2(a: bv8, b: bv8, x: bv8, y: bv8)
    requires 0xC2 <= a <= 0xDF && Tail(b) && 0xC2 <= x <= 0xDF && Tail(y) && Before2(a, b, x, y)
    ensures Below(Bits2(a, b), Bits2(x, y))
  {
  }

  lemma Less3(a: bv8, b: bv8, c: bv8, x: bv8, y: bv8, z: bv8)
    requires Start3(a, b) && Tail(c) && Start3(x, y) && Tail(z) && Before3(a, b, c, x, y, z)
    ensures Below(Bits3(a, b, c), Bits3(x, y, z))
  {
  }

  lemma Less4(a: bv8, b: bv8, c: bv8, d: bv8, x: bv8, y: bv8, z: bv8, w: bv8)
    requires Start4(a, b) && Tail(c) && Tail(d) && Start4(x, y) && Tail(z) && Tail(w)
    requires Before4(a, b, c, d, x, y, z, w)
    ensures Below(Bits4(a, b, c, d), Bits4(x, y, z, w))
  {
  }

  lemma Before2At(a: bv8, b: bv8, x: bv8, y: bv8, i: nat)
    requires i < 2 && (i > 0 ==> a == x) && OctetBelow([a, b][i], [x, y][i])
    ensures Before2(a, b, x, y)
  {
  }

  lemma Before3At(a: bv8, b: bv8, c: bv8, x: bv8, y: bv8, z: bv8, i: nat)
    requires i < 3 && (i > 0 ==> a == x) && (i > 1 ==> b == y)
    requires OctetBelow([a, b, c][i], [x, y, z][i])
    ensures Before3(a, b, c, x, y, z)
  {
  }

  lemma Before4At(a: bv8, b: bv8, c: bv8, d: bv8, x: bv8, y: bv8, z: bv8, w: bv8, i: nat)
    requires i < 4 && (i > 0 ==> a == x) && (i > 1 ==> b == y) && (i > 2 ==> c == z)
    requires OctetBelow([a, b, c, d][i], [x, y, z, w][i])
    ensures Before4(a, b, c, d, x, y, z, w)
  {
  }

  /** The range of code points that characters of each length denote. */
  lemma ScalarRange(o: seq<bv8>)
    requires Utf8Char(o)
    ensures |o| == 1 ==> Scalar(o) < 0x80
    ensures |o| == 2 ==> 0x80 <= Scalar(o) < 0x800
    ensures |o| == 3 ==> 0x800 <= Scalar(o) < 0x10000
    ensures |o| == 4 ==> 0x10000 <= Scalar(o)
  {
    hide Bits2, Bits3, Bits4, Start3, Start4, Tail;
    if |o| == 1 {
      Decode1(o[0]);
    } else if |o| == 2 {
      Decode2(o[0], o[1]);
    } else if |o| == 3 {
      Decode3(o[0], o[1], o[2]);
    } else {
      Decode4(o[0], o[1], o[2], o[3]);
    }
  }

  lemma LongerIsGreater(o: seq<bv8>, p: seq<bv8>)
    requires Utf8Char(o) && Utf8Char(p) && |o| < |p|
    ensures Below(Scalar(o), Scalar(p)) && !OctetBelow(p[0], o[0])
  {
    ScalarRange(o);
    ScalarRange(p);
    hide Scalar;
  }

  /** Of two characters that differ first at `i`, the one with the smaller octet there is smaller. */
  lemma CharLess(o: seq<bv8>, p: seq<bv8>, i: nat)
    requires Utf8Char(o) && Utf8Char(p) && i < |o| && i < |p|
    requires o[..i] == p[..i] && OctetBelow(o[i], p[i])
    ensures Below(Scalar(o), Scalar(p))
  {
    assert i > 0 ==> o[0] == o[..i][0] == p[0];
    assert i > 1 ==> o[1] == o[..i][1] == p[1];
    assert i > 2 ==> o[2] == o[..i][2] == p[2];
    CharShape(o);
    CharShape(p);
    if |o| < |p| {
      LongerIsGreater(o, p);
    } else if |p| < |o| {
      LongerIsGreater(p, o);
    } else {
      SameLengthLess(o, p, i);
    }
  }

  /** The octets before `i` agree, and the one at `i` is smaller in `o`. */
  predicate BeforeAt(o: seq<bv8>, p: seq<bv8>, i: nat) {
    && i < |o| == |p|
    && (i > 0 ==> o[0] == p[0]) && (i > 1 ==> o[1] == p[1]) && (i > 2 ==> o[2] == p[2])
    && OctetBelow(o[i], p[i])
  }

  lemma SameLengthLess(o: seq<bv8>, p: seq<bv8>, i: nat)
    requires Utf8Char(o) && Utf8Char(p) && BeforeAt(o, p, i)
    ensures Below(Scalar(o), Scalar(p))
  {
    hide Utf8Char, Scalar, Below, OctetBelow;
    CharShape(o);
    if |o| == 1 {
      SameLength1(o, p, i);
    } else if |o| == 2 {
      SameLength2(o, p, i);
    } else if |o| == 3 {
      SameLength3(o, p, i);
    } else {
      SameLength4(o, p, i);
    }
  }

  lemma SameLength1(o: seq<bv8>, p: seq<bv8>, i: nat)
    requires |o| == 1 && Utf8Char(o) && Utf8Char(p) && BeforeAt(o, p, i)
    ensures Below(Scalar(o), Scalar(p))
  {
    Less1(o[0], p[0]);
  }

  lemma SameLength2(o: seq<bv8>, p: seq<bv8>, i: nat)
    requires |o| == 2 && Utf8Char(o) && Utf8Char(p) && BeforeAt(o, p, i)
    ensures Below(Scalar(o), Scalar(p))
  {
    hide Bits2, Tail, Start3, Start4, OctetBelow, Below, Before2;
    Before2At(o[0], o[1], p[0], p[1], i);
    Less2(o[0], o[1], p[0], p[1]);
  }

  lemma SameLength3(o: seq<bv8>, p: seq<bv8>, i: nat)
    requires |o| == 3 && Utf8Char(o) && Utf8Char(p) && BeforeAt(o, p, i)
    ensures Below(Scalar(o), Scalar(p))
  {
    hide Bits3, Tail, Start3, Start4, OctetBelow, Below, Before3;
    Before3At(o[0], o[1], o[2], p[0], p[1], p[2], i);
    Less3(o[0], o[1], o[2], p[0], p[1], p[2]);
  }

  lemma SameLength4(o: seq<bv8>, p: seq<bv8>, i: nat)
    requires |o| == 4 && Utf8Char(o) && Utf8Char(p) && BeforeAt(o, p, i)
    ensures Below(Scalar(o), Scalar(p))
  {
    hide Bits4, Tail, Start3, Start4, OctetBelow, Below, Before4;
    Before4At(o[0], o[1], o[2], o[3], p[0], p[1], p[2], p[3], i);
    Less4(o[0], o[1], o[2], o[3], p[0], p[1], p[2], p[3]);
  }

  lemma Less1(a: bv8, x: bv8)
    requires OctetBelow(a, x)
    ensures Below(Wide(a), Wide(x))
  {
  }

  // ---------- Strings ----------

  lemma {:induction false} OctetsLessCommon(p: seq<bv8>, a: seq<bv8>, b: seq<bv8>)
    ensures OctetsLess(p + a, p + b) == OctetsLess(a, b)
  {
    hide OctetBelow;
    if p == [] {
      assert p + a == a && p + b == b;
    } else {
      assert (p + a)[1..] == p[1..] + a && (p + b)[1..] == p[1..] + b;
      OctetIrreflexive(p[0]);
      OctetsLessCommon(p[1..], a, b);
    }
  }

  lemma OctetIrreflexive(x: bv8)
    ensures !OctetBelow(x, x)
  {
  }

  /** Where two strings first differ decides. */
  lemma DifferenceDecides(a: seq<bv8>, b: seq<bv8>, i: nat)
    requires OctetsLess(a, b) && i < |a| && i < |b| && a[..i] == b[..i] && a[i] != b[i]
    ensures OctetBelow(a[i], b[i])
  {
    hide OctetBelow;
    assert a == a[..i] + a[i..] && b == a[..i] + b[i..];
    OctetsLessCommon(a[..i], a[i..], b[i..]);
  }

  lemma {:induction false} FirstDifference(a: seq<bv8>, b: seq<bv8>) returns (i: nat)
    requires !(a <= b) && !(b <= a)
    ensures i < |a| && i < |b| && a[..i] == b[..i] && a[i] != b[i]
  {
    if a[0] != b[0] {
      i := 0;
    } else {
      assert a == [a[0]] + a[1..] && b == [b[0]] + b[1..];
      var k := FirstDifference(a[1..], b[1..]);
      i := k + 1;
      assert a[..i] == [a[0]] + a[1..][..k] && b[..i] == [b[0]] + b[1..][..k];
    }
  }

  /** No character is the beginning of another one. */
  lemma PrefixFree(o: seq<bv8>, p: seq<bv8>)
    requires Utf8Char(o) && Utf8Char(p) && o <= p
    ensures o == p
  {
    CharShape(o);
    CharShape(p);
    assert o[0] == p[0];
  }

  /** A smaller octet string encodes smaller code points. */
  lemma {:induction false} OctetsLessDecodes(a: seq<bv32>, b: seq<bv32>)
    requires AllValid(a) && AllValid(b) && OctetsLess(EncodeAll(a), EncodeAll(b))
    ensures CodePointsLess(a, b)
    decreases |a|
  {
    hide Encode, OctetBelow, Below, IsCodePointValid, Utf8Char, Scalar;
    if a != [] && b != [] {
      var o, p := Encode(a[0]), Encode(b[0]);
      var ra, rb := EncodeAll(a[1..]), EncodeAll(b[1..]);
      if a[0] == b[0] {
        OctetsLessCommon(o, ra, rb);
        OctetsLessDecodes(a[1..], b[1..]);
      } else {
        EncodeDecodes(a[0]);
        EncodeDecodes(b[0]);
        if o <= p {
          PrefixFree(o, p);
        } else if p <= o {
          PrefixFree(p, o);
        } else {
          var i := FirstDifference(o, p);
          SameFront(o, p, ra, rb, i);
          DifferenceDecides(o + ra, p + rb, i);
          CharLess(o, p, i);
        }
      }
    }
  }

  lemma SameFront(o: seq<bv8>, p: seq<bv8>, ra: seq<bv8>, rb: seq<bv8>, i: nat)
    requires i < |o| && i < |p| && o[..i] == p[..i]
    ensures (o + ra)[..i] == (p + rb)[..i] && (o + ra)[i] == o[i] && (p + rb)[i] == p[i]
  {
    assert (o + ra)[..i] == o[..i] && (p + rb)[..i] == p[..i];
  }

  /** Section 1 of RFC 3629: the octet-wise order of encodings is the order of the code points. */
  lemma EncodingKeepsOrder(a: seq<bv32>, b: seq<bv32>)
    requires AllValid(a) && AllValid(b)
    ensures OctetsLess(EncodeAll(a), EncodeAll(b)) <==> CodePointsLess(a, b)
  {
    if OctetsLess(EncodeAll(a), EncodeAll(b)) {
      OctetsLessDecodes(a, b);
    } else if CodePointsLess(a, b) {
      CodePointsStrict(a, b);
      OctetsTotal(EncodeAll(a), EncodeAll(b));
      if EncodeAll(a) == EncodeAll(b) {
        EncodeThenDecode(a);
        EncodeThenDecode(b);
      } else {
        OctetsLessDecodes(b, a);
      }
    }
  }
}
