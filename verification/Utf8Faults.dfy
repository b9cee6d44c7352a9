/**
  * Which octets are wrong in which way, told from the octets themselves, and the exceptions of `next`.
  */
module Utf8Faults {
  import opened Utf8Core
  import opened Utf8Checked
  import opened Utf8Repair
  import opened Utf8Functions

  /** How many octets the first one announces. */
  lemma Announces(a: bv8)
    ensures SequenceLength(a) == 1 <==> a <= 0x7F
    ensures SequenceLength(a) == 2 <==> 0xC0 <= a <= 0xDF
    ensures SequenceLength(a) == 3 <==> 0xE0 <= a <= 0xEF
    ensures SequenceLength(a) == 4 <==> 0xF0 <= a <= 0xF7
    ensures SequenceLength(a) == 0 <==> 0x80 <= a <= 0xBF || 0xF8 <= a
  {
  }

  /** The announced octets are all there, and all but the first are continuation octets. */
  ghost predicate Complete(s: seq<bv8>)
    requires s != []
  {
    0 < SequenceLength(s[0]) <= |s| && forall i | 1 <= i < SequenceLength(s[0]) :: Tail(s[i])
  }

  /** An announced octet is there and is no continuation octet. */
  ghost predicate Interrupted(s: seq<bv8>)
    requires s != []
  {
    exists i :: 1 <= i < SequenceLength(s[0]) && i < |s| && !Tail(s[i])
  }

  /** More octets are announced than there are, and those there are continuation octets. */
  ghost predicate CutOff(s: seq<bv8>)
    requires s != []
  {
    SequenceLength(s[0]) > |s| && forall i | 1 <= i < |s| :: Tail(s[i])
  }

  /** The bits of a complete sequence, six in each continuation octet. */
  function BitsOf(s: seq<bv8>): bv32
    requires s != [] && 0 < SequenceLength(s[0]) <= |s|
  {
    var n := SequenceLength(s[0]);
    if n == 1 then Wide(s[0]) else if n == 2 then Bits2(s[0], s[1])
    else if n == 3 then Bits3(s[0], s[1], s[2]) else Bits4(s[0], s[1], s[2], s[3])
  }

  predicate IsScalarValue(cp: bv32) {
    cp <= 0x10FFFF && !(0xD800 <= cp <= 0xDFFF)
  }

  /** Fewer octets would do. */
  predicate TooLong(cp: bv32, length: nat) {
    (length == 2 && cp < 0x80) || (length == 3 && cp < 0x800) || (length == 4 && cp < 0x10000)
  }

  // ---------- The five faults ----------

  lemma TailIsTrail(o: bv8)
    ensures IsTrail(o) <==> Tail(o)
  {
  }

  lemma ScalarValueIsValid(cp: bv32)
    ensures IsCodePointValid(cp) <==> IsScalarValue(cp)
  {
  }

  lemma SumIsBits(s: seq<bv8>)
    requires s != [] && Complete(s)
    ensures SumOf(s) == BitsOf(s)
  {
    hide Sum2, Sum3, Sum4, Bits2, Bits3, Bits4, Wide, Tail, IsTrail, SequenceLength, IsCodePointValid;
    hide IsOverlongSequence, BeyondCodePoints, Start3, Start4;
    var n := SequenceLength(s[0]);
    if n == 2 {
      TailIsTrail(s[1]);
      SequenceOf2(s[0], s[1]);
    } else if n == 3 {
      TailIsTrail(s[1]);
      TailIsTrail(s[2]);
      SequenceOf3(s[0], s[1], s[2]);
    } else if n == 4 {
      TailIsTrail(s[1]);
      TailIsTrail(s[2]);
      TailIsTrail(s[3]);
      SequenceOf4(s[0], s[1], s[2], s[3]);
    }
  }

  lemma CompleteHasRun(s: seq<bv8>)
    requires s != []
    ensures SequenceLength(s[0]) > 0 ==>
              (Complete(s) <==> TrailRun(s[1..]) >= SequenceLength(s[0]) - 1)
    ensures SequenceLength(s[0]) > 0 && !Complete(s) ==>
              && (CutOff(s) <==> 1 + TrailRun(s[1..]) == |s|)
              && (Interrupted(s) <==> 1 + TrailRun(s[1..]) != |s|)
  {
    hide Tail, IsTrail, SequenceLength;
    var n, k := SequenceLength(s[0]), TrailRun(s[1..]);
    forall i | 1 <= i < |s| ensures Tail(s[i]) <==> IsTrail(s[1..][i - 1]) {
      TailIsTrail(s[i]);
    }
    if Complete(s) {
      TrailRunAtLeast(s[1..], n - 1);
    } else if CutOff(s) {
      TrailRunAtLeast(s[1..], |s| - 1);
    }
    assert forall i | 1 <= i <= k :: Tail(s[i]);
    if 1 + k < |s| {
      assert !Tail(s[1 + k]);
    }
  }

  /** A one-octet sequence is never over-long and nothing else but these bounds makes one so. */
  lemma OverlongMeans(s: seq<bv8>)
    requires s != [] && Complete(s)
    ensures IsOverlongSequence(SumOf(s), SequenceLength(s[0])) <==> TooLong(BitsOf(s), SequenceLength(s[0]))
  {
    hide Tail, IsTrail, SequenceLength, SumOf, BitsOf, IsOverlongSequence, TooLong, Bits2, Bits3, Bits4, Wide;
    SumIsBits(s);
    BitsAreBounded(s);
    OverlongBounds(BitsOf(s), SequenceLength(s[0]));
  }

  predicate Below(cp: bv32, length: nat) {
    (length == 1 ==> cp < 0x80) && (length == 2 ==> cp < 0x800) && (length == 3 ==> cp < 0x10000)
  }

  lemma OverlongBounds(cp: bv32, length: nat)
    requires 1 <= length <= 4 && Below(cp, length)
    ensures IsOverlongSequence(cp, length) <==> TooLong(cp, length)
  {
  }

  lemma BitsAreBounded(s: seq<bv8>)
    requires s != [] && Complete(s)
    ensures Below(BitsOf(s), SequenceLength(s[0]))
  {
    hide Tail, Bits4;
    var n := SequenceLength(s[0]);
    if n == 1 {
      Bound1(s[0]);
    } else if n == 2 {
      hide Bits2, Bits3, Wide, SequenceLength;
      Bound2(s[0], s[1]);
    } else if n == 3 {
      hide Bits2, Bits3, Wide, SequenceLength;
      Bound3(s[0], s[1], s[2]);
    }
  }

  lemma Bound1(a: bv8)
    requires SequenceLength(a) == 1
    ensures Below(Wide(a), 1)
  {
  }

  lemma Bound2(a: bv8, b: bv8)
    ensures Below(Bits2(a, b), 2)
  {
  }

  lemma Bound3(a: bv8, b: bv8, c: bv8)
    ensures Below(Bits3(a, b, c), 3)
  {
  }

  /** What is found at the front, for all octets. */
  lemma JudgeMeans(s: seq<bv8>)
    requires s != []
    ensures var n, j := SequenceLength(s[0]), Judge(s);
            && (j == Bad(InvalidLead) <==> n == 0)
            && (j == Bad(NotEnoughRoom) <==> CutOff(s))
            && (j == Bad(IncompleteSequence) <==> Interrupted(s))
            && (j == Bad(InvalidCodePoint) <==> Complete(s) && !IsScalarValue(BitsOf(s)))
            && (j == Bad(OverlongSequence) <==> Complete(s) && IsScalarValue(BitsOf(s)) && TooLong(BitsOf(s), n))
            && (j.Good? <==> Complete(s) && IsScalarValue(BitsOf(s)) && !TooLong(BitsOf(s), n))
            && (j.Good? ==> j == Good(n, BitsOf(s)))
  {
    hide Judge, Complete, SequenceLength, SumOf, BitsOf, TooLong, IsScalarValue, IsCodePointValid, IsOverlongSequence;
    hide Tail, IsTrail;
    if SequenceLength(s[0]) == 0 {
      JudgedNoLead(s);
      NothingAnnounced(s);
    } else {
      CompleteHasRun(s);
      if Complete(s) {
        CompleteFits(s);
        JudgedByChecks(s, SumOf(s));
        SumIsBits(s);
        OverlongMeans(s);
        ScalarValueIsValid(BitsOf(s));
      } else {
        JudgedShort(s);
      }
    }
  }

  lemma NothingAnnounced(s: seq<bv8>)
    requires s != [] && SequenceLength(s[0]) == 0
    ensures !Complete(s) && !CutOff(s) && !Interrupted(s)
  {
    hide SequenceLength;
  }

  lemma CompleteFits(s: seq<bv8>)
    requires s != [] && Complete(s)
    ensures 0 < SequenceLength(s[0]) <= |s| && !CutOff(s) && !Interrupted(s)
  {
    hide SequenceLength;
  }

  // ---------- The exceptions of next ----------

  /**
    * not_enough_room when the octets end too early, invalid_code_point with 0 when a complete sequence
    * has bits that are no code point, and invalid_utf8 with the first octet for all other faults: an
    * octet that cannot lead, an interrupted sequence, or an over-long one.
    */
  lemma NextThrows(s: seq<bv8>)
    requires s != [] && Judge(s).Bad?
    ensures NextFault(s) == NoRoom <==> CutOff(s)
    ensures NextFault(s) == BadCodePoint(0) <==> Complete(s) && !IsScalarValue(BitsOf(s))
    ensures NextFault(s) == BadUtf8(s[0]) <==>
              || SequenceLength(s[0]) == 0
              || Interrupted(s)
              || (Complete(s) && IsScalarValue(BitsOf(s)) && TooLong(BitsOf(s), SequenceLength(s[0])))
  {
    hide Judge, Complete, CutOff, Interrupted, SequenceLength, BitsOf, TooLong, IsScalarValue;
    JudgeMeans(s);
  }

  /** E2 28 A1: the second octet is no continuation octet. */
  lemma InterruptedIsInvalidUtf8()
    ensures Judge([0xE2, 0x28, 0xA1]).Bad? && NextFault([0xE2, 0x28, 0xA1]) == BadUtf8(0xE2)
  {
    var s: seq<bv8> := [0xE2, 0x28, 0xA1];
    JudgeMeans(s);
    assert SequenceLength(s[0]) == 3 && !Tail(s[1]);
    assert Interrupted(s);
    hide Judge;
    NextThrows(s);
  }
}
