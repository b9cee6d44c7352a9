/**
  * The checked functions on one sequence: decoding with error classification and rollback,
  * stepping forward and back. An iterator is a position in the octets `s`; a function that moves
  * its iterator argument returns the new position.
  */
module Utf8Checked {
  import opened Text
  import opened Utf8Core

  // ---------- The arithmetic of get_sequence_x and its meaning ----------

  function Sum2(a: bv8, b: bv8): bv32 {
    ((Wide(a) << 6) & 0x7ff) + (Wide(b) & 0x3f)
  }

  function Sum3(a: bv8, b: bv8, c: bv8): bv32 {
    ((Wide(a) << 12) & 0xffff) + ((Wide(b) << 6) & 0xfff) + (Wide(c) & 0x3f)
  }

  function Sum4(a: bv8, b: bv8, c: bv8, d: bv8): bv32 {
    ((Wide(a) << 18) & 0x1fffff) + ((Wide(b) << 12) & 0x3ffff) + ((Wide(c) << 6) & 0xfff) + (Wide(d) & 0x3f)
  }

  lemma SequenceOf1(a: bv8)
    requires SequenceLength(a) == 1
    ensures IsCodePointValid(Wide(a)) && !IsOverlongSequence(Wide(a), 1) && a <= 0x7F
  {
  }

  lemma SequenceOf2(a: bv8, b: bv8)
    requires SequenceLength(a) == 2 && IsTrail(b)
    ensures Sum2(a, b) == Bits2(a, b) && IsCodePointValid(Sum2(a, b))
    ensures !IsOverlongSequence(Sum2(a, b), 2) <==> 0xC2 <= a <= 0xDF && Tail(b)
  {
  }

  lemma SequenceOf3(a: bv8, b: bv8, c: bv8)
    requires SequenceLength(a) == 3 && IsTrail(b) && IsTrail(c)
    ensures Sum3(a, b, c) == Bits3(a, b, c)
    ensures IsCodePointValid(Sum3(a, b, c)) <==> !BeyondCodePoints(a, b)
    ensures IsCodePointValid(Sum3(a, b, c)) && !IsOverlongSequence(Sum3(a, b, c), 3) <==> Start3(a, b) && Tail(c)
    ensures a != 0xF0
  {
  }

  lemma SequenceOf4(a: bv8, b: bv8, c: bv8, d: bv8)
    requires SequenceLength(a) == 4 && IsTrail(b) && IsTrail(c) && IsTrail(d)
    ensures Sum4(a, b, c, d) == Bits4(a, b, c, d)
    ensures IsCodePointValid(Sum4(a, b, c, d)) <==> !(BeyondCodePoints(a, b) && (a == 0xF0 ==> c >= 0xA0))
    ensures IsCodePointValid(Sum4(a, b, c, d)) && !IsOverlongSequence(Sum4(a, b, c, d), 4)
       <==> Start4(a, b) && Tail(c) && Tail(d)
  {
  }

  // ---------- get_sequence_x ----------

  /** How many of the octets at `i`, up to `end`, are continuation octets. */
  function TrailsAt(s: seq<bv8>, i: nat, end: nat): (k: nat)
    requires i <= end <= |s|
    ensures i + k <= end
    decreases end - i
  {
    if i == end || !IsTrail(s[i]) then 0 else 1 + TrailsAt(s, i + 1, end)
  }

  lemma {:induction false} TrailsAtIsRun(s: seq<bv8>, i: nat, end: nat)
    requires i <= end <= |s|
    ensures TrailsAt(s, i, end) == TrailRun(s[i..end])
    decreases end - i
  {
    if i < end {
      assert s[i..end][1..] == s[i + 1..end];
      TrailsAtIsRun(s, i + 1, end);
    }
  }

  /** What stops a sequence that needs more continuation octets than there are. */
  function Short(s: seq<bv8>, i: nat, end: nat): Option<UtfError>
    requires i <= end <= |s|
  {
    if i + TrailsAt(s, i, end) == end then Some(NotEnoughRoom) else Some(IncompleteSequence)
  }

  method IncreaseSafely(s: seq<bv8>, it: nat, end: nat) returns (err: Option<UtfError>, it': nat)
    requires it < end <= |s|
    ensures it' == it + 1
    ensures err.None? <==> TrailsAt(s, it + 1, end) >= 1
    ensures err.None? ==> it' < end && TrailsAt(s, it + 1, end) == 1 + TrailsAt(s, it + 2, end)
    ensures err.Some? ==> TrailsAt(s, it + 1, end) == 0 && err == Short(s, it + 1, end)
  {
    it' := it + 1;
    if it' == end {
      return Some(NotEnoughRoom), it';
    }
    if !IsTrail(s[it']) {
      return Some(IncompleteSequence), it';
    }
    err := None;
  }

  method GetSequence1(s: seq<bv8>, it: nat, end: nat) returns (err: Option<UtfError>, it': nat, cp: bv32)
    requires it < end <= |s|
    ensures err == None && it' == it && cp == Wide(s[it])
  {
    err, it', cp := None, it, Wide(s[it]);
  }

  method GetSequence2(s: seq<bv8>, it: nat, end: nat) returns (err: Option<UtfError>, it': nat, cp: bv32)
    requires it < end <= |s|
    ensures TrailsAt(s, it + 1, end) >= 1 ==>
              err == None && it' == it + 1 < end && IsTrail(s[it + 1]) && cp == Sum2(s[it], s[it + 1])
    ensures TrailsAt(s, it + 1, end) < 1 ==> err == Short(s, it + 1, end)
  {
    cp := Wide(s[it]);
    err, it' := IncreaseSafely(s, it, end);
    if err.Some? {
      return;
    }
    cp := ((cp << 6) & 0x7ff) + (Wide(s[it']) & 0x3f);
  }

  method GetSequence3(s: seq<bv8>, it: nat, end: nat) returns (err: Option<UtfError>, it': nat, cp: bv32)
    requires it < end <= |s|
    ensures TrailsAt(s, it + 1, end) >= 2 ==>
              && err == None && it' == it + 2 < end && IsTrail(s[it + 1]) && IsTrail(s[it + 2])
              && cp == Sum3(s[it], s[it + 1], s[it + 2])
    ensures TrailsAt(s, it + 1, end) < 2 ==> err == Short(s, it + 1, end)
  {
    hide Wide, IsTrail;
    cp := Wide(s[it]);
    err, it' := IncreaseSafely(s, it, end);
    if err.Some? {
      return;
    }
    cp := ((cp << 12) & 0xffff) + ((Wide(s[it']) << 6) & 0xfff);
    err, it' := IncreaseSafely(s, it', end);
    if err.Some? {
      return;
    }
    cp := cp + (Wide(s[it']) & 0x3f);
  }

  method GetSequence4(s: seq<bv8>, it: nat, end: nat) returns (err: Option<UtfError>, it': nat, cp: bv32)
    requires it < end <= |s|
    ensures TrailsAt(s, it + 1, end) >= 3 ==>
              && err == None && it' == it + 3 < end
              && IsTrail(s[it + 1]) && IsTrail(s[it + 2]) && IsTrail(s[it + 3])
              && cp == Sum4(s[it], s[it + 1], s[it + 2], s[it + 3])
    ensures TrailsAt(s, it + 1, end) < 3 ==> err == Short(s, it + 1, end)
  {
    hide Wide, IsTrail;
    cp := Wide(s[it]);
    err, it' := IncreaseSafely(s, it, end);
    if err.Some? {
      return;
    }
    cp := ((cp << 18) & 0x1fffff) + ((Wide(s[it']) << 12) & 0x3ffff);
    err, it' := IncreaseSafely(s, it', end);
    if err.Some? {
      return;
    }
    cp := cp + ((Wide(s[it']) << 6) & 0xfff);
    err, it' := IncreaseSafely(s, it', end);
    if err.Some? {
      return;
    }
    cp := cp + (Wide(s[it']) & 0x3f);
  }

  // ---------- validate_next ----------

  /** Accepts exactly the characters of the grammar; restores the iterator on every error. */
  method ValidateNext(s: seq<bv8>, it: nat, end: nat, codePoint: bv32)
    returns (err: Option<UtfError>, it': nat, codePoint': bv32)
    requires it < end <= |s|
    ensures match Judge(s[it..end])
            case Good(n, cp) => err == None && it' == it + n && codePoint' == cp
            case Bad(error) => err == Some(error) && it' == it && codePoint' == codePoint
  {
    hide Judge, SumOf, Sum2, Sum3, Sum4, Wide, IsTrail, SequenceLength, IsCodePointValid, IsOverlongSequence;
    var originalIt := it;
    var cp: bv32 := 0;
    var length := SequenceLength(s[it]);
    it', codePoint' := it, codePoint;
    ghost var rest := s[it..end];
    assert rest[0] == s[it] && rest[1..] == s[it + 1..end];
    TrailsAtIsRun(s, it + 1, end);
    if length == 0 {
      JudgedNoLead(rest);
      return Some(InvalidLead), it', codePoint';
    } else if length == 1 {
      err, it', cp := GetSequence1(s, it, end);
    } else if length == 2 {
      err, it', cp := GetSequence2(s, it, end);
    } else if length == 3 {
      err, it', cp := GetSequence3(s, it, end);
    } else {
      err, it', cp := GetSequence4(s, it, end);
    }
    if err == None {
      SumAt(s, it, end);
      JudgedByChecks(rest, cp);
      if IsCodePointValid(cp) {
        if !IsOverlongSequence(cp, length) {
          return None, it' + 1, cp;
        } else {
          err := Some(OverlongSequence);
        }
      } else {
        err := Some(InvalidCodePoint);
      }
    } else {
      JudgedShort(rest);
    }
    it' := originalIt;
  }

  /** The sum that the right get_sequence_x computes for a complete sequence. */
  function SumOf(s: seq<bv8>): bv32
    requires s != [] && 0 < SequenceLength(s[0]) <= |s|
  {
    var n := SequenceLength(s[0]);
    if n == 1 then Wide(s[0]) else if n == 2 then Sum2(s[0], s[1])
    else if n == 3 then Sum3(s[0], s[1], s[2]) else Sum4(s[0], s[1], s[2], s[3])
  }

  lemma SumAt(s: seq<bv8>, it: nat, end: nat)
    requires it < end <= |s| && 0 < SequenceLength(s[it]) <= end - it
    ensures var n := SequenceLength(s[it]);
            SumOf(s[it..end]) ==
            if n == 1 then Wide(s[it]) else if n == 2 then Sum2(s[it], s[it + 1])
            else if n == 3 then Sum3(s[it], s[it + 1], s[it + 2])
            else Sum4(s[it], s[it + 1], s[it + 2], s[it + 3])
  {
    hide Sum2, Sum3, Sum4, Wide, SequenceLength;
  }

  lemma JudgedNoLead(s: seq<bv8>)
    requires s != [] && SequenceLength(s[0]) == 0
    ensures Judge(s) == Bad(InvalidLead)
  {
    hide SequenceLength;
  }

  /** The two checks on the sum judge a complete sequence. */
  lemma JudgedByChecks(s: seq<bv8>, cp: bv32)
    requires s != [] && SequenceLength(s[0]) > 0 && TrailRun(s[1..]) >= SequenceLength(s[0]) - 1
    requires cp == SumOf(s)
    ensures Judge(s) == if !IsCodePointValid(cp) then Bad(InvalidCodePoint)
                        else if IsOverlongSequence(cp, SequenceLength(s[0])) then Bad(OverlongSequence)
                        else Good(SequenceLength(s[0]), cp)
  {
    hide Sum2, Sum3, Sum4, Bits2, Bits3, Bits4, Start3, Start4, Tail, IsTrail, BeyondCodePoints;
    hide IsCodePointValid, IsOverlongSequence, Wide;
    var n := SequenceLength(s[0]);
    var t := s[1..];
    if n == 1 {
      SequenceOf1(s[0]);
    } else if n == 2 {
      assert IsTrail(t[0]);
      SequenceOf2(s[0], s[1]);
    } else if n == 3 {
      assert IsTrail(t[0]) && IsTrail(t[1]);
      SequenceOf3(s[0], s[1], s[2]);
    } else {
      assert IsTrail(t[0]) && IsTrail(t[1]) && IsTrail(t[2]);
      SequenceOf4(s[0], s[1], s[2], s[3]);
    }
  }

  /** A sequence cut short is no character. */
  lemma JudgedShort(s: seq<bv8>)
    requires s != [] && SequenceLength(s[0]) > 0 && TrailRun(s[1..]) < SequenceLength(s[0]) - 1
    ensures Judge(s) == Bad(if 1 + TrailRun(s[1..]) == |s| then NotEnoughRoom else IncompleteSequence)
  {
    var n := SequenceLength(s[0]);
    if n <= |s| && Utf8Char(s[..n]) {
      CharHasTrails(s, n);
    }
  }

  lemma CharHasTrails(s: seq<bv8>, n: nat)
    requires n <= |s| && Utf8Char(s[..n])
    ensures TrailRun(s[1..]) >= n - 1
  {
    CharShape(s[..n]);
    assert forall i | 0 <= i < n - 1 :: s[1..][i] == s[..n][i + 1];
    TrailRunAtLeast(s[1..], n - 1);
  }

  lemma {:induction false} TrailRunAtLeast(t: seq<bv8>, m: nat)
    requires m <= |t| && forall i | 0 <= i < m :: IsTrail(t[i])
    ensures TrailRun(t) >= m
  {
    if m > 0 {
      TrailRunAtLeast(t[1..], m - 1);
    }
  }
}
