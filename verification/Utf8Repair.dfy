/**
  * What `replace_invalid` makes of an octet string, and what can be relied on.
  */
module Utf8Repair {
  import opened Text
  import opened Utf8Core
  import opened Utf8Checked
  import opened Utf8Text

  /** The exceptions of the library: invalid_code_point, invalid_utf8, invalid_utf16, not_enough_room. */
  datatype Exception =
    | BadCodePoint(cp: bv32) | BadUtf8(octet: bv8) | BadUtf16(word: bv16) | NoRoom

  /** What was written, and the exception if one ended the work. */
  datatype Repaired = Repaired(out: seq<bv8>, thrown: Option<Exception>)

  /** How many octets of `s` one round deals with. */
  function Taken(s: seq<bv8>): (n: nat)
    requires s != []
    ensures 1 <= n <= |s|
  {
    match Judge(s)
    case Good(n, _) => n
    case Bad(InvalidLead) => 1
    case Bad(_) => 1 + TrailRun(s[1..])
  }

  /** What one round writes. */
  function Written(s: seq<bv8>, r: bv32): seq<bv8>
    requires s != []
  {
    if Judge(s).Good? then s[..Judge(s).length] else Encode(r)
  }

  /** The exception a round ends with. */
  function Refusal(s: seq<bv8>, r: bv32): Option<Exception>
    requires s != []
  {
    match Judge(s)
    case Good(_, _) => None
    case Bad(NotEnoughRoom) => Some(NoRoom)
    case Bad(_) => if IsCodePointValid(r) then None else Some(BadCodePoint(r))
  }

  function Repair(s: seq<bv8>, r: bv32): Repaired
    decreases |s|
  {
    if s == [] then Repaired([], None)
    else if Refusal(s, r).Some? then Repaired([], Refusal(s, r))
    else
      var more := Repair(s[Taken(s)..], r);
      Repaired(Written(s, r) + more.out, more.thrown)
  }

  // ---------- The octets of one round ----------

  lemma LeadIsNoTrail(o: bv8)
    requires SequenceLength(o) > 0
    ensures !IsTrail(o)
  {
  }

  /** A round takes its first octet and continuation octets only. */
  lemma TakenAreTrails(s: seq<bv8>, i: nat)
    requires s != [] && 1 <= i < Taken(s)
    ensures IsTrail(s[i])
  {
    hide Utf8Char, Scalar, IsTrail, SequenceLength;
    if Judge(s).Good? {
      var n := Judge(s).length;
      JudgeIsPrefix(s);
      CharShape(s[..n]);
      assert s[i] == s[..n][i];
    } else {
      assert s[i] == s[1..][i - 1];
    }
  }

  /** The front is cut short exactly when it announces more octets than there are, all continuation octets. */
  lemma CutShort(s: seq<bv8>)
    requires s != []
    ensures Judge(s) == Bad(NotEnoughRoom) <==> 1 + TrailRun(s[1..]) == |s| < SequenceLength(s[0])
  {
    hide Utf8Char, Scalar, IsTrail, SequenceLength, BeyondCodePoints;
  }

  // ---------- Valid output ----------

  /** Whatever the input and the replacement, only valid UTF-8 is written, also before an exception. */
  lemma {:induction false} RepairedIsValid(s: seq<bv8>, r: bv32)
    ensures InLanguage(Repair(s, r).out)
    decreases |s|
  {
    hide Judge, Utf8Char, Scalar, InLanguage, Encode, IsCodePointValid;
    if s == [] || Refusal(s, r).Some? {
      LanguageIsDecodable([]);
    } else {
      if Judge(s).Good? {
        JudgeIsPrefix(s);
      } else {
        EncodeDecodes(r);
      }
      CharInLanguage(Written(s, r));
      RepairedIsValid(s[Taken(s)..], r);
      LanguageConcat(Written(s, r), Repair(s[Taken(s)..], r).out);
    }
  }

  /** Valid input is copied, whatever the replacement. */
  lemma {:induction false} ValidIsKept(s: seq<bv8>, r: bv32)
    requires InLanguage(s)
    ensures Repair(s, r) == Repaired(s, None)
    decreases |s|
  {
    hide Judge, InLanguage, IsCodePointValid;
    LanguageIsDecodable(s);
    if s != [] {
      var n := Judge(s).length;
      LanguageIsDecodable(s[n..]);
      ValidIsKept(s[n..], r);
      assert s == s[..n] + s[n..];
    }
  }

  /** Repairing twice is repairing once, also with another replacement the second time. */
  lemma RepairIsIdempotent(s: seq<bv8>, r: bv32, again: bv32)
    ensures Repair(Repair(s, r).out, again) == Repaired(Repair(s, r).out, None)
  {
    RepairedIsValid(s, r);
    ValidIsKept(Repair(s, r).out, again);
  }

  /** No octet costs more than one replacement, so at most four octets are written for each. */
  lemma {:induction false} RepairedLength(s: seq<bv8>, r: bv32)
    ensures |Repair(s, r).out| <= |Encode(r)| * |s| <= 4 * |s|
    decreases |s|
  {
    hide Judge, Encode, IsCodePointValid;
    var e := |Encode(r)|;
    if s != [] && Refusal(s, r).None? {
      var n := Taken(s);
      RepairedLength(s[n..], r);
      Distribute(e, n, |s| - n);
    }
    FourTimes(e, |s|);
  }

  lemma Distribute(e: nat, n: nat, m: nat)
    requires 1 <= e && 1 <= n
    ensures e * (n + m) == e * n + e * m && n <= e * n && e <= e * n
  {
  }

  lemma FourTimes(e: nat, n: nat)
    requires e <= 4
    ensures 0 <= e * n <= 4 * n
  {
  }

  // ---------- Exceptions ----------

  /** `p` is the last octet that is no continuation octet, and announces more octets than remain. */
  ghost predicate TruncatedAt(s: seq<bv8>, p: nat) {
    && p < |s| && !IsTrail(s[p])
    && (forall i | p < i < |s| :: IsTrail(s[i]))
    && SequenceLength(s[p]) > |s| - p
  }

  ghost predicate Truncated(s: seq<bv8>) {
    exists p: nat :: TruncatedAt(s, p)
  }

  lemma TruncatedAtFront(s: seq<bv8>)
    requires s != []
    ensures TruncatedAt(s, 0) <==> Judge(s) == Bad(NotEnoughRoom)
  {
    hide Judge, IsTrail, SequenceLength;
    CutShort(s);
    if TruncatedAt(s, 0) {
      assert forall i | 0 <= i < |s[1..]| :: IsTrail(s[1..][i]);
      TrailRunAtLeast(s[1..], |s| - 1);
    }
    if Judge(s) == Bad(NotEnoughRoom) {
      LeadIsNoTrail(s[0]);
      assert forall i | 0 < i < |s| :: s[i] == s[1..][i - 1];
    }
  }

  lemma TruncatedBehind(s: seq<bv8>)
    requires s != [] && Judge(s) != Bad(NotEnoughRoom)
    ensures Truncated(s) <==> Truncated(s[Taken(s)..])
  {
    hide Judge, IsTrail, SequenceLength, Taken;
    var n := Taken(s);
    var t := s[n..];
    assert forall i | 0 <= i < |t| :: t[i] == s[n + i];
    if Truncated(s) {
      var p: nat :| TruncatedAt(s, p);
      TruncatedAtFront(s);
      if p < n {
        TakenAreTrails(s, p);
      }
      assert TruncatedAt(t, p - n);
    }
    if Truncated(t) {
      var q: nat :| TruncatedAt(t, q);
      assert forall i | n + q < i < |s| :: s[i] == t[i - n];
      assert TruncatedAt(s, n + q);
    }
  }

  /**
    * With a valid replacement the only exception is not_enough_room, and it is thrown exactly when
    * the last octet that is no continuation octet announces more octets than remain.
    */
  lemma {:induction false} ThrowsWhenTruncated(s: seq<bv8>, r: bv32)
    requires IsCodePointValid(r)
    ensures Repair(s, r).thrown == if Truncated(s) then Some(NoRoom) else None
    decreases |s|
  {
    hide Judge, IsCodePointValid, TruncatedAt, Taken;
    if s == [] {
      NothingTruncated();
    } else if Judge(s) == Bad(NotEnoughRoom) {
      TruncatedAtFront(s);
    } else {
      TruncatedBehind(s);
      ThrowsWhenTruncated(s[Taken(s)..], r);
    }
  }

  /**
    * With an invalid replacement the work completes exactly on valid input, and else ends at the first
    * fault: with not_enough_room where the octets end too early there, and else with the replacement.
    */
  lemma {:induction false} ThrowsWithBadReplacement(s: seq<bv8>, r: bv32)
    requires !IsCodePointValid(r)
    ensures Repair(s, r).thrown.None? <==> InLanguage(s)
    ensures Repair(s, r).thrown ==
            if InLanguage(s) then None
            else if TruncatedAt(DecodeAll(s).rest, 0) then Some(NoRoom) else Some(BadCodePoint(r))
    decreases |s|
  {
    hide Judge, IsCodePointValid, InLanguage, TruncatedAt;
    LanguageIsDecodable(s);
    if s != [] {
      TruncatedAtFront(s);
    }
    if s != [] && Judge(s).Good? {
      LanguageIsDecodable(s[Taken(s)..]);
      ThrowsWithBadReplacement(s[Taken(s)..], r);
    }
  }

  // ---------- Repair works piece by piece ----------

  lemma TrailRunStops(a: seq<bv8>, b: seq<bv8>)
    requires b != [] && !IsTrail(b[0])
    ensures TrailRun(a + b) == TrailRun(a)
  {
    if a != [] {
      assert (a + b)[1..] == a[1..] + b;
      TrailRunStops(a[1..], b);
    } else {
      assert a + b == b;
    }
  }

  /** What follows from the next octet that is no continuation octet does not change how the front is judged. */
  lemma JudgedAlone(a: seq<bv8>, b: seq<bv8>)
    requires a != [] && b != [] && !IsTrail(b[0])
    ensures Judge(a + b) == if Judge(a) == Bad(NotEnoughRoom) then Bad(IncompleteSequence) else Judge(a)
  {
    hide Utf8Char, Scalar, IsTrail, SequenceLength, BeyondCodePoints;
    var s := a + b;
    var n := SequenceLength(a[0]);
    assert s[1..] == a[1..] + b;
    TrailRunStops(a[1..], b);
    if 0 < n <= |a| {
      assert s[..n] == a[..n];
    } else if n > |a| {
      if n <= |s| && Utf8Char(s[..n]) {
        CharHasTrails(s, n);
      }
    }
  }

  lemma TakenAlone(a: seq<bv8>, b: seq<bv8>)
    requires a != [] && b != [] && !IsTrail(b[0])
    ensures Taken(a + b) == Taken(a)
  {
    hide Judge, IsTrail;
    JudgedAlone(a, b);
    assert (a + b)[1..] == a[1..] + b;
    TrailRunStops(a[1..], b);
  }

  lemma RepairStep(s: seq<bv8>, r: bv32)
    requires IsCodePointValid(r) && s != [] && Judge(s) != Bad(NotEnoughRoom)
    ensures var more := Repair(s[Taken(s)..], r);
            Repair(s, r) == Repaired(Written(s, r) + more.out, more.thrown)
  {
    hide Judge, Taken, Written, IsCodePointValid;
  }

  lemma RepairEmpty(r: bv32)
    ensures Repair([], r) == Repaired([], None)
  {
  }

  lemma RepairCut(s: seq<bv8>, r: bv32)
    requires s != [] && Judge(s) == Bad(NotEnoughRoom)
    ensures Repair(s, r).out == [] && Truncated(s)
  {
    hide Judge, TruncatedAt;
    TruncatedAtFront(s);
  }

  /**
    * Text may be repaired in pieces cut in front of octets that are no continuation octets; a piece
    * cut short counts as an incomplete sequence when more text follows.
    */
  lemma {:induction false} RepairConcat(a: seq<bv8>, b: seq<bv8>, r: bv32)
    requires IsCodePointValid(r) && b != [] && !IsTrail(b[0])
    ensures var more := Repair(b, r);
            Repair(a + b, r) ==
            Repaired(Repair(a, r).out + (if Truncated(a) then Encode(r) else []) + more.out, more.thrown)
    decreases |a|
  {
    hide Judge, IsTrail, IsCodePointValid, Encode, Taken, Truncated, Repair, Written;
    if a == [] {
      assert a + b == b;
      RepairEmpty(r);
      assert !Truncated(a) by { NothingTruncated(); }
    } else {
      var n := Taken(a);
      JudgedAlone(a, b);
      TakenAlone(a, b);
      assert (a + b)[n..] == a[n..] + b;
      RepairStep(a + b, r);
      if Judge(a) == Bad(NotEnoughRoom) {
        TakenWhole(a);
        RepairCut(a, r);
        assert (a + b)[n..] == b;
        WrittenMark(a + b, r);
      } else {
        WrittenAlone(a, b, r);
        RepairStep(a, r);
        TruncatedBehind(a);
        RepairConcat(a[n..], b, r);
      }
    }
  }

  lemma NothingTruncated()
    ensures !Truncated([])
  {
  }

  lemma WrittenMark(s: seq<bv8>, r: bv32)
    requires s != [] && Judge(s).Bad?
    ensures Written(s, r) == Encode(r)
  {
    hide Judge, Encode;
  }

  lemma TakenWhole(a: seq<bv8>)
    requires a != [] && Judge(a) == Bad(NotEnoughRoom)
    ensures Taken(a) == |a|
  {
    CutShort(a);
  }

  lemma WrittenAlone(a: seq<bv8>, b: seq<bv8>, r: bv32)
    requires a != [] && Judge(a + b) == Judge(a)
    ensures Written(a + b, r) == Written(a, r)
  {
    hide Judge, Encode;
    if Judge(a).Good? {
      assert (a + b)[..Judge(a).length] == a[..Judge(a).length];
    }
  }

  function Marks(r: bv32, n: nat): seq<bv8> {
    if n == 0 then [] else Encode(r) + Marks(r, n - 1)
  }

  /** Continuation octets that follow no lead get a replacement each. */
  lemma {:induction false} StrayTrails(t: seq<bv8>, r: bv32)
    requires IsCodePointValid(r) && forall i | 0 <= i < |t| :: IsTrail(t[i])
    ensures Repair(t, r) == Repaired(Marks(r, |t|), None)
  {
    hide IsCodePointValid, Encode, Utf8Char, Scalar, BeyondCodePoints;
    if t != [] {
      if SequenceLength(t[0]) > 0 {
        LeadIsNoTrail(t[0]);
      }
      StrayTrails(t[1..], r);
    }
  }

  /**
    * One piece: an octet that is no continuation octet, and the continuation octets behind it. A
    * character is kept and every surplus octet replaced; a wrong sequence is replaced as a whole;
    * an octet that leads nothing is replaced alone.
    */
  lemma RepairPiece(s: seq<bv8>, r: bv32)
    requires IsCodePointValid(r) && s != [] && !IsTrail(s[0]) && forall i | 1 <= i < |s| :: IsTrail(s[i])
    ensures var n := SequenceLength(s[0]);
            Repair(s, r) ==
            if n > |s| then Repaired([], Some(NoRoom))
            else if n == 0 then Repaired(Marks(r, |s|), None)
            else if Utf8Char(s[..n]) then Repaired(s[..n] + Marks(r, |s| - n), None)
            else Repaired(Encode(r), None)
  {
    hide IsCodePointValid, Encode, Utf8Char, Scalar, BeyondCodePoints, IsTrail, SequenceLength, Repair;
    assert forall i | 0 <= i < |s[1..]| :: s[1..][i] == s[1 + i];
    TrailRunAtLeast(s[1..], |s| - 1);
    CutShort(s);
    if Judge(s) == Bad(NotEnoughRoom) {
      RepairRefused(s, r);
    } else {
      var n := Taken(s);
      assert forall i | 0 <= i < |s[n..]| :: s[n..][i] == s[n + i];
      StrayTrails(s[n..], r);
      RepairStep(s, r);
    }
  }

  lemma RepairRefused(s: seq<bv8>, r: bv32)
    requires s != [] && Judge(s) == Bad(NotEnoughRoom)
    ensures Repair(s, r) == Repaired([], Some(NoRoom))
  {
    hide Judge;
  }
}
