/**
  * `replace_invalid`, round by round, does what `Repair` says.
  */
module Utf8Replace {
  import opened Text
  import opened Utf8Core
  import opened Utf8Checked
  import opened Utf8Repair
  import opened Utf8Functions

  /** What has been written and what is still to be repaired make up the whole result. */
  predicate OnTrack(written: seq<bv8>, left: seq<bv8>, r: bv32, whole: Repaired) {
    var more := Repair(left, r);
    written + more.out == whole.out && more.thrown == whole.thrown
  }

  /** How much a round with a wrong sequence skips. */
  function Skipped(s: seq<bv8>): (n: nat)
    requires s != [] && Judge(s).Bad?
    ensures 1 <= n <= |s|
  {
    if Judge(s).error == InvalidLead then 1 else 1 + TrailRun(s[1..])
  }

  lemma KeepingRound(w: seq<bv8>, s: seq<bv8>, r: bv32, whole: Repaired)
    requires s != [] && Judge(s).Good? && OnTrack(w, s, r, whole)
    ensures var n := Judge(s).length; OnTrack(w + s[..n], s[n..], r, whole)
  {
    hide Judge;
    assert w + (Written(s, r) + Repair(s[Taken(s)..], r).out) == w + Written(s, r) + Repair(s[Taken(s)..], r).out;
  }

  lemma MarkingRound(w: seq<bv8>, s: seq<bv8>, r: bv32, whole: Repaired)
    requires s != [] && Judge(s).Bad? && Judge(s).error != NotEnoughRoom && OnTrack(w, s, r, whole)
    ensures IsCodePointValid(r) ==> OnTrack(w + Encode(r), s[Skipped(s)..], r, whole)
    ensures !IsCodePointValid(r) ==> whole == Repaired(w, Some(BadCodePoint(r)))
  {
    hide Judge, Encode, IsCodePointValid, TrailRun;
    if IsCodePointValid(r) {
      assert w + (Encode(r) + Repair(s[Taken(s)..], r).out) == w + Encode(r) + Repair(s[Taken(s)..], r).out;
    } else {
      assert w + [] == w;
    }
  }

  lemma RefusingRound(w: seq<bv8>, s: seq<bv8>, r: bv32, whole: Repaired)
    requires s != [] && Judge(s) == Bad(NotEnoughRoom) && OnTrack(w, s, r, whole)
    ensures whole == Repaired(w, Some(NoRoom))
  {
    hide Judge;
    assert w + [] == w;
  }

  lemma FirstRound(w: seq<bv8>, s: seq<bv8>, r: bv32)
    ensures var done := Repair(s, r); OnTrack(w, s, r, Repaired(w + done.out, done.thrown))
  {
  }

  lemma LastRound(w: seq<bv8>, r: bv32, whole: Repaired)
    requires OnTrack(w, [], r, whole)
    ensures whole == Repaired(w, None)
  {
    assert w + [] == w;
  }

  lemma OneTrailMore(t: seq<bv8>)
    requires t != [] && IsTrail(t[0])
    ensures TrailRun(t) == 1 + TrailRun(t[1..])
  {
  }

  lemma NoTrailMore(t: seq<bv8>)
    requires t != [] ==> !IsTrail(t[0])
    ensures TrailRun(t) == 0
  {
  }

  method SkipTrails(s: seq<bv8>, start: nat, end: nat) returns (it: nat)
    requires start <= end <= |s|
    ensures it == start + TrailRun(s[start..end]) <= end
  {
    hide IsTrail, TrailRun;
    it := start;
    while it != end && IsTrail(s[it])
      invariant start <= it <= end && it + TrailRun(s[it..end]) == start + TrailRun(s[start..end])
      decreases end - it
    {
      OneTrailMore(s[it..end]);
      assert s[it..end][1..] == s[it + 1..end];
      it := it + 1;
    }
    NoTrailMore(s[it..end]);
  }

  method CopyOctets(s: seq<bv8>, start: nat, end: nat, result: seq<bv8>) returns (result': seq<bv8>)
    requires start <= end <= |s|
    ensures result' == result + s[start..end]
  {
    result' := result;
    var it := start;
    while it != end
      invariant start <= it <= end && result' == result + s[start..it]
      decreases end - it
    {
      result' := result' + [s[it]];
      it := it + 1;
    }
  }

  method ReplaceInvalid(s: seq<bv8>, start: nat, end: nat, result: seq<bv8>, replacement: bv32)
    returns (thrown: Option<Exception>, result': seq<bv8>)
    requires start <= end <= |s|
    ensures var done := Repair(s[start..end], replacement); result' == result + done.out && thrown == done.thrown
  {
    hide Judge, IsTrail, Encode, IsCodePointValid, Repair, TrailRun, OnTrack;
    result' := result;
    var it := start;
    ghost var done := Repair(s[start..end], replacement);
    ghost var whole := Repaired(result + done.out, done.thrown);
    FirstRound(result, s[start..end], replacement);
    while it != end
      invariant start <= it <= end && OnTrack(result', s[it..end], replacement, whole)
      decreases end - it
    {
      var sequenceStart := it;
      ghost var u, before := s[it..end], result';
      var err, cp;
      err, it, cp := ValidateNext(s, it, end, 0);
      if err.None? {
        KeepingRound(before, u, replacement, whole);
        result' := CopyOctets(s, sequenceStart, it, result');
        assert u[..it - sequenceStart] == s[sequenceStart..it] && u[it - sequenceStart..] == s[it..end];
      } else if err == Some(NotEnoughRoom) {
        RefusingRound(before, u, replacement, whole);
        return Some(NoRoom), result';
      } else {
        MarkingRound(before, u, replacement, whole);
        thrown, result' := Append(replacement, result');
        if thrown.Some? {
          return;
        }
        it := it + 1;
        assert u[1..] == s[it..end];
        if err != Some(InvalidLead) {
          it := SkipTrails(s, it, end);
        }
        assert u[it - sequenceStart..] == s[it..end];
      }
    }
    LastRound(result', replacement, whole);
    thrown := None;
  }
}
