/**
  * The checked functions on one code point. An iterator is a position in the octets `s`; a function that
  * moves its iterator argument returns the new position, and what it writes is appended to the
  * output it was given. An exception leaves position and output as they were when it was thrown.
  */
module Utf8Functions {
  import opened Text
  import opened Utf8Core
  import opened Utf8Checked
  import opened Utf8Text
  import opened Utf8Repair

  /**
    * The exception for octets that start with no character. The code point is still 0 when
    * invalid_code_point is thrown, because a rejected one is not handed out.
    */
  function NextFault(s: seq<bv8>): Exception
    requires s != [] && Judge(s).Bad?
  {
    match Judge(s).error
    case NotEnoughRoom => NoRoom
    case InvalidCodePoint => BadCodePoint(0)
    case _ => BadUtf8(s[0])
  }

  /** The octets of a surrogate, whose code point is 0xD800. */
  lemma SurrogateReportedAsZero()
    ensures Judge([0xED, 0xA0, 0x80]) == Bad(InvalidCodePoint)
    ensures NextFault([0xED, 0xA0, 0x80]) == BadCodePoint(0)
    ensures Bits3(0xED, 0xA0, 0x80) == LEAD_SURROGATE_MIN
  {
    SurrogateTrails([0xA0, 0x80]);
    assert [0xED, 0xA0, 0x80 as bv8][1..] == [0xA0, 0x80];
  }

  lemma SurrogateTrails(t: seq<bv8>)
    requires t == [0xA0, 0x80]
    ensures TrailRun(t) == 2
  {
    assert IsTrail(0xA0) && IsTrail(0x80);
    TrailRunAtLeast(t, 2);
  }

  /** `p` is the last octet before `it` that is no continuation octet. */
  predicate StepsBack(s: seq<bv8>, start: nat, it: nat, p: nat) {
    start <= p < it <= |s| && !IsTrail(s[p]) && forall i | p < i < it :: IsTrail(s[i])
  }

  // ---------- Stepping back undoes stepping forward ----------

  lemma BoundaryDecodes(s: seq<bv8>, p: nat)
    requires InLanguage(s) && p < |s| && InLanguage(s[..p])
    ensures Judge(s[p..]).Good? && InLanguage(s[p..]) && !IsTrail(s[p])
    ensures InLanguage(s[..p + Judge(s[p..]).length])
  {
    hide Judge, IsTrail, InLanguage;
    assert s == s[..p] + s[p..];
    LanguageConcat(s[..p], s[p..]);
    LanguageIsDecodable(s[p..]);
    StartsAreLeads(s, p);
    var n := Judge(s[p..]).length;
    JudgeIsPrefix(s[p..]);
    CharInLanguage(s[p..][..n]);
    assert s[..p + n] == s[..p] + s[p..][..n];
    LanguageConcat(s[..p], s[p..][..n]);
  }

  /** From the position `next` reaches, `prior` returns to where it started and to the same code point. */
  lemma PriorUndoesNext(s: seq<bv8>, start: nat, p: nat)
    requires InLanguage(s) && start <= p < |s| && InLanguage(s[..p])
    ensures var j := Judge(s[p..]);
            && j.Good?
            && StepsBack(s, start, p + j.length, p)
            && Judge(s[p..p + j.length]) == j
  {
    hide Judge, IsTrail, InLanguage, Utf8Char, Scalar;
    BoundaryDecodes(s, p);
    var t := s[p..];
    var n := Judge(t).length;
    JudgeIsPrefix(t);
    CharShape(t[..n]);
    assert forall i | p < i < p + n :: s[i] == t[..n][i - p];
    assert t[..n] == s[p..p + n] == s[p..p + n][..n];
    JudgeFindsPrefix(s[p..p + n], n);
  }

  /** And from where `prior` goes, `next` returns. */
  lemma NextUndoesPrior(s: seq<bv8>, q: nat) returns (p: nat)
    requires InLanguage(s) && 0 < q <= |s| && InLanguage(s[..q])
    ensures StepsBack(s, 0, q, p) && InLanguage(s[..p])
    ensures Judge(s[p..]).Good? && p + Judge(s[p..]).length == q
  {
    hide Judge, IsTrail, InLanguage;
    LanguageIsDecodable([]);
    assert s[..0] == [];
    p := 0;
    BoundaryDecodes(s, 0);
    while p + Judge(s[p..]).length < q
      invariant p < q && InLanguage(s[..p]) && Judge(s[p..]).Good?
      decreases q - p
    {
      BoundaryDecodes(s, p);
      p := p + Judge(s[p..]).length;
      BoundaryDecodes(s, p);
    }
    PriorUndoesNext(s, 0, p);
    var end := p + Judge(s[p..]).length;
    if q < end {
      StartsAreLeads(s, q);
    }
  }

  // ---------- The functions ----------

  method Append(cp: bv32, result: seq<bv8>) returns (thrown: Option<Exception>, result': seq<bv8>)
    ensures IsCodePointValid(cp) ==> thrown == None && result' == result + Encode(cp)
    ensures !IsCodePointValid(cp) ==> thrown == Some(BadCodePoint(cp)) && result' == result
  {
    result' := result;
    if !IsCodePointValid(cp) {
      return Some(BadCodePoint(cp)), result';
    }
    if cp < 0x80 {
      result' := result' + [Narrow(cp)];
    } else if cp < 0x800 {
      result' := result' + [Narrow((cp >> 6) | 0xc0)];
      result' := result' + [Narrow((cp & 0x3f) | 0x80)];
    } else if cp < 0x10000 {
      result' := result' + [Narrow((cp >> 12) | 0xe0)];
      result' := result' + [Narrow(((cp >> 6) & 0x3f) | 0x80)];
      result' := result' + [Narrow((cp & 0x3f) | 0x80)];
    } else {
      result' := result' + [Narrow((cp >> 18) | 0xf0)];
      result' := result' + [Narrow(((cp >> 12) & 0x3f) | 0x80)];
      result' := result' + [Narrow(((cp >> 6) & 0x3f) | 0x80)];
      result' := result' + [Narrow((cp & 0x3f) | 0x80)];
    }
    thrown := None;
  }

  /** Dereferences its iterator first, so it must not be at the end. */
  method Next(s: seq<bv8>, it: nat, end: nat) returns (thrown: Option<Exception>, it': nat, cp: bv32)
    requires it < end <= |s|
    ensures var j := Judge(s[it..end]);
            if j.Good? then thrown == None && it' == it + j.length <= end && cp == j.cp
            else thrown == Some(NextFault(s[it..end])) && it' == it
  {
    hide Judge;
    var err;
    cp := 0;
    err, it', cp := ValidateNext(s, it, end, cp);
    match err
    case None => thrown := None;
    case Some(NotEnoughRoom) => thrown := Some(NoRoom);
    case Some(InvalidCodePoint) => thrown := Some(BadCodePoint(cp));
    case Some(_) => thrown := Some(BadUtf8(s[it']));
  }

  method PeekNext(s: seq<bv8>, it: nat, end: nat) returns (thrown: Option<Exception>, cp: bv32)
    requires it < end <= |s|
    ensures var j := Judge(s[it..end]);
            if j.Good? then thrown == None && cp == j.cp else thrown == Some(NextFault(s[it..end]))
  {
    hide Judge;
    var it';
    thrown, it', cp := Next(s, it, end);
  }

  method Prior(s: seq<bv8>, it: nat, start: nat) returns (thrown: Option<Exception>, it': nat, cp: bv32)
    requires start <= it <= |s|
    ensures start <= it' <= it
    ensures it == start ==> thrown == Some(NoRoom) && it' == it
    ensures start < it && (forall i | start <= i < it :: IsTrail(s[i])) ==>
              thrown == Some(BadUtf8(s[start])) && it' == start
    ensures (exists i :: start <= i < it && !IsTrail(s[i])) ==>
              && StepsBack(s, start, it, it')
              && var j := Judge(s[it'..it]);
                 if j.Good? then thrown == None && cp == j.cp else thrown == Some(NextFault(s[it'..it]))
  {
    hide Judge, IsTrail;
    it', cp := it, 0;
    if it == start {
      return Some(NoRoom), it', cp;
    }
    var end := it;
    it' := it' - 1;
    while IsTrail(s[it'])
      invariant start <= it' < end
      invariant forall i | it' < i < end :: IsTrail(s[i])
      decreases it'
    {
      if it' == start {
        return Some(BadUtf8(s[it'])), it', cp;
      }
      it' := it' - 1;
    }
    thrown, cp := PeekNext(s, it', end);
  }
}
