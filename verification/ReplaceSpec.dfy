// What replacing every occurrence of a needle means: the text is cut at the occurrences
// a greedy scan chooses, from the left or from the right, and the pieces are joined
// again around the new text.
module ReplaceSpec {
  import opened Wrappers
  import opened TextSearch

  // The pieces between the occurrences a left-to-right greedy scan picks.
  function SplitLeft(s: string, w: string): (ps: seq<string>)
    requires w != ""
    ensures |ps| >= 1
    decreases |s|
  {
    match Find(s, w, 0)
    case None => [s]
    case Some(p) => [s[..p]] + SplitLeft(s[p + |w|..], w)
  }

  function LastOccurrence(s: string, w: string): (r: Option<nat>)
    ensures r.Some? ==> r.value + |w| <= |s|
  {
    if |s| < |w| then None else RFind(s, w, |s| - |w|)
  }

  lemma LastOccurrenceIsRightmost(s: string, w: string)
    ensures LastOccurrence(s, w).Some? ==> OccursAt(s, w, LastOccurrence(s, w).value)
    ensures forall q :: OccursAt(s, w, q) ==>
              LastOccurrence(s, w).Some? && q <= LastOccurrence(s, w).value
  {
    if |s| >= |w| {
      RFindIsRightmost(s, w, |s| - |w|);
    }
  }

  // The pieces between the occurrences a right-to-left greedy scan picks.
  function SplitRight(s: string, w: string): (ps: seq<string>)
    requires w != ""
    ensures |ps| >= 1
    decreases |s|
  {
    match LastOccurrence(s, w)
    case None => [s]
    case Some(p) => SplitRight(s[..p], w) + [s[p + |w|..]]
  }

  function Join(ps: seq<string>, v: string): string
    requires |ps| >= 1
  {
    if |ps| == 1 then ps[0] else ps[0] + v + Join(ps[1..], v)
  }

  function ReplaceLeft(s: string, w: string, v: string): string
    requires w != ""
  {
    Join(SplitLeft(s, w), v)
  }

  function ReplaceRight(s: string, w: string, v: string): string
    requires w != ""
  {
    Join(SplitRight(s, w), v)
  }

  function LeftCount(s: string, w: string): nat
    requires w != ""
  {
    |SplitLeft(s, w)| - 1
  }

  // What Replace computes: the direction depends on which text is longer.
  function Replaced(s: string, w: string, v: string): string
    requires w != ""
  {
    if |w| >= |v| then ReplaceLeft(s, w, v) else ReplaceRight(s, w, v)
  }

  // ---------- The left and right greedy scans choose equally many ----------

  lemma LeftCountStep(s: string, w: string)
    requires w != ""
    ensures LeftCount(s, w) == match Find(s, w, 0)
                               case None => 0
                               case Some(q) => 1 + LeftCount(s[q + |w|..], w)
  {
  }

  lemma {:induction false} LastOccurrenceClosesOnePiece(s: string, w: string)
    requires w != ""
    requires LastOccurrence(s, w).Some?
    ensures LeftCount(s, w) == LeftCount(s[..LastOccurrence(s, w).value], w) + 1
    decreases |s|
  {
    hide SplitLeft, Find, RFind;
    var p := LastOccurrence(s, w).value;
    FirstAndLast(s, w);
    var q := Find(s, w, 0).value;
    var next := q + |w|;
    LeftCountStep(s, w);
    LeftCountStep(s[..p], w);
    FindInPrefix(s, w, p);
    if next <= p {
      LastOccurrenceInSuffix(s, w, next);
      LastOccurrenceClosesOnePiece(s[next..], w);
      assert s[..p][next..] == s[next..][..p - next];
    } else {
      NothingAfterLast(s, w, next);
      LeftCountStep(s[next..], w);
    }
  }

  lemma FirstAndLast(s: string, w: string)
    ensures LastOccurrence(s, w).Some? <==> Find(s, w, 0).Some?
    ensures LastOccurrence(s, w).Some? ==> Find(s, w, 0).value <= LastOccurrence(s, w).value
  {
    LastOccurrenceIsRightmost(s, w);
    FindIsLeftmost(s, w, 0);
  }

  lemma LastOccurrenceInSuffix(s: string, w: string, from: nat)
    requires LastOccurrence(s, w).Some? && from <= LastOccurrence(s, w).value
    ensures LastOccurrence(s[from..], w) == Some(LastOccurrence(s, w).value - from)
  {
    LastOccurrenceIsRightmost(s, w);
    LastOccurrenceIsRightmost(s[from..], w);
    var p := LastOccurrence(s, w).value;
    OccursInSuffix(s, w, from, p);
    var r := LastOccurrence(s[from..], w);
    OccursInSuffix(s, w, from, r.value + from);
  }

  lemma NothingAfterLast(s: string, w: string, from: nat)
    requires LastOccurrence(s, w).Some? && LastOccurrence(s, w).value < from <= |s|
    ensures Find(s[from..], w, 0) == None
  {
    LastOccurrenceIsRightmost(s, w);
    FindIsLeftmost(s[from..], w, 0);
    var r := Find(s[from..], w, 0);
    if r.Some? {
      OccursInSuffix(s, w, from, r.value + from);
    }
  }

  lemma FindInPrefix(s: string, w: string, end: nat)
    requires end <= |s|
    ensures Find(s[..end], w, 0) ==
            if Find(s, w, 0).Some? && Find(s, w, 0).value + |w| <= end then Find(s, w, 0) else None
  {
    FindIsLeftmost(s, w, 0);
    FindIsLeftmost(s[..end], w, 0);
    if Find(s[..end], w, 0).Some? {
      OccursInPrefix(s, w, end, Find(s[..end], w, 0).value);
    }
    if Find(s, w, 0).Some? {
      OccursInPrefix(s, w, end, Find(s, w, 0).value);
    }
  }

  lemma {:induction false} GreedyCountsAgree(s: string, w: string)
    requires w != ""
    ensures |SplitLeft(s, w)| == |SplitRight(s, w)|
    decreases |s|
  {
    FirstAndLast(s, w);
    match LastOccurrence(s, w) {
      case None =>
      case Some(p) =>
        LastOccurrenceClosesOnePiece(s, w);
        GreedyCountsAgree(s[..p], w);
    }
  }

  // ---------- Cutting loses nothing ----------

  lemma {:induction false} JoinAppend(ps: seq<string>, x: string, v: string)
    requires |ps| >= 1
    ensures Join(ps + [x], v) == Join(ps, v) + v + x
  {
    if |ps| > 1 {
      assert (ps + [x])[1..] == ps[1..] + [x];
      JoinAppend(ps[1..], x, v);
      assert Join(ps + [x], v) == ps[0] + v + (Join(ps[1..], v) + v + x);
    } else {
      assert (ps + [x])[1..] == [x];
    }
  }

  lemma {:induction false} SplitLeftJoins(s: string, w: string)
    requires w != ""
    ensures Join(SplitLeft(s, w), w) == s
    decreases |s|
  {
    hide Find;
    match Find(s, w, 0) {
      case None =>
      case Some(p) =>
        var t := s[p + |w|..];
        FindIsLeftmost(s, w, 0);
        SplitLeftJoins(t, w);
        assert SplitLeft(s, w)[1..] == SplitLeft(t, w);
        assert s == s[..p] + w + t;
    }
  }

  lemma {:induction false} SplitRightJoins(s: string, w: string)
    requires w != ""
    ensures Join(SplitRight(s, w), w) == s
    decreases |s|
  {
    hide Join, RFind, LastOccurrence;
    JoinOne(s, w);
    match LastOccurrence(s, w) {
      case None =>
      case Some(p) =>
        LastOccurrenceIsRightmost(s, w);
        SplitRightJoins(s[..p], w);
        JoinAppend(SplitRight(s[..p], w), s[p + |w|..], w);
        assert s == s[..p] + w + s[p + |w|..];
    }
  }

  lemma JoinOne(s: string, v: string)
    ensures Join([s], v) == s
  {
  }

  // ---------- One step of a replacement ----------

  lemma ReplaceLeftStep(s: string, w: string, v: string)
    requires w != ""
    ensures Find(s, w, 0).None? ==> ReplaceLeft(s, w, v) == s
    ensures Find(s, w, 0).Some? ==>
              var p := Find(s, w, 0).value;
              ReplaceLeft(s, w, v) == s[..p] + v + ReplaceLeft(s[p + |w|..], w, v)
  {
    if Find(s, w, 0).Some? {
      var p := Find(s, w, 0).value;
      assert SplitLeft(s, w)[1..] == SplitLeft(s[p + |w|..], w);
    }
  }

  lemma ReplaceRightStep(s: string, w: string, v: string)
    requires w != ""
    ensures LastOccurrence(s, w).None? ==> ReplaceRight(s, w, v) == s
    ensures LastOccurrence(s, w).Some? ==>
              var p := LastOccurrence(s, w).value;
              ReplaceRight(s, w, v) == ReplaceRight(s[..p], w, v) + v + s[p + |w|..]
  {
    if LastOccurrence(s, w).Some? {
      var p := LastOccurrence(s, w).value;
      JoinAppend(SplitRight(s[..p], w), s[p + |w|..], v);
    }
  }
}
