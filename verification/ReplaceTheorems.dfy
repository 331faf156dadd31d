// What replacing every occurrence guarantees, whichever of the two loops ran.
module ReplaceTheorems {
  import opened Wrappers
  import opened TextSearch
  import opened ReplaceSpec

  // ---------- Both greedy scans take as many occurrences as possible ----------

  ghost predicate DisjointOccurrences(s: string, w: string, ps: seq<nat>) {
    && (forall i :: 0 <= i < |ps| ==> OccursAt(s, w, ps[i]))
    && (forall i, j :: 0 <= i < j < |ps| ==> ps[i] + |w| <= ps[j])
  }

  function Shift(ps: seq<nat>, k: nat): (r: seq<nat>)
    ensures |r| == |ps|
    ensures forall i :: 0 <= i < |ps| ==> r[i] == ps[i] + k
  {
    seq(|ps|, i requires 0 <= i < |ps| => ps[i] + k)
  }

  function LeftCuts(s: string, w: string): seq<nat>
    requires w != ""
    decreases |s|
  {
    match Find(s, w, 0)
    case None => []
    case Some(p) => [p] + Shift(LeftCuts(s[p + |w|..], w), p + |w|)
  }

  lemma {:induction false} LeftCutsAreDisjoint(s: string, w: string)
    requires w != ""
    ensures DisjointOccurrences(s, w, LeftCuts(s, w))
    ensures |LeftCuts(s, w)| == LeftCount(s, w)
    decreases |s|
  {
    hide Find, SplitLeft, LeftCount, OccursAt, Shift, DisjointOccurrences;
    LeftCountStep(s, w);
    match Find(s, w, 0) {
      case None =>
        NoCuts(s, w);
      case Some(p) =>
        LeftCutsAreDisjoint(s[p + |w|..], w);
        FindIsLeftmost(s, w, 0);
        PrependCut(s, w, p, LeftCuts(s[p + |w|..], w));
    }
  }

  lemma NoCuts(s: string, w: string)
    ensures DisjointOccurrences(s, w, [])
  {
  }

  lemma PrependCut(s: string, w: string, p: nat, ps: seq<nat>)
    requires OccursAt(s, w, p)
    requires DisjointOccurrences(s[p + |w|..], w, ps)
    ensures DisjointOccurrences(s, w, [p] + Shift(ps, p + |w|))
  {
    var cuts := Shift(ps, p + |w|);
    forall i | 0 <= i < |ps|
      ensures OccursAt(s, w, cuts[i])
    {
      OccursInSuffix(s, w, p + |w|, ps[i] + (p + |w|));
    }
  }

  lemma {:induction false} GreedyIsMaximal(s: string, w: string, ps: seq<nat>)
    requires w != ""
    requires DisjointOccurrences(s, w, ps)
    ensures |ps| <= LeftCount(s, w)
    decreases |s|
  {
    hide Find, SplitLeft;
    LeftCountStep(s, w);
    if ps != [] {
      FindIsLeftmost(s, w, 0);
      assert OccursAt(s, w, ps[0]);
      var next := Find(s, w, 0).value + |w|;
      var shifted := seq(|ps| - 1, i requires 0 <= i < |ps| - 1 => ps[i + 1] - next);
      forall i | 0 <= i < |shifted|
        ensures OccursAt(s[next..], w, shifted[i])
      {
        OccursInSuffix(s, w, next, ps[i + 1]);
      }
      GreedyIsMaximal(s[next..], w, shifted);
    }
  }

  // ---------- Length ----------

  lemma {:induction false} JoinLength(ps: seq<string>, v: string, w: string)
    requires |ps| >= 1
    ensures |Join(ps, v)| == |Join(ps, w)| + (|ps| - 1) * (|v| - |w|)
  {
    if |ps| > 1 {
      JoinLength(ps[1..], v, w);
    }
  }

  lemma ReplacedLength(s: string, w: string, v: string)
    requires w != ""
    ensures |Replaced(s, w, v)| == |s| + LeftCount(s, w) * (|v| - |w|)
  {
    hide SplitLeft, SplitRight, Join;
    SplitLeftJoins(s, w);
    SplitRightJoins(s, w);
    GreedyCountsAgree(s, w);
    JoinLength(SplitLeft(s, w), v, w);
    JoinLength(SplitRight(s, w), v, w);
  }

  // ---------- When the direction does not matter ----------

  ghost predicate Borderless(w: string) {
    forall k :: 0 < k < |w| ==> w[..k] != w[|w| - k..]
  }

  lemma OverlapGivesBorder(s: string, w: string, q: nat, p: nat)
    requires OccursAt(s, w, q) && OccursAt(s, w, p) && q < p < q + |w|
    ensures var k := q + |w| - p; w[..k] == w[|w| - k..]
  {
    var k := q + |w| - p;
    assert s[p..p + |w|][..k] == s[p..p + k];
    assert s[q..q + |w|][|w| - k..] == s[p..p + k];
  }

  lemma {:induction false} LastPieceOfLeftSplit(s: string, w: string)
    requires w != "" && Borderless(w)
    requires LastOccurrence(s, w).Some?
    ensures var p := LastOccurrence(s, w).value;
            SplitLeft(s, w) == SplitLeft(s[..p], w) + [s[p + |w|..]]
    decreases |s|
  {
    hide Find, RFind, LastOccurrence;
    var p := LastOccurrence(s, w).value;
    FirstAndLast(s, w);
    var q := Find(s, w, 0).value;
    FindInPrefix(s, w, p);
    if q == p {
      NothingAfterLast(s, w, p + |w|);
    } else {
      FindIsLeftmost(s, w, 0);
      LastOccurrenceIsRightmost(s, w);
      if p < q + |w| {
        OverlapGivesBorder(s, w, q, p);
      }
      var next := q + |w|;
      LastOccurrenceInSuffix(s, w, next);
      LastPieceOfLeftSplit(s[next..], w);
      assert s[..p][next..] == s[next..][..p - next];
      assert s[..p][..q] == s[..q];
      assert s[next..][p - next + |w|..] == s[p + |w|..];
    }
  }

  lemma {:induction false} BorderlessSplitsAgree(s: string, w: string)
    requires w != "" && Borderless(w)
    ensures SplitLeft(s, w) == SplitRight(s, w)
    decreases |s|
  {
    FirstAndLast(s, w);
    match LastOccurrence(s, w) {
      case None =>
      case Some(p) =>
        LastPieceOfLeftSplit(s, w);
        BorderlessSplitsAgree(s[..p], w);
    }
  }

  lemma BorderShowsTheDirection(w: string, k: nat) returns (s: string, v: string)
    requires 0 < k < |w| && w[..k] == w[|w| - k..]
    ensures ReplaceLeft(s, w, v) != ReplaceRight(s, w, v)
  {
    hide SplitLeft, SplitRight, Join, Find, RFind, LastOccurrence;
    s := w + w[k..];
    v := [if w[0] == 'a' then 'b' else 'a'];
    assert s[..|w|] == w;
    assert OccursAt(s, w, 0);
    FindIsLeftmost(s, w, 0);
    ReplaceLeftStep(s, w, v);
    assert ReplaceLeft(s, w, v)[0] == v[0];
    var h := |w| - k;
    assert s[h..h + |w|] == w by {
      assert s[h..h + |w|] == w[h..] + w[k..] == w[..k] + w[k..];
    }
    assert OccursAt(s, w, h);
    LastOccurrenceIsRightmost(s, w);
    ReplaceRightStep(s, w, v);
    LastOccurrenceIsRightmost(s[..h], w);
    ReplaceRightStep(s[..h], w, v);
    assert ReplaceRight(s, w, v)[0] == s[0];
  }

  // The two loops give the same text for every input exactly when the needle does
  // not overlap itself.
  lemma DirectionsAgreeIffBorderless(w: string)
    requires w != ""
    ensures Borderless(w) <==> forall s, v :: ReplaceLeft(s, w, v) == ReplaceRight(s, w, v)
  {
    if Borderless(w) {
      forall s, v
        ensures ReplaceLeft(s, w, v) == ReplaceRight(s, w, v)
      {
        BorderlessSplitsAgree(s, w);
      }
    } else {
      var k :| 0 < k < |w| && w[..k] == w[|w| - k..];
      var s, v := BorderShowsTheDirection(w, k);
    }
  }

  // ---------- Round trip ----------

  ghost predicate FreeOf(ps: seq<string>, c: char) {
    forall i :: 0 <= i < |ps| ==> c !in ps[i]
  }

  lemma {:induction false} PiecesFreeOf(s: string, w: string, c: char)
    requires w != "" && c !in s
    ensures FreeOf(SplitLeft(s, w), c) && FreeOf(SplitRight(s, w), c)
    decreases |s|
  {
    if Find(s, w, 0).Some? {
      PiecesFreeOf(s[Find(s, w, 0).value + |w|..], w, c);
    }
    if LastOccurrence(s, w).Some? {
      PiecesFreeOf(s[..LastOccurrence(s, w).value], w, c);
    }
  }

  lemma {:induction false} SplitLeftUndoesJoin(ps: seq<string>, v: string, c: char)
    requires |ps| >= 1 && c in v && FreeOf(ps, c)
    ensures SplitLeft(Join(ps, v), v) == ps
  {
    hide Find;
    var t := Join(ps, v);
    FindIsLeftmost(t, v, 0);
    if |ps| == 1 {
      if Find(t, v, 0).Some? {
        OccurrenceCarries(t, v, Find(t, v, 0).value, c);
      }
    } else {
      var rest := Join(ps[1..], v);
      assert t == ps[0] + v + rest;
      FirstSeparator(ps[0], v, rest, c);
      assert t[|ps[0]| + |v|..] == rest;
      assert t[..|ps[0]|] == ps[0];
      SplitLeftUndoesJoin(ps[1..], v, c);
    }
  }

  lemma OccurrenceCarries(t: string, v: string, q: nat, c: char)
    requires OccursAt(t, v, q) && c in v
    ensures c in t
  {
    var i :| 0 <= i < |v| && v[i] == c;
    assert t[q + i] == t[q..q + |v|][i];
  }

  lemma FirstSeparator(a: string, v: string, b: string, c: char)
    requires c in v && c !in a
    ensures Find(a + v + b, v, 0) == Some(|a|)
  {
    var t := a + v + b;
    FindIsLeftmost(t, v, 0);
    assert t[|a|..|a| + |v|] == v;
    assert OccursAt(t, v, |a|);
    var p := Find(t, v, 0).value;
    var f := FirstIndex(v, c);
    assert t[p + f] == t[p..p + |v|][f];
  }

  lemma {:induction false} FirstIndex(v: string, c: char) returns (f: nat)
    requires c in v
    ensures f < |v| && v[f] == c && c !in v[..f]
  {
    if v[0] == c {
      f := 0;
    } else {
      f := FirstIndex(v[1..], c);
      f := f + 1;
      assert v[..f] == [v[0]] + v[1..][..f - 1];
    }
  }

  lemma {:induction false} SplitRightUndoesJoin(ps: seq<string>, v: string, c: char)
    requires |ps| >= 1 && c in v && FreeOf(ps, c)
    ensures SplitRight(Join(ps, v), v) == ps
    decreases |ps|
  {
    hide RFind, LastOccurrence;
    var t := Join(ps, v);
    LastOccurrenceIsRightmost(t, v);
    if |ps| == 1 {
      if LastOccurrence(t, v).Some? {
        OccurrenceCarries(t, v, LastOccurrence(t, v).value, c);
      }
    } else {
      var m := |ps| - 1;
      assert ps == ps[..m] + [ps[m]];
      JoinAppend(ps[..m], ps[m], v);
      var front := Join(ps[..m], v);
      LastSeparator(front, v, ps[m], c);
      assert t[..|front|] == front;
      assert t[|front| + |v|..] == ps[m];
      SplitRightUndoesJoin(ps[..m], v, c);
    }
  }

  lemma LastSeparator(a: string, v: string, b: string, c: char)
    requires c in v && c !in b
    ensures LastOccurrence(a + v + b, v) == Some(|a|)
  {
    var t := a + v + b;
    LastOccurrenceIsRightmost(t, v);
    assert t[|a|..|a| + |v|] == v;
    assert OccursAt(t, v, |a|);
    var p := LastOccurrence(t, v).value;
    var l := LastIndex(v, c);
    assert t[p + l] == t[p..p + |v|][l];
  }

  lemma {:induction false} LastIndex(v: string, c: char) returns (l: nat)
    requires c in v
    ensures l < |v| && v[l] == c && c !in v[l + 1..]
  {
    if c in v[1..] {
      l := LastIndex(v[1..], c);
      l := l + 1;
    } else {
      l := 0;
    }
  }

  // Replacing back restores the text when the new text brings a character the old
  // text does not have.
  lemma ReplaceRoundTrip(str: string, what: string, with_: string, c: char)
    requires what != ""
    requires c in with_ && c !in str
    ensures Replaced(Replaced(str, what, with_), with_, what) == str
  {
    PiecesFreeOf(str, what, c);
    SplitLeftJoins(str, what);
    SplitRightJoins(str, what);
    SplitLeftUndoesJoin(SplitLeft(str, what), with_, c);
    SplitRightUndoesJoin(SplitLeft(str, what), with_, c);
    SplitLeftUndoesJoin(SplitRight(str, what), with_, c);
  }

  // ---------- Replacing one isolated occurrence ----------

  // Every other occurrence keeps clear of the one at position p.
  ghost predicate Isolated(s: string, w: string, p: nat) {
    && OccursAt(s, w, p)
    && forall q :: OccursAt(s, w, q) ==> q == p || q + |w| <= p || p + |w| <= q
  }

  lemma CountWithAnother(s: string, w: string, q: nat, p: nat)
    requires w != "" && OccursAt(s, w, q) && OccursAt(s, w, p) && q + |w| <= p
    ensures LeftCount(s, w) >= 2
  {
    GreedyIsMaximal(s, w, [q, p]);
  }

  lemma ReplacingOnlyOccurrence(s: string, w: string, v: string, p: nat)
    requires w != "" && Isolated(s, w, p) && LeftCount(s, w) == 1
    ensures Replaced(s, w, v) == s[..p] + v + s[p + |w|..]
  {
    hide Find, RFind, LastOccurrence, SplitLeft, SplitRight, Join;
    FindIsLeftmost(s, w, 0);
    LastOccurrenceIsRightmost(s, w);
    var first, last := Find(s, w, 0).value, LastOccurrence(s, w).value;
    if first != p {
      CountWithAnother(s, w, first, p);
    }
    if last != p {
      CountWithAnother(s, w, p, last);
    }
    NothingAfterLast(s, w, p + |w|);
    ReplaceLeftStep(s, w, v);
    ReplaceLeftStep(s[p + |w|..], w, v);
    FindInPrefix(s, w, p);
    FirstAndLast(s[..p], w);
    ReplaceRightStep(s, w, v);
    ReplaceRightStep(s[..p], w, v);
  }

  // With texts of equal length, the first occurrence visibly changes.
  lemma SameLengthReplacementShows(s: string, w: string, v: string)
    requires w != "" && |w| == |v| && w != v
    requires Find(s, w, 0).Some?
    ensures var q := Find(s, w, 0).value;
            && |ReplaceLeft(s, w, v)| == |s|
            && ReplaceLeft(s, w, v)[q..q + |w|] == v != s[q..q + |w|]
  {
    hide Find, SplitLeft, Join;
    ReplacedLength(s, w, v);
    ReplaceLeftStep(s, w, v);
    FindIsLeftmost(s, w, 0);
  }

  lemma EqualLengthsShowTheOther(s: string, w: string, v: string, p: nat)
    requires w != "" && |w| == |v| && w != v && Isolated(s, w, p) && LeftCount(s, w) != 1
    ensures Replaced(s, w, v) != s[..p] + v + s[p + |w|..]
  {
    hide SplitLeft, Join, Find, ReplaceLeft;
    FindIsLeftmost(s, w, 0);
    SameLengthReplacementShows(s, w, v);
    var q := Find(s, w, 0).value;
    var x := s[..p] + v + s[p + |w|..];
    var t := s[p + |w|..];
    if q != p {
      assert x[q..q + |w|] == s[q..q + |w|];
    } else {
      ReplaceLeftStep(s, w, v);
      LeftCountStep(s, w);
      LeftCountStep(t, w);
      SameLengthReplacementShows(t, w, v);
      assert Replaced(s, w, v)[p + |w|..] == ReplaceLeft(t, w, v);
      assert x[p + |w|..] == t;
    }
  }

  // An isolated occurrence is the only thing that changes exactly when the count of
  // occurrences is one.
  lemma OnlyThatOccurrenceChangesIff(s: string, w: string, v: string, p: nat)
    requires w != "" && v != w && Isolated(s, w, p)
    ensures Replaced(s, w, v) == s[..p] + v + s[p + |w|..] <==> LeftCount(s, w) == 1
  {
    hide SplitLeft, SplitRight, Join, Find, Replaced, LeftCount;
    if LeftCount(s, w) == 1 {
      ReplacingOnlyOccurrence(s, w, v, p);
    } else if |v| == |w| {
      EqualLengthsShowTheOther(s, w, v, p);
    } else {
      ReplacedLength(s, w, v);
      GreedyIsMaximal(s, w, [p]);
      OtherMultiplesDiffer(LeftCount(s, w), |v| - |w|);
    }
  }

  lemma OtherMultiplesDiffer(n: nat, d: int)
    requires n >= 2 && d != 0
    ensures n * d != d
  {
  }

  // ---------- A text in parts ----------

  lemma {:induction false} JoinParts(xs: seq<string>, ys: seq<string>, v: string)
    requires |xs| >= 1 && |ys| >= 1
    ensures Join(xs + ys, v) == Join(xs, v) + v + Join(ys, v)
  {
    if |xs| == 1 {
      assert (xs + ys)[1..] == ys;
    } else {
      assert (xs + ys)[1..] == xs[1..] + ys;
      JoinParts(xs[1..], ys, v);
      var a, b, c := xs[0], Join(xs[1..], v), Join(ys, v);
      assert a + v + (b + v + c) == (a + v + b) + v + c;
    }
  }

  lemma IsolatedInSuffix(s: string, w: string, p: nat, from: nat)
    requires w != "" && Isolated(s, w, p) && from <= p
    ensures Isolated(s[from..], w, p - from)
  {
    OccursInSuffix(s, w, from, p);
    forall q | OccursAt(s[from..], w, q)
      ensures q == p - from || q + |w| <= p - from || p - from + |w| <= q
    {
      OccursInSuffix(s, w, from, q + from);
    }
  }

  lemma IsolatedInPrefix(s: string, w: string, p: nat, end: nat)
    requires w != "" && Isolated(s, w, p) && p + |w| <= end <= |s|
    ensures Isolated(s[..end], w, p)
  {
    OccursInPrefix(s, w, end, p);
    forall q | OccursAt(s[..end], w, q)
      ensures q == p || q + |w| <= p || p + |w| <= q
    {
      OccursInPrefix(s, w, end, q);
    }
  }

  // Both scans cut at an isolated occurrence, and the texts before and behind it are
  // cut as if they stood alone.
  lemma {:induction false} SplitLeftAtIsolated(s: string, w: string, p: nat)
    requires w != "" && Isolated(s, w, p)
    ensures SplitLeft(s, w) == SplitLeft(s[..p], w) + SplitLeft(s[p + |w|..], w)
    decreases |s|
  {
    hide Find;
    FindIsLeftmost(s, w, 0);
    FindInPrefix(s, w, p);
    var q := Find(s, w, 0).value;
    if q < p {
      var next := q + |w|;
      IsolatedInSuffix(s, w, p, next);
      SplitLeftAtIsolated(s[next..], w, p - next);
      assert s[next..][..p - next] == s[..p][next..];
      assert s[next..][p - next + |w|..] == s[p + |w|..];
      assert s[..p][..q] == s[..q];
    }
  }

  lemma {:induction false} SplitRightAtIsolated(s: string, w: string, p: nat)
    requires w != "" && Isolated(s, w, p)
    ensures SplitRight(s, w) == SplitRight(s[..p], w) + SplitRight(s[p + |w|..], w)
    decreases |s|
  {
    hide LastOccurrence;
    LastOccurrenceIsRightmost(s, w);
    var q := LastOccurrence(s, w).value;
    var from := p + |w|;
    if p < q {
      IsolatedInPrefix(s, w, p, q);
      SplitRightAtIsolated(s[..q], w, p);
      LastOccurrenceInSuffix(s, w, from);
      assert s[..q][..p] == s[..p];
      assert s[..q][from..] == s[from..][..q - from];
      assert s[from..][q - from + |w|..] == s[q + |w|..];
    } else {
      NothingAfterLast(s, w, from);
      FirstAndLast(s[from..], w);
    }
  }

  lemma ReplacedAtIsolated(s: string, w: string, v: string, p: nat)
    requires w != "" && Isolated(s, w, p)
    ensures p + |w| <= |s|
    ensures Replaced(s, w, v) == Replaced(s[..p], w, v) + v + Replaced(s[p + |w|..], w, v)
  {
    hide SplitLeft, SplitRight, Join;
    SplitLeftAtIsolated(s, w, p);
    SplitRightAtIsolated(s, w, p);
    JoinParts(SplitLeft(s[..p], w), SplitLeft(s[p + |w|..], w), v);
    JoinParts(SplitRight(s[..p], w), SplitRight(s[p + |w|..], w), v);
  }

  // What stands behind every occurrence is not touched.
  lemma {:induction false} UntouchedEndLeft(s: string, x: string, w: string, v: string)
    requires w != "" && forall q :: OccursAt(s + x, w, q) ==> q + |w| <= |s|
    ensures ReplaceLeft(s + x, w, v) == ReplaceLeft(s, w, v) + x
    decreases |s|
  {
    hide Find, ReplaceLeft, OccursAt;
    FindIsLeftmost(s + x, w, 0);
    FindInPrefix(s + x, w, |s|);
    assert (s + x)[..|s|] == s;
    ReplaceLeftStep(s, w, v);
    ReplaceLeftStep(s + x, w, v);
    if Find(s, w, 0).Some? {
      var q := Find(s, w, 0).value;
      var next := q + |w|;
      assert (s + x)[next..] == s[next..] + x;
      forall i | OccursAt(s[next..] + x, w, i)
        ensures i + |w| <= |s[next..]|
      {
        OccursWithin(s[next..] + x, w, i);
        OccursInSuffix(s + x, w, next, i + next);
      }
      UntouchedEndLeft(s[next..], x, w, v);
      assert (s + x)[..q] == s[..q];
    }
  }

  lemma OccursWithin(s: string, w: string, p: int)
    requires OccursAt(s, w, p)
    ensures 0 <= p && p + |w| <= |s|
    ensures forall i :: p <= i < p + |w| ==> s[i] == w[i - p]
  {
  }

  lemma SameLastOccurrence(s: string, x: string, w: string)
    requires forall q :: OccursAt(s + x, w, q) ==> q + |w| <= |s|
    ensures LastOccurrence(s + x, w) == LastOccurrence(s, w)
  {
    hide OccursAt, LastOccurrence;
    LastOccurrenceIsRightmost(s, w);
    LastOccurrenceIsRightmost(s + x, w);
    assert (s + x)[..|s|] == s;
    if LastOccurrence(s + x, w).Some? {
      OccursInPrefix(s + x, w, |s|, LastOccurrence(s + x, w).value);
    }
    if LastOccurrence(s, w).Some? {
      OccursInPrefix(s + x, w, |s|, LastOccurrence(s, w).value);
    }
  }

  lemma UntouchedEndRight(s: string, x: string, w: string, v: string)
    requires w != "" && LastOccurrence(s + x, w) == LastOccurrence(s, w)
    ensures ReplaceRight(s + x, w, v) == ReplaceRight(s, w, v) + x
  {
    hide *;
    ReplaceRightStep(s, w, v);
    ReplaceRightStep(s + x, w, v);
    if LastOccurrence(s, w).Some? {
      var p := LastOccurrence(s, w).value;
      assert (s + x)[..p] == s[..p];
      var a, rest := ReplaceRight(s[..p], w, v), s[p + |w|..];
      assert (s + x)[p + |w|..] == rest + x;
      assert a + v + (rest + x) == a + v + rest + x;
    }
  }

  lemma UntouchedEnd(s: string, x: string, w: string, v: string)
    requires w != "" && forall q :: OccursAt(s + x, w, q) ==> q + |w| <= |s|
    ensures Replaced(s + x, w, v) == Replaced(s, w, v) + x
  {
    hide ReplaceLeft, ReplaceRight, LastOccurrence, OccursAt;
    UntouchedEndLeft(s, x, w, v);
    SameLastOccurrence(s, x, w);
    UntouchedEndRight(s, x, w, v);
  }

  // The pieces of a text whose joining around either text gives the text or its
  // replacement.
  lemma PiecesOf(s: string, w: string, v: string) returns (ps: seq<string>)
    requires w != ""
    ensures |ps| >= 1 && Join(ps, w) == s && Join(ps, v) == Replaced(s, w, v)
  {
    hide SplitLeft, SplitRight, Join;
    SplitLeftJoins(s, w);
    SplitRightJoins(s, w);
    ps := if |w| >= |v| then SplitLeft(s, w) else SplitRight(s, w);
  }
}
