// Replacement of every occurrence of a needle, done in place with a read and a write
// cursor.
module StringReplace {
  import opened Wrappers
  import opened TextSearch
  import opened ReplaceSpec

  method CountOccurrences(str: string, needle: string) returns (res: nat)
    requires needle != ""
    ensures res == LeftCount(str, needle)
  {
    hide *;
    res := 0;
    var pos := 0;
    assert str[0..] == str;
    var found := Find(str, needle, pos);
    while found.Some?
      invariant pos <= |str|
      invariant found == Find(str, needle, pos)
      invariant res + LeftCount(str[pos..], needle) == LeftCount(str, needle)
      decreases |str| - pos
    {
      FindInSuffix(str, needle, pos);
      LeftCountStep(str[pos..], needle);
      assert str[pos..][found.value - pos + |needle|..] == str[found.value + |needle|..];
      res := res + 1;
      pos := found.value + |needle|;
      found := Find(str, needle, pos);
    }
    FindInSuffix(str, needle, pos);
    LeftCountStep(str[pos..], needle);
  }

  // The text after the range [lo, hi) was moved as a whole so that it starts at dest.
  function Moved(t: string, lo: nat, hi: nat, dest: nat): (r: string)
    requires lo <= hi <= |t| && dest + (hi - lo) <= |t|
    ensures |r| == |t|
  {
    t[..dest] + t[lo..hi] + t[dest + (hi - lo)..]
  }

  // The text after v was written over it from dest on.
  function Written(t: string, v: string, dest: nat): (r: string)
    requires dest + |v| <= |t|
    ensures |r| == |t|
  {
    t[..dest] + v + t[dest + |v|..]
  }

  // std::copy and std::copy_backward within one buffer; the source range is moved as
  // a whole, also when the two ranges overlap or coincide.
  method MoveWithin(buf: array<char>, lo: nat, hi: nat, dest: nat)
    requires lo <= hi <= buf.Length && dest + (hi - lo) <= buf.Length
    modifies buf
    ensures buf[..] == Moved(old(buf[..]), lo, hi, dest)
  {
    forall i | 0 <= i < hi - lo {
      buf[dest + i] := buf[lo + i];
    }
  }

  method CopyInto(buf: array<char>, v: string, dest: nat)
    requires dest + |v| <= buf.Length
    modifies buf
    ensures buf[..] == Written(old(buf[..]), v, dest)
  {
    forall i | 0 <= i < |v| {
      buf[dest + i] := v[i];
    }
  }

  // The unread tail of the buffer is still the original text, so a search in the
  // half-rewritten buffer finds what a search in the original would find.
  lemma FindInUnreadTail(buf: string, str: string, w: string, from: nat)
    requires |buf| == |str| && from <= |str|
    requires buf[from..] == str[from..]
    ensures Find(buf, w, from) == Find(str, w, from)
  {
    FindInSuffix(buf, w, from);
    FindInSuffix(str, w, from);
  }

  // One round of the left-to-right loop: the written part followed by the
  // replacement of the unread part stays the same text.
  lemma CompactRound(t: string, str: string, w: string, v: string, wpos: nat, rpos: nat, p: nat)
    requires w != "" && |v| <= |w|
    requires wpos <= rpos <= |str| == |t|
    requires t[rpos..] == str[rpos..]
    requires Find(str, w, rpos) == Some(p)
    ensures rpos <= p && p + |w| <= |str| && wpos + (p - rpos) + |v| <= p + |w|
    ensures var n := p - rpos;
            var t' := Written(Moved(t, rpos, p, wpos), v, wpos + n);
            && t'[p + |w|..] == str[p + |w|..]
            && t'[..wpos + n + |v|] + ReplaceLeft(str[p + |w|..], w, v)
               == t[..wpos] + ReplaceLeft(str[rpos..], w, v)
  {
    hide *;
    var n := p - rpos;
    var unread := str[rpos..];
    FindInSuffix(str, w, rpos);
    ReplaceLeftStep(unread, w, v);
    assert unread[n + |w|..] == str[p + |w|..];
    var rest := ReplaceLeft(str[p + |w|..], w, v);
    var t' := Written(Moved(t, rpos, p, wpos), v, wpos + n);
    RoundText(t, str, v, wpos, rpos, p, p + |w|);
    assert t[..wpos] + (unread[..n] + v + rest) == t[..wpos] + unread[..n] + v + rest;
  }

  lemma RoundText(t: string, str: string, v: string, wpos: nat, rpos: nat, p: nat, next: nat)
    requires wpos <= rpos <= p <= next <= |str| == |t|
    requires t[rpos..] == str[rpos..]
    requires wpos + (p - rpos) + |v| <= next
    ensures var t' := Written(Moved(t, rpos, p, wpos), v, wpos + (p - rpos));
            && t'[next..] == str[next..]
            && t'[..wpos + (p - rpos) + |v|] == t[..wpos] + str[rpos..][..p - rpos] + v
  {
    assert t[rpos..p] == t[rpos..][..p - rpos];
    assert t[next..] == t[rpos..][next - rpos..];
    assert str[next..] == str[rpos..][next - rpos..];
  }

  method ReplaceNotLonger(str: string, what: string, with_: string) returns (r: string)
    requires what != ""
    requires |what| >= |with_|
    ensures r == ReplaceLeft(str, what, with_)
  {
    hide *;
    var buf := new char[|str|](i requires 0 <= i < |str| => str[i]);
    var wpos: nat, rpos: nat := 0, 0;
    ghost var t := buf[..];
    assert t[0..] == str[0..] == str;
    while true
      invariant wpos <= rpos <= |str| == buf.Length
      invariant t == buf[..]
      invariant t[rpos..] == str[rpos..]
      invariant t[..wpos] + ReplaceLeft(str[rpos..], what, with_) == ReplaceLeft(str, what, with_)
      decreases |str| - rpos
    {
      FindInUnreadTail(t, str, what, rpos);
      var found := Find(buf[..], what, rpos);
      var newRpos := if found.None? then |str| else found.value;
      if found.Some? {
        CompactRound(t, str, what, with_, wpos, rpos, newRpos);
      } else {
        LastRound(t, str, what, with_, wpos, rpos);
      }
      var nDiff := newRpos - rpos;
      MoveWithin(buf, rpos, newRpos, wpos);
      t := Moved(t, rpos, newRpos, wpos);
      wpos := wpos + nDiff;
      rpos := newRpos;
      if rpos == |str| {
        break;
      }
      CopyInto(buf, with_, wpos);
      t := Written(t, with_, wpos);
      wpos := wpos + |with_|;
      rpos := rpos + |what|;
    }
    r := buf[..wpos];
  }

  lemma LastRound(t: string, str: string, w: string, v: string, wpos: nat, rpos: nat)
    requires w != "" && wpos <= rpos <= |str| == |t|
    requires t[rpos..] == str[rpos..]
    requires Find(str, w, rpos) == None
    ensures Moved(t, rpos, |str|, wpos)[..wpos + (|str| - rpos)]
            == t[..wpos] + ReplaceLeft(str[rpos..], w, v)
  {
    FindInSuffix(str, w, rpos);
    ReplaceLeftStep(str[rpos..], w, v);
    assert t[rpos..|str|] == t[rpos..];
  }

  lemma LastOccurrenceInUnreadPrefix(buf: string, str: string, w: string, end: nat)
    requires w != "" && |w| <= end <= |str| && end <= |buf|
    requires buf[..end] == str[..end]
    ensures RFind(buf, w, end - |w|) == LastOccurrence(str[..end], w)
  {
    hide RFind, OccursAt;
    RFindIsRightmost(buf, w, end - |w|);
    LastOccurrenceIsRightmost(str[..end], w);
    var r, r' := RFind(buf, w, end - |w|), LastOccurrence(str[..end], w);
    if r.Some? {
      OccursInPrefix(buf, w, end, r.value);
    }
    if r'.Some? {
      OccursInPrefix(buf, w, end, r'.value);
    }
  }

  // The two counting facts that keep the right-to-left loop inside its buffer: no
  // piece of text is lost between the last occurrence and the read cursor.
  lemma PieceAfterLastOccurrence(str: string, w: string, end: nat)
    requires w != "" && end <= |str|
    requires LastOccurrence(str[..end], w).Some?
    ensures var p := LastOccurrence(str[..end], w).value;
            p + |w| <= end && LeftCount(str[..end], w) == LeftCount(str[..p], w) + 1
  {
    var p := LastOccurrence(str[..end], w).value;
    LastOccurrenceClosesOnePiece(str[..end], w);
    assert str[..end][..p] == str[..p];
  }

  // One round of the right-to-left loop.
  lemma GrowRound(t: string, str: string, w: string, v: string, wpos: nat, rpos: nat)
    requires w != "" && |w| < |v|
    requires rpos <= |str| && wpos <= |t|
    requires wpos == rpos + Growth(LeftCount(str[..rpos], w), |v| - |w|)
    requires wpos != rpos
    requires t[..rpos] == str[..rpos]
    ensures |w| <= rpos && RFind(t, w, rpos - |w|).Some?
    ensures var p := RFind(t, w, rpos - |w|).value;
            var n := rpos - (p + |w|);
            && p + |w| <= rpos
            && wpos - n > p + |w|
            && wpos - n - |v| == p + Growth(LeftCount(str[..p], w), |v| - |w|) >= p
            && var t' := Written(Moved(t, p + |w|, rpos, wpos - n), v, wpos - n - |v|);
            && t'[..p] == str[..p]
            && ReplaceRight(str[..p], w, v) + t'[wpos - n - |v|..]
               == ReplaceRight(str[..rpos], w, v) + t[wpos..]
  {
    hide *;
    var unread := str[..rpos];
    GrowCursors(str, w, v, wpos, rpos);
    LastOccurrenceInUnreadPrefix(t, str, w, rpos);
    ReplaceRightStep(unread, w, v);
    var p := LastOccurrence(unread, w).value;
    PrefixOfPrefix(str, rpos, p);
    var head := ReplaceRight(str[..p], w, v);
    GrowText(t, str, v, wpos, rpos, p + |w|, p);
    JoinText(head, v, unread[p + |w|..], t[wpos..]);
  }

  lemma PrefixOfPrefix(s: string, j: nat, i: nat)
    requires i <= j <= |s|
    ensures s[..j][..i] == s[..i]
  {
  }

  lemma JoinText(a: string, b: string, c: string, d: string)
    ensures a + (b + c + d) == a + b + c + d
  {
  }

  lemma GrowCursors(str: string, w: string, v: string, wpos: nat, rpos: nat)
    requires w != "" && |w| < |v| && rpos <= |str|
    requires wpos == rpos + Growth(LeftCount(str[..rpos], w), |v| - |w|) && wpos != rpos
    ensures |w| <= rpos && LastOccurrence(str[..rpos], w).Some?
    ensures var p := LastOccurrence(str[..rpos], w).value;
            var n := rpos - (p + |w|);
            && p + |w| <= rpos && wpos - n > p + |w|
            && wpos - n - |v| == p + Growth(LeftCount(str[..p], w), |v| - |w|) >= p
  {
    hide *;
    var unread := str[..rpos];
    GrowthStep(LeftCount(unread, w), |v| - |w|);
    LeftCountStep(unread, w);
    FirstAndLast(unread, w);
    var p := LastOccurrence(unread, w).value;
    PieceAfterLastOccurrence(str, w, rpos);
    GrowthStep(LeftCount(str[..p], w), |v| - |w|);
  }

  // How far the write cursor runs ahead of the read cursor when k occurrences are
  // still to come and each replacement adds d characters.
  function Growth(k: nat, d: nat): nat {
    k * d
  }

  lemma GrowthStep(k: nat, d: nat)
    requires d > 0
    ensures Growth(k + 1, d) == Growth(k, d) + d
    ensures Growth(k, d) == 0 <==> k == 0
  {
  }

  lemma GrowText(t: string, str: string, v: string, wpos: nat, rpos: nat, next: nat, p: nat)
    requires p <= next <= rpos <= |str| && rpos <= wpos <= |t|
    requires t[..rpos] == str[..rpos]
    requires p + |v| <= wpos - (rpos - next)
    ensures var n := rpos - next;
            var t' := Written(Moved(t, next, rpos, wpos - n), v, wpos - n - |v|);
            && t'[..p] == str[..p]
            && t'[wpos - n - |v|..] == v + str[..rpos][next..] + t[wpos..]
  {
    var n := rpos - next;
    assert t[next..rpos] == t[..rpos][next..];
    assert t[..p] == t[..rpos][..p];
    assert str[..p] == str[..rpos][..p];
    assert wpos - n >= next;
  }

  method ReplaceLonger(str: string, what: string, with_: string) returns (r: string)
    requires what != ""
    requires |what| < |with_|
    ensures r == ReplaceRight(str, what, with_)
  {
    hide *;
    var occurrences := CountOccurrences(str, what);
    var rpos: nat := |str|;
    var wpos: nat := rpos + Growth(occurrences, |with_| - |what|);
    // std::string::resize fills the new places with NUL.
    var buf := new char[wpos](i => if 0 <= i < |str| then str[i] else '\0');
    ghost var t := buf[..];
    assert str[..rpos] == str == t[..rpos];
    while wpos != rpos
      invariant rpos <= |str|
      invariant wpos == rpos + Growth(LeftCount(str[..rpos], what), |with_| - |what|) <= buf.Length
      invariant t == buf[..]
      invariant t[..rpos] == str[..rpos]
      invariant ReplaceRight(str[..rpos], what, with_) + t[wpos..] == ReplaceRight(str, what, with_)
      decreases rpos
    {
      GrowRound(t, str, what, with_, wpos, rpos);
      var found := RFind(buf[..], what, rpos - |what|);
      var newRpos: int;
      if found.None? {
        assert false;
        newRpos := 0;
      } else {
        newRpos := found.value + |what|;
      }
      var nDiff := rpos - newRpos;
      MoveWithin(buf, newRpos, rpos, wpos - nDiff);
      t := Moved(t, newRpos, rpos, wpos - nDiff);
      wpos := wpos - nDiff;
      rpos := newRpos;
      if wpos == rpos {
        assert false;
        break;
      }
      CopyInto(buf, with_, wpos - |with_|);
      t := Written(t, with_, wpos - |with_|);
      wpos := wpos - |with_|;
      rpos := rpos - |what|;
    }
    NothingLeftToGrow(str, what, with_, rpos);
    r := buf[..];
  }

  lemma NothingLeftToGrow(str: string, w: string, v: string, rpos: nat)
    requires w != "" && |w| < |v| && rpos <= |str|
    requires Growth(LeftCount(str[..rpos], w), |v| - |w|) == 0
    ensures ReplaceRight(str[..rpos], w, v) == str[..rpos]
  {
    hide *;
    GrowthStep(LeftCount(str[..rpos], w), |v| - |w|);
    LeftCountStep(str[..rpos], w);
    FirstAndLast(str[..rpos], w);
    ReplaceRightStep(str[..rpos], w, v);
  }

  method Replace(str: string, what: string, with_: string) returns (r: string)
    requires what != ""
    ensures r == Replaced(str, what, with_)
  {
    if |what| >= |with_| {
      r := ReplaceNotLonger(str, what, with_);
    } else {
      r := ReplaceLonger(str, what, with_);
    }
  }
}
