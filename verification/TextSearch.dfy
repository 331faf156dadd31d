// The two searches of the C++ standard library that the replacement loops use:
// std::string::find (leftmost match at or after a position) and
// std::string::rfind (rightmost match at or before a position).
module TextSearch {
  import opened Wrappers

  predicate OccursAt(s: string, w: string, p: int) {
    0 <= p && p + |w| <= |s| && s[p..p + |w|] == w
  }

  function Find(s: string, w: string, from: nat): (r: Option<nat>)
    ensures r.Some? ==> from <= r.value && r.value + |w| <= |s|
    decreases |s| - from
  {
    if from + |w| > |s| then None
    else if OccursAt(s, w, from) then Some(from)
    else Find(s, w, from + 1)
  }

  // Find returns the leftmost match at or after the start, and fails only when
  // there is none.
  lemma {:induction false} FindIsLeftmost(s: string, w: string, from: nat)
    ensures Find(s, w, from).Some? ==> OccursAt(s, w, Find(s, w, from).value)
    ensures forall q :: from <= q && OccursAt(s, w, q) ==>
              Find(s, w, from).Some? && Find(s, w, from).value <= q
    decreases |s| - from
  {
    if from + |w| <= |s| && !OccursAt(s, w, from) {
      FindIsLeftmost(s, w, from + 1);
    }
  }

  function RFind(s: string, w: string, upTo: nat): (r: Option<nat>)
    ensures r.Some? ==> r.value <= upTo && r.value + |w| <= |s|
    decreases upTo
  {
    if OccursAt(s, w, upTo) then Some(upTo)
    else if upTo == 0 then None
    else RFind(s, w, upTo - 1)
  }

  lemma {:induction false} RFindIsRightmost(s: string, w: string, upTo: nat)
    ensures RFind(s, w, upTo).Some? ==> OccursAt(s, w, RFind(s, w, upTo).value)
    ensures forall q :: q <= upTo && OccursAt(s, w, q) ==>
              RFind(s, w, upTo).Some? && q <= RFind(s, w, upTo).value
    decreases upTo
  {
    if upTo > 0 && !OccursAt(s, w, upTo) {
      RFindIsRightmost(s, w, upTo - 1);
    }
  }

  lemma OccursInSuffix(s: string, w: string, from: nat, q: int)
    requires from <= |s| && from <= q
    ensures OccursAt(s, w, q) <==> OccursAt(s[from..], w, q - from)
  {
    if q + |w| <= |s| {
      assert s[from..][q - from..q - from + |w|] == s[q..q + |w|];
    }
  }

  // Find only looks at the text from its start position on.
  lemma FindInSuffix(s: string, w: string, from: nat)
    requires from <= |s|
    ensures var r := Find(s, w, from);
            var r' := Find(s[from..], w, 0);
            (r.Some? <==> r'.Some?) && (r.Some? ==> r.value == from + r'.value)
  {
    var r, r' := Find(s, w, from), Find(s[from..], w, 0);
    FindIsLeftmost(s, w, from);
    FindIsLeftmost(s[from..], w, 0);
    if r.Some? {
      OccursInSuffix(s, w, from, r.value);
    }
    if r'.Some? {
      OccursInSuffix(s, w, from, r'.value + from);
    }
  }

  lemma OccursInPrefix(s: string, w: string, end: nat, q: int)
    requires end <= |s|
    ensures OccursAt(s[..end], w, q) <==> OccursAt(s, w, q) && q + |w| <= end
  {
    if 0 <= q && q + |w| <= end {
      assert s[..end][q..q + |w|] == s[q..q + |w|];
    }
  }
}
