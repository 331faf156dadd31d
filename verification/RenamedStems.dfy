// The file name after a bump: the code exchanges the old version wherever it occurs, in
// the name of the package and in the revision too.
module RenamedStems {
  import opened Wrappers
  import opened TextSearch
  import opened ReplaceSpec
  import opened ReplaceTheorems
  import opened Matching
  import opened Grammar
  import opened EbuildName
  import opened EbuildNameTheorems
  import opened EbuildNameDomain
  import opened TagVersionTheorems
  import opened TagVersion
  import opened Update
  import opened UpdateTheorems

  // The stem after the bump of PN-VER[-rREV] from w to n.
  function RenamedStem(pn: string, w: string, rev: Option<string>, n: string): string
    requires w != ""
  {
    Replaced(pn, w, n) + ("-" + (n + Replaced(RevisionText(rev), w, n)))
  }

  // ---------- What the rename does ----------

  // A version or a date: it begins with a digit and ends with no dot.
  ghost predicate IsNeedle(w: string) {
    w != "" && IsDigit(w[0]) && '-' !in w && DotsBeforeDigits(w)
  }

  lemma VersionIsNeedle(v: Version)
    requires ValidVersion(v)
    ensures IsNeedle(PrintVersion(v))
  {
    hide PrintVersion, DotsBeforeDigits;
    VersionText(v);
    VersionDots(v);
  }

  lemma NeedleChars(f: string, w: string, q: int)
    requires IsNeedle(w) && OccursAt(f, w, q)
    ensures 0 <= q && q + |w| <= |f| && IsDigit(f[q])
    ensures forall i :: q <= i < q + |w| ==> f[i] != '-' && (f[i] == '.' ==> i + 1 < |f| && IsDigit(f[i + 1]))
  {
    OccursWithin(f, w, q);
    assert f[q] == w[0];
    forall i | q <= i < q + |w|
      ensures f[i] != '-' && (f[i] == '.' ==> i + 1 < |f| && IsDigit(f[i + 1]))
    {
      assert f[i] == w[i - q] && w[i - q] in w;
    }
  }

  // The extension is not touched.
  lemma ExtensionStays(s: string, w: string, v: string)
    requires IsNeedle(w)
    ensures Replaced(s + EBUILD, w, v) == Replaced(s, w, v) + EBUILD
  {
    hide Replaced, IsNeedle, OccursAt;
    var f := s + EBUILD;
    assert w != "" by { NeedleIsThere(w); }
    assert forall i :: |s| <= i < |f| ==> f[i] == EBUILD[i - |s|] && !IsDigit(f[i]);
    assert f[|s|] == '.' && !IsDigit(f[|s| + 1]);
    forall q | OccursAt(f, w, q)
      ensures q + |w| <= |s|
    {
      NeedleChars(f, w, q);
    }
    UntouchedEnd(s, EBUILD, w, v);
  }

  lemma HyphenStays(s: string, w: string, v: string)
    requires IsNeedle(w)
    ensures Replaced(s + "-", w, v) == Replaced(s, w, v) + "-"
  {
    hide Replaced, IsNeedle, OccursAt;
    assert w != "" by { NeedleIsThere(w); }
    assert (s + "-")[|s|] == '-';
    forall q | OccursAt(s + "-", w, q)
      ensures q + |w| <= |s|
    {
      NeedleChars(s + "-", w, q);
    }
    UntouchedEnd(s, "-", w, v);
  }

  // The rename exchanges the version between the hyphens, and the same text in the name
  // and in the revision, and nothing else.
  lemma RenameExchanges(pn: string, v: Version, rev: Option<string>, n: string)
    requires ValidVersion(v) && ValidRevision(rev)
    ensures PrintVersion(v) != ""
    ensures NewName(FileName(pn, v, rev), EditVerOrTag(PrintVersion(v), n)) ==
            RenamedStem(pn, PrintVersion(v), rev, n) + EBUILD
  {
    hide PrintVersion, Isolated, Replaced, FileName, RevisionText, ValidVersion, DotsBeforeDigits;
    var f, w, p := FileName(pn, v, rev), PrintVersion(v), |pn| + 1;
    VersionIsNeedle(v);
    VersionIsIsolated(pn, v, rev);
    ReplacedAtIsolated(f, w, n, p);
    HyphenStays(pn, w, n);
    ExtensionStays(RevisionText(rev), w, n);
    var a, c := Replaced(pn, w, n), Replaced(RevisionText(rev), w, n);
    assert (a + "-") + n + (c + EBUILD) == (a + ("-" + (n + c))) + EBUILD;
  }

  // ---------- How the new stem is read ----------

  // What may be put in place of a version.
  ghost predicate IsNewText(n: string) {
    && n != "" && IsDigit(n[0]) && n[|n| - 1] != '-' && NoHyphenDigit(n) && DotsBeforeDigits(n)
    && forall c <- n :: In(c, NameChar) || c == '.'
  }

  lemma {:induction false} JoinHasNoHyphenDigit(ps: seq<string>, w: string, n: string)
    requires |ps| >= 1 && NoHyphenDigit(Join(ps, w)) && w != "" && IsDigit(w[0])
    requires n != "" && IsDigit(n[0]) && n[|n| - 1] != '-' && NoHyphenDigit(n)
    ensures NoHyphenDigit(Join(ps, n))
  {
    if |ps| > 1 {
      var a, r, r' := ps[0], Join(ps[1..], w), Join(ps[1..], n);
      var s, t := a + w + r, a + n + r';
      forall q
        ensures !HyphenDigit(r, q)
      {
        assert HyphenDigit(r, q) ==> HyphenDigit(s, q + |a| + |w|);
      }
      JoinHasNoHyphenDigit(ps[1..], w, n);
      forall q
        ensures !HyphenDigit(t, q)
      {
        assert q < |a| && HyphenDigit(t, q) ==> HyphenDigit(s, q);
        assert |a| <= q < |a| + |n| - 1 && HyphenDigit(t, q) ==> HyphenDigit(n, q - |a|);
        assert q >= |a| + |n| && HyphenDigit(t, q) ==> HyphenDigit(r', q - |a| - |n|);
      }
    }
  }

  lemma {:induction false} JoinChars(ps: seq<string>, w: string, n: string)
    requires |ps| >= 1
    ensures forall c <- Join(ps, n) :: c in Join(ps, w) || c in n
  {
    if |ps| > 1 {
      JoinChars(ps[1..], w, n);
    }
  }

  lemma {:induction false} JoinDots(ps: seq<string>, w: string, n: string)
    requires |ps| >= 1 && '.' !in Join(ps, w) && DotsBeforeDigits(n)
    ensures DotsBeforeDigits(Join(ps, n))
  {
    if |ps| > 1 {
      var r := Join(ps[1..], w);
      assert Join(ps, w) == ps[0] + w + r;
      JoinDots(ps[1..], w, n);
      DotsAppend(ps[0], n);
      DotsAppend(ps[0] + n, Join(ps[1..], n));
    }
  }

  lemma JoinFirst(ps: seq<string>, w: string, n: string)
    requires |ps| >= 1 && Join(ps, w) != "" && w != "" && n != ""
    ensures Join(ps, n) != ""
    ensures Join(ps, n)[0] == if ps[0] == "" then n[0] else Join(ps, w)[0]
    ensures ps[0] == "" ==> Join(ps, w)[0] == w[0]
  {
  }

  // The exchanged name.
  lemma ExchangedName(pn: string, w: string, n: string)
    requires NameText(pn) && NoHyphenDigit(pn) && IsNeedle(w) && IsNewText(n)
    ensures LooseName(Replaced(pn, w, n))
  {
    hide Join, Replaced, DotsBeforeDigits;
    var ps := PiecesOf(pn, w, n);
    var x := Replaced(pn, w, n);
    JoinHasNoHyphenDigit(ps, w, n);
    JoinChars(ps, w, n);
    assert '.' !in pn by { DotIsNoNameChar(); }
    JoinDots(ps, w, n);
    JoinFirst(ps, w, n);
    DotsBeforeWords(x);
  }

  lemma DotsBeforeWords(x: string)
    requires DotsBeforeDigits(x)
    ensures forall i :: 0 <= i < |x| && x[i] == '.' ==> i + 1 < |x| && IsWord(x[i + 1])
  {
  }

  // The exchanged revision.
  lemma ExchangedRevision(rev: Option<string>, w: string, n: string)
    requires ValidRevision(rev) && IsNeedle(w) && IsNewText(n)
    ensures var x := Replaced(RevisionText(rev), w, n); (x != "" ==> x[0] == '-') && NoHyphenDigit(x)
  {
    hide Join, Replaced, DotsBeforeDigits;
    var s := RevisionText(rev);
    var ps := PiecesOf(s, w, n);
    if rev.Some? {
      RevisionHasNoHyphenDigit(rev.value);
      JoinHasNoHyphenDigit(ps, w, n);
      JoinFirst(ps, w, n);
    } else {
      NoTextNoChange(w, n);
    }
  }

  lemma NoTextNoChange(w: string, n: string)
    requires w != ""
    ensures Replaced("", w, n) == ""
  {
    FindIsLeftmost("", w, 0);
    LastOccurrenceIsRightmost("", w);
    ReplaceLeftStep("", w, n);
    ReplaceRightStep("", w, n);
  }

  // A text with a hyphen-free front and a tail, put in place of the version, is read up
  // to its front.
  lemma RenamedStemIsRead(pn: string, w: string, rev: Option<string>, v: Version, d: string)
    requires NameText(pn) && NoHyphenDigit(pn) && ValidRevision(rev) && IsNeedle(w) && ValidVersion(v)
    requires IsNewText(PrintVersion(v) + d)
    requires d != "" ==> d[0] == '-' && d[|d| - 1] != '-' && NoHyphenDigit(d)
    ensures var r := ParseStem(RenamedStem(pn, w, rev, PrintVersion(v) + d));
            r.Some? && r.value.pn_inval == "" && r.value.ver == PrintVersion(v)
  {
    hide PrintVersion, Replaced, ParseStem, IsNewText, IsNeedle, NameText, LooseName, ValidVersion, RevisionText,
      ValidRevision;
    var n := PrintVersion(v) + d;
    assert w != "" by { NeedleIsThere(w); }
    ExchangedName(pn, w, n);
    ExchangedRevision(rev, w, n);
    var a, c := Replaced(pn, w, n), Replaced(RevisionText(rev), w, n);
    forall q
      ensures !HyphenDigit(d + c, q)
    {
      if c != "" && d != "" {
        HyphenDigitOfAppend(d, c, q);
      } else {
        assert d + c == if d == "" then c else d;
      }
    }
    LooseNameIsRead(a, v, d + c);
    assert PrintVersion(v) + (d + c) == n + c;
  }

  lemma NeedleIsThere(w: string)
    requires IsNeedle(w)
    ensures w != ""
  {
  }

  // ---------- Which texts may be put in place ----------

  lemma {:induction false} MinorsChars(ms: seq<string>)
    requires AreNumbers(ms)
    ensures forall c <- PrintMinors(ms) :: In(c, NameChar) || c == '.'
  {
    if ms != [] {
      assert IsNumber(ms[0]);
      MinorsChars(ms[1..]);
    }
  }

  lemma {:induction false} SuffixChars(xs: seq<Suffix>)
    requires ValidSuffixes(xs)
    ensures forall c <- PrintSuffixes(xs) :: In(c, NameChar)
  {
    if xs != [] {
      FirstSuffix(xs);
      hide PrintSuffixes;
      var x := xs[0];
      KindChars(x.kind);
      assert forall c <- x.number :: In(c, NameChar);
      SuffixChars(xs[1..]);
    }
  }

  lemma KindChars(k: nat)
    requires k < |NAMES|
    ensures forall c <- NAMES[k] :: In(c, NameChar)
  {
  }

  lemma VersionIsNewText(v: Version)
    requires ValidVersion(v)
    ensures IsNewText(PrintVersion(v))
  {
    hide DotsBeforeDigits, PrintMinors, PrintSuffixes;
    VersionText(v);
    VersionDots(v);
    MinorsChars(v.minors);
    SuffixChars(v.suffixes);
    var n := PrintVersion(v);
    assert n[|n| - 1] in n;
    forall q
      ensures !HyphenDigit(n, q)
    {
      assert 0 <= q < |n| ==> n[q] in n;
    }
  }

  // A fetched version: a dotted number and the rest with its hyphens.
  lemma FetchedIsNewText(p: Parts) returns (v: Version, d: string)
    requires WellShaped(p)
    ensures ValidVersion(v) && PrintVersion(v) == p.ver && Joined(p) == p.ver + d && IsNewText(Joined(p))
    ensures d != "" ==> d[0] == '-' && d[|d| - 1] != '-' && NoHyphenDigit(d)
  {
    hide PrintVersion, IsDotted, DotsBeforeDigits, IsTag, ValidVersion;
    v := DottedVersion(p.ver);
    d := Dashed(p.tag) + Dashed(p.subver);
    PrefixOfJoined(p);
    VersionIsNewText(v);
    DashedText(p.tag);
    DashedText(p.subver);
    DotsAppend(Dashed(p.tag), Dashed(p.subver));
    DotsAppend(p.ver, d);
    forall q
      ensures !HyphenDigit(d, q)
    {
      if Dashed(p.subver) != "" {
        HyphenDigitOfAppend(Dashed(p.tag), Dashed(p.subver), q);
      } else {
        assert d == Dashed(p.tag);
      }
    }
    forall q
      ensures !HyphenDigit(p.ver + d, q)
    {
      if d != "" {
        HyphenDigitOfAppend(p.ver, d, q);
      }
    }
  }

  lemma DashedText(t: string)
    requires t != "" ==> IsTag(t) || IsSubver(t)
    ensures NoHyphenDigit(Dashed(t)) && DotsBeforeDigits(Dashed(t))
    ensures Dashed(t) != "" ==> Dashed(t)[0] == '-' && Dashed(t)[|Dashed(t)| - 1] != '-'
    ensures forall c <- Dashed(t) :: In(c, NameChar)
  {
    if t != "" && IsTag(t) {
      var k: nat, number :| TagOf(t, k, number);
      KindChars(k);
      NamesAreFreeOf(k, '.');
      NamesAreFreeOf(k, '-');
      assert forall c <- number :: In(c, NameChar) && c != '.' && c != '-';
      assert forall c <- t :: c != '.' && c != '-';
      assert t[|t| - 1] in t;
      TagText(t);
    }
    DashedHasNoHyphenDigit(t);
  }
}
