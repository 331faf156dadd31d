// Which stems parse at all, and how a name is read that contains dots, as a careless
// rename can make it.
module EbuildNameDomain {
  import opened Wrappers
  import opened Matching
  import opened Grammar
  import opened EbuildName
  import opened EbuildNameTheorems
  import opened EbuildNameLimits

  // ---------- Which stems parse ----------

  // A word character at i, and only name characters from there up to a hyphen-digit at q.
  predicate NameRun(s: string, i: int, q: int) {
    0 <= i < q < |s| && IsWord(s[i]) && HyphenDigit(s, q) && forall k :: i < k < q ==> In(s[k], NameChar)
  }

  lemma {:induction false} LazyRun(s: string, a: State, b: State)
    requires a.pos <= |s| && b in MatchAll(Star(Class(NameChar), false), s, a)
    ensures a.pos <= b.pos <= |s| && forall k :: a.pos <= k < b.pos ==> In(s[k], NameChar)
    decreases |s| - a.pos
  {
    hide MatchAll, In;
    LazyLoopStep(NameChar, s, a);
    if b != a {
      LazyRun(s, At(a, a.pos + 1), b);
    }
  }

  lemma {:induction false} LazyReaches(s: string, a: State, p: nat)
    requires a.pos <= p <= |s| && forall k :: a.pos <= k < p ==> In(s[k], NameChar)
    ensures At(a, p) in MatchAll(Star(Class(NameChar), false), s, a)
    decreases p - a.pos
  {
    hide MatchAll, In;
    LazyLoopStep(NameChar, s, a);
    if a.pos < p {
      LazyReaches(s, At(a, a.pos + 1), p);
    }
  }

  lemma RunOfMatch(s: string, i: nat, e: State) returns (q: nat)
    requires i <= |s| && e in MatchAll(Pattern(), s, Start(i))
    ensures NameRun(s, i, q)
  {
    hide MatchAll, NameEnd, HyphenDigit;
    var lazy := Star(Class(NameChar), false);
    var a := Opened(Start(i), "pn");
    OpenMatches("pn", s, Start(i));
    SeqOfOne(Open("pn"), Seq(Class(Word), Seq(lazy, NameEnd())), s, Start(i), a);
    var b := SeqOrigin(Class(Word), Seq(lazy, NameEnd()), s, a, e);
    if NextIsNot(s, i, Word) {
      ClassFails(Word, s, a);
    }
    ClassTakes(Word, s, a);
    var c := SeqOrigin(lazy, NameEnd(), s, b, e);
    LazyRun(s, b, c);
    if !HyphenDigit(s, c.pos) {
      NameEndFails(s, c);
    }
    q := c.pos;
    assert q < |s| by { HyphenInText(s, q); }
  }

  lemma HyphenInText(s: string, q: int)
    requires HyphenDigit(s, q)
    ensures 0 <= q < |s| && s[q] == '-'
  {
  }

  lemma MatchOfRun(s: string, i: nat, q: nat)
    requires NameRun(s, i, q)
    ensures MatchAll(Pattern(), s, Start(i)) != []
  {
    hide MatchAll, NameEnd, HyphenDigit;
    var lazy := Star(Class(NameChar), false);
    var a := Opened(Start(i), "pn");
    var b, c := At(a, i + 1), At(a, q);
    NameEndSucceeds(s, c);
    var e := MatchAll(NameEnd(), s, c)[0];
    LazyReaches(s, b, q);
    SeqReaches(lazy, NameEnd(), s, b, c, e);
    ClassTakes(Word, s, a);
    SeqReaches(Class(Word), Seq(lazy, NameEnd()), s, a, b, e);
    OpenMatches("pn", s, Start(i));
    SeqReaches(Open("pn"), Seq(Class(Word), Seq(lazy, NameEnd())), s, Start(i), a, e);
  }

  // A stem parses exactly when such a run stands somewhere in it.
  lemma ParsesIff(stem: string)
    ensures ParseStem(stem).Some? <==> exists i, q :: NameRun(stem, i, q)
  {
    hide Pattern, MatchAll, NameRun, LastCapture;
    if ParseStem(stem).Some? {
      FoundIsResult(Pattern(), stem, 0);
      var m := FindFrom(Pattern(), stem, 0).value;
      var q := RunOfMatch(stem, m.start, m.last);
    } else if exists i, q :: NameRun(stem, i, q) {
      var i, q :| NameRun(stem, i, q);
      RunInText(stem, i, q);
      MatchOfRun(stem, i, q);
      FindFromFinds(Pattern(), stem, 0, i);
    }
  }

  lemma RunInText(s: string, i: int, q: int)
    requires NameRun(s, i, q)
    ensures 0 <= i < q < |s|
  {
  }

  // ---------- Names with dots ----------

  // A name as it may be before a version that was exchanged in it: a dot in it is no
  // last character and is followed by a word character.
  ghost predicate LooseName(x: string) {
    && x != "" && IsWord(x[0]) && NoHyphenDigit(x)
    && (forall c <- x :: In(c, NameChar) || c == '.')
    && forall i :: 0 <= i < |x| && x[i] == '.' ==> i + 1 < |x| && IsWord(x[i + 1])
  }

  lemma {:induction false} RunStops(s: string, st: State, j: nat)
    requires st.pos <= j < |s| && !In(s[j], NameChar)
    requires forall q :: st.pos <= q <= j ==> !HyphenDigit(s, q)
    ensures Fails(Seq(Star(Class(NameChar), false), NameEnd()), s, st)
    decreases j - st.pos
  {
    hide MatchAll, NameEnd, In, HyphenDigit;
    LazyStep(NameChar, NameEnd(), s, st);
    NameEndFails(s, st);
    if st.pos < j {
      RunStops(s, At(st, st.pos + 1), j);
    }
  }

  // No match starts before a character that no name has, with no hyphen-digit between.
  lemma NoMatchAcross(s: string, i: nat, j: nat)
    requires i <= j < |s| && !In(s[j], NameChar)
    requires forall q :: i <= q <= j ==> !HyphenDigit(s, q)
    ensures Fails(Pattern(), s, Start(i))
  {
    hide MatchAll, NameEnd, HyphenDigit;
    var k := Seq(Star(Class(NameChar), false), NameEnd());
    var a := Opened(Start(i), "pn");
    OpenMatches("pn", s, Start(i));
    SeqOfOne(Open("pn"), Seq(Class(Word), k), s, Start(i), a);
    if IsWord(s[i]) {
      ClassTakes(Word, s, a);
      SeqOfOne(Class(Word), k, s, a, At(a, i + 1));
      RunStops(s, At(a, i + 1), j);
    } else {
      ClassFails(Word, s, a);
      SeqFailsAtOnce(Class(Word), k, s, a);
    }
  }

  // Where the last stretch without dots begins.
  lemma LastStretch(x: string) returns (i: nat)
    requires LooseName(x)
    ensures i < |x| && IsWord(x[i]) && (i > 0 ==> x[i - 1] == '.')
    ensures forall k :: i <= k < |x| ==> In(x[k], NameChar)
  {
    i := |x|;
    while i > 0 && x[i - 1] != '.'
      invariant 0 <= i <= |x| && forall k :: i <= k < |x| ==> In(x[k], NameChar)
    {
      assert x[i - 1] in x;
      i := i - 1;
    }
  }

  // The rest behind the version, revision or not, leaves the version alone.
  lemma RestAfterVersion(s: string, st: State) returns (e: State)
    requires st.pos <= |s| && "ver" in st.caps && "pn_inval" !in st.caps
    ensures Takes(RevisionPart(), s, st, e) && st.pos <= e.pos <= |s|
    ensures "ver" in e.caps && e.caps["ver"] == st.caps["ver"] && "pn_inval" !in e.caps
  {
    hide MatchAll, RevisionPart;
    RevisionIsOptional(s, st);
    e := MatchAll(RevisionPart(), s, st)[0];
    ResultAfterStart(RevisionPart(), s, st, e);
    RevisionMentionsOnlyRev("ver");
    RevisionMentionsOnlyRev("pn_inval");
    UnmentionedGroupStays(RevisionPart(), s, st, e, "ver");
    UnmentionedGroupStays(RevisionPart(), s, st, e, "pn_inval");
  }

  // A version behind such a name is read, and the name passes for valid, whatever
  // follows the version with a hyphen but without a digit behind one.
  lemma LooseNameIsRead(x: string, v: Version, tail: string)
    requires LooseName(x) && ValidVersion(v)
    requires (tail != "" ==> tail[0] == '-') && NoHyphenDigit(tail)
    ensures var r := ParseStem(StemWith(x, v, tail));
            r.Some? && r.value.pn_inval == "" && r.value.ver == PrintVersion(v)
  {
    hide MatchAll, PrintVersion, Pattern, RevisionPart, AfterName, NameEnd, In, Takes, ParseStem, StemWith, HyphenDigit,
      ValidVersion;
    var s := StemWith(x, v, tail);
    var p, q := |x|, |x| + 1 + |PrintVersion(v)|;
    StemLayout(x, v, tail);
    LooseHyphens(x, v, tail);
    var i := LastStretch(x);
    var st := State(p, map["pn" := i], map[]);
    var e := RestAfterVersion(s, AfterVersion(st, q));
    AfterNameTakes(s, st, v, q, e);
    NothingInvalid(s, st);
    SameResultsTake(NameEnd(), AfterName(), s, st, e);
    PatternTakes(s, i, p, e);
    forall k | 0 <= k < i
      ensures Fails(Pattern(), s, Start(k))
    {
      DotIsNoNameChar();
      NoMatchAcross(s, k, i - 1);
    }
    FirstMatchIsLater(Pattern(), s, 0, i);
    OnlyMatchFrom(s, i, e);
    OneMatchIsRead(s, Match(i, e));
  }

  lemma DotIsNoNameChar()
    ensures !In('.', NameChar)
  {
  }

  lemma LooseHyphens(x: string, v: Version, tail: string)
    requires ValidVersion(v) && NoHyphenDigit(x) && NoHyphenDigit(tail) && (tail != "" ==> tail[0] == '-')
    ensures var s := StemWith(x, v, tail);
            && |x| < |s| && s[|x|] == '-' && Stops(s, |x| + 1 + |PrintVersion(v)|)
            && (forall k :: 0 <= k < |x| ==> s[k] == x[k])
            && Reads(s, |x| + 1, PrintVersion(v), |x| + 1 + |PrintVersion(v)|)
            && forall k :: k != |x| ==> !HyphenDigit(s, k)
  {
    hide PrintVersion, HyphenDigit;
    StemLayout(x, v, tail);
    forall k | k != |x|
      ensures !HyphenDigit(StemWith(x, v, tail), k)
    {
      HyphenDigitsOfStem(x, v, tail, k);
    }
  }

  lemma OnlyMatchFrom(s: string, i: nat, e: State)
    requires i < e.pos <= |s| && Takes(Pattern(), s, Start(i), e)
    requires FindFrom(Pattern(), s, 0) == FindFrom(Pattern(), s, i)
    requires forall q :: e.pos <= q ==> !HyphenDigit(s, q)
    ensures FindAll(Pattern(), s, 0) == [Match(i, e)]
  {
    hide MatchAll, Pattern;
    PatternFailsFrom(s, e.pos);
    NoMatchFrom(Pattern(), s, e.pos);
    assert FindFrom(Pattern(), s, i) == Some(Match(i, e));
  }

  lemma OneMatchIsRead(s: string, m: Match)
    requires FindAll(Pattern(), s, 0) == [m]
    ensures ParseStem(s).Some?
    ensures var r := ParseStem(s).value;
            r.ver == Captured(m.last, "ver", s) && r.pn_inval == Captured(m.last, "pn_inval", s)
  {
    hide Pattern, FindAll;
    NoCaptures(s);
    NextCapture([], m, s);
    assert [] + [m] == [m];
  }
}
