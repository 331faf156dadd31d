// What the groups of a parsed stem can be, whatever the stem.
module EbuildNameShape {
  import opened Wrappers
  import opened Matching
  import opened Grammar
  import opened EbuildName
  import opened EbuildNameTheorems
  import opened EbuildNameLimits
  import opened EbuildNameDomain
  import opened TagVersionTheorems

  // ---------- The version ----------

  lemma OneSuffixResult(s: string, st: State, e: State) returns (x: Suffix)
    requires st.pos <= |s| && e in MatchAll(OneSuffix(), s, st)
    ensures st.pos < e.pos <= |s| && e == At(st, e.pos)
    ensures ValidSuffixes([x]) && s[st.pos..e.pos] == "_" + (NAMES[x.kind] + x.number)
  {
    hide MatchAll, OneOf, AnyDigits;
    var a := SeqOrigin(Lit('_'), Seq(SuffixName(), AnyDigits()), s, st, e);
    ClassResult(AnyOf(['_']), s, st, a);
    var b := SeqOrigin(SuffixName(), AnyDigits(), s, a, e);
    var k := OneOfResult(NAMES, s, a, b);
    AnyDigitsResult(s, b, e);
    x := Suffix(k, s[b.pos..e.pos]);
    ReadsText(s, a.pos, NAMES[k], b.pos);
    ThreePieces(s, st.pos, a.pos, b.pos, e.pos);
    assert s[st.pos..a.pos] == "_";
  }

  lemma ThreePieces(s: string, i: nat, j: nat, k: nat, l: nat)
    requires i <= j <= k <= l <= |s|
    ensures s[i..l] == s[i..j] + (s[j..k] + s[k..l])
  {
  }

  lemma {:induction false} SuffixesResult(s: string, st: State, e: State) returns (xs: seq<Suffix>)
    requires st.pos <= |s| && e in MatchAll(SuffixLoop(), s, st)
    ensures st.pos <= e.pos <= |s| && e == At(st, e.pos)
    ensures ValidSuffixes(xs) && s[st.pos..e.pos] == PrintSuffixes(xs)
    decreases |s| - st.pos
  {
    hide MatchAll, OneSuffix, PrintSuffixes;
    if e == st {
      xs := [];
      assert PrintSuffixes([]) == "" by { NoSuffix(); }
    } else {
      var m := StarOrigin(OneSuffix(), true, s, st, e);
      var x := OneSuffixResult(s, st, m);
      var rest := SuffixesResult(s, m, e);
      xs := [x] + rest;
      assert x in [x];
      assert xs[1..] == rest;
      FirstSuffix(xs);
      assert s[st.pos..e.pos] == s[st.pos..m.pos] + s[m.pos..e.pos];
    }
  }

  lemma NoSuffix()
    ensures PrintSuffixes([]) == ""
  {
  }

  lemma LetterResult(s: string, st: State, e: State)
    requires st.pos <= |s| && e in MatchAll(Opt(Class(Lower)), s, st)
    ensures st.pos <= e.pos <= |s| && e == At(st, e.pos)
    ensures var t := s[st.pos..e.pos]; t == "" || (|t| == 1 && IsLower(t[0]))
  {
    hide MatchAll;
    AltUnfolds(Class(Lower), Empty, s, st);
    EmptyMatches(s, st);
    if e != st {
      ClassResult(Lower, s, st, e);
    }
  }

  lemma VersionResult(s: string, st: State, e: State) returns (v: Version)
    requires st.pos <= |s| && e in MatchAll(VersionPattern(), s, st)
    ensures st.pos <= e.pos <= |s| && e == At(st, e.pos)
    ensures ValidVersion(v) && s[st.pos..e.pos] == PrintVersion(v)
  {
    hide MatchAll, Digits, Minors, SuffixLoop, PrintMinors, PrintSuffixes;
    var tail := Seq(Opt(Class(Lower)), SuffixLoop());
    var a := SeqOrigin(Digits(), Seq(Minors(), tail), s, st, e);
    DigitsResult(s, st, a);
    var b := SeqOrigin(Minors(), tail, s, a, e);
    var ms := MinorsResult(s, a, b);
    var c := SeqOrigin(Opt(Class(Lower)), SuffixLoop(), s, b, e);
    LetterResult(s, b, c);
    var xs := SuffixesResult(s, c, e);
    v := Version(s[st.pos..a.pos], ms, s[b.pos..c.pos], xs);
    FourPieces(s, st.pos, a.pos, b.pos, c.pos, e.pos);
  }

  lemma FourPieces(s: string, i: nat, j: nat, k: nat, l: nat, m: nat)
    requires i <= j <= k <= l <= m <= |s|
    ensures s[i..m] == s[i..j] + (s[j..k] + (s[k..l] + s[l..m]))
  {
  }

  // ---------- The groups of one match ----------

  ghost predicate IsVersionText(t: string) {
    exists v: Version :: ValidVersion(v) && t == PrintVersion(v)
  }

  ghost predicate IsInvalidText(t: string) {
    exists v: Version, rev: Option<string> :: ValidVersion(v) && ValidRevision(rev) && t == InvalidText(v, rev)
  }

  lemma RevisionOrigin(s: string, st: State, e: State)
    requires st.pos <= |s| && e in MatchAll(RevisionPart(), s, st) && "rev" !in st.caps
    ensures st.pos <= e.pos <= |s| && ("rev" in e.caps ==> IsNumber(Slice(s, e.caps["rev"])))
  {
    hide MatchAll, Digits, Text;
    var k := Seq(Digits(), Close("rev"));
    var t := Seq(Open("rev"), k);
    AltUnfolds(Seq(Text("-r"), t), Empty, s, st);
    EmptyMatches(s, st);
    if e != st {
      var a := SeqOrigin(Text("-r"), t, s, st, e);
      TextMatches("-r", s, st);
      OpenMatches("rev", s, a);
      var b := SeqOrigin(Open("rev"), k, s, a, e);
      var c := SeqOrigin(Digits(), Close("rev"), s, b, e);
      DigitsResult(s, b, c);
      CloseMatches("rev", s, c);
    }
  }

  // Version and revision of a match.
  lemma AfterNameShape(s: string, st: State, e: State)
    requires st.pos <= |s| && "pn" in st.starts && "rev" !in st.caps && e in MatchAll(AfterName(), s, st)
    ensures "ver" in e.caps && IsVersionText(Slice(s, e.caps["ver"]))
    ensures "rev" in e.caps ==> IsNumber(Slice(s, e.caps["rev"]))
  {
    hide MatchAll, VersionPattern, RevisionPart, PrintVersion;
    var k := Seq(Close("ver"), RevisionPart());
    var a := Closed(st, "pn");
    CloseMatches("pn", s, st);
    SeqOfOne(Close("pn"), Seq(Lit('-'), Seq(Open("ver"), Seq(VersionPattern(), k))), s, st, a);
    var b := SeqOrigin(Lit('-'), Seq(Open("ver"), Seq(VersionPattern(), k)), s, a, e);
    ClassResult(AnyOf(['-']), s, a, b);
    OpenMatches("ver", s, b);
    var c := Opened(b, "ver");
    SeqOfOne(Open("ver"), Seq(VersionPattern(), k), s, b, c);
    var d := SeqOrigin(VersionPattern(), k, s, c, e);
    var v := VersionResult(s, c, d);
    CloseMatches("ver", s, d);
    var f := Closed(d, "ver");
    SeqOfOne(Close("ver"), RevisionPart(), s, d, f);
    RevisionOrigin(s, f, e);
    RevisionMentionsOnlyRev("ver");
    UnmentionedGroupStays(RevisionPart(), s, f, e, "ver");
    assert Slice(s, e.caps["ver"]) == PrintVersion(v);
  }

  lemma OptionalRevisionOrigin(s: string, st: State, e: State) returns (rev: Option<string>)
    requires st.pos <= |s| && e in MatchAll(Opt(Seq(Text("-r"), Digits())), s, st)
    ensures st.pos <= e.pos <= |s| && e == At(st, e.pos)
    ensures ValidRevision(rev) && s[st.pos..e.pos] == RevisionText(rev)
  {
    hide MatchAll, Digits, Text;
    AltUnfolds(Seq(Text("-r"), Digits()), Empty, s, st);
    EmptyMatches(s, st);
    if e == st {
      rev := None;
    } else {
      var a := SeqOrigin(Text("-r"), Digits(), s, st, e);
      TextMatches("-r", s, st);
      ReadsText(s, st.pos, "-r", a.pos);
      DigitsResult(s, a, e);
      rev := Some(s[a.pos..e.pos]);
      assert s[st.pos..e.pos] == s[st.pos..a.pos] + s[a.pos..e.pos];
    }
  }

  lemma InvalidPartShape(s: string, st: State, x: State)
    requires st.pos <= |s| && x in MatchAll(InvalidPart(), s, st)
    ensures "pn_inval" in x.caps && IsInvalidText(Slice(s, x.caps["pn_inval"]))
    ensures x.starts == st.starts["pn_inval" := st.pos] && x.caps == st.caps["pn_inval" := Span(st.pos, x.pos)]
  {
    hide MatchAll, VersionPattern, Digits, Text, PrintVersion, RevisionText, InvalidText;
    var r := Opt(Seq(Text("-r"), Digits()));
    var k := Seq(r, Close("pn_inval"));
    var a := Opened(st, "pn_inval");
    OpenMatches("pn_inval", s, st);
    SeqOfOne(Open("pn_inval"), Seq(Lit('-'), Seq(VersionPattern(), k)), s, st, a);
    var b := SeqOrigin(Lit('-'), Seq(VersionPattern(), k), s, a, x);
    ClassResult(AnyOf(['-']), s, a, b);
    var c := SeqOrigin(VersionPattern(), k, s, b, x);
    var v := VersionResult(s, b, c);
    var d := SeqOrigin(r, Close("pn_inval"), s, c, x);
    var rev := OptionalRevisionOrigin(s, c, d);
    CloseMatches("pn_inval", s, d);
    InvalidTextOf(s, st.pos, c.pos, d.pos, v, rev);
  }

  lemma InvalidTextOf(s: string, i: nat, j: nat, k: nat, v: Version, rev: Option<string>)
    requires i < j <= k <= |s| && s[i] == '-' && ValidVersion(v)
    requires s[i + 1..j] == PrintVersion(v) && s[j..k] == RevisionText(rev)
    ensures s[i..k] == InvalidText(v, rev)
  {
    hide PrintVersion, RevisionText, ValidVersion;
    assert s[i..k] == [s[i]] + (s[i + 1..j] + s[j..k]);
  }

  // The groups of a match: name, invalid part, version and revision.
  ghost predicate ShapedGroups(s: string, caps: map<string, Span>) {
    && "pn" in caps && (("pn_inval" !in caps) ==> NameText(Slice(s, caps["pn"])))
    && ("pn_inval" in caps ==> IsInvalidText(Slice(s, caps["pn_inval"])))
    && "ver" in caps && IsVersionText(Slice(s, caps["ver"]))
    && ("rev" in caps ==> IsNumber(Slice(s, caps["rev"])))
  }

  lemma MatchShape(s: string, i: nat, e: State)
    requires i <= |s| && e in MatchAll(Pattern(), s, Start(i))
    ensures ShapedGroups(s, e.caps)
  {
    hide MatchAll, NameEnd, AfterName, InvalidPart, IsVersionText, IsInvalidText;
    var lazy := Star(Class(NameChar), false);
    var a := Opened(Start(i), "pn");
    OpenMatches("pn", s, Start(i));
    SeqOfOne(Open("pn"), Seq(Class(Word), Seq(lazy, NameEnd())), s, Start(i), a);
    var b := SeqOrigin(Class(Word), Seq(lazy, NameEnd()), s, a, e);
    ClassResult(Word, s, a, b);
    var c := SeqOrigin(lazy, NameEnd(), s, b, e);
    LazyRun(s, b, c);
    LazyKeeps(s, b, c);
    NameEndShape(s, c, e);
    PatternGroups(s, i, e);
    NameEndGroups(s, c, e);
    NameOf(s, i, c.pos);
  }

  lemma NameOf(s: string, i: nat, p: nat)
    requires i < p <= |s| && IsWord(s[i]) && forall k :: i < k < p ==> In(s[k], NameChar)
    ensures NameText(s[i..p])
  {
  }

  lemma {:induction false} LazyKeeps(s: string, a: State, b: State)
    requires a.pos <= |s| && b in MatchAll(Star(Class(NameChar), false), s, a)
    ensures b == At(a, b.pos)
    decreases |s| - a.pos
  {
    hide MatchAll, In;
    LazyLoopStep(NameChar, s, a);
    if b != a {
      LazyKeeps(s, At(a, a.pos + 1), b);
    }
  }

  lemma NameEndShape(s: string, st: State, e: State)
    requires st.pos <= |s| && "pn" in st.starts && st.caps == map[] && e in MatchAll(NameEnd(), s, st)
    ensures "ver" in e.caps && IsVersionText(Slice(s, e.caps["ver"]))
    ensures "rev" in e.caps ==> IsNumber(Slice(s, e.caps["rev"]))
    ensures "pn_inval" in e.caps ==> IsInvalidText(Slice(s, e.caps["pn_inval"]))
  {
    hide MatchAll, AfterName, InvalidPart, IsVersionText, IsInvalidText;
    var x := SeqOrigin(Opt(InvalidPart()), AfterName(), s, st, e);
    AltUnfolds(InvalidPart(), Empty, s, st);
    EmptyMatches(s, st);
    if x != st {
      InvalidPartShape(s, st, x);
    }
    AfterNameShape(s, x, e);
    AfterNameGroups(s, x, e);
  }

  lemma {:induction false} AllMatchesShaped(s: string, from: nat)
    ensures forall m <- FindAll(Pattern(), s, from) :: ShapedGroups(s, m.last.caps)
    decreases |s| - from
  {
    hide MatchAll, Pattern, ShapedGroups;
    if FindFrom(Pattern(), s, from).Some? {
      var m := FindFrom(Pattern(), s, from).value;
      FoundIsResult(Pattern(), s, from);
      MatchShape(s, m.start, m.last);
      AllMatchesShaped(s, After(m));
    }
  }

  lemma {:induction false} LastGroupsShaped(ms: seq<Match>, s: string)
    requires forall m <- ms :: ShapedGroups(s, m.last.caps)
    ensures ms != [] ==> IsVersionText(LastCapture(ms, "ver", s))
    ensures var r := LastCapture(ms, "rev", s); r == "" || IsNumber(r)
    ensures var x := LastCapture(ms, "pn_inval", s); x == "" || IsInvalidText(x)
    ensures ms != [] && LastCapture(ms, "pn_inval", s) == "" ==> NameText(LastCapture(ms, "pn", s))
  {
    hide IsVersionText, IsInvalidText;
    InvalidTextIsThere("");
    if ms != [] {
      var m := ms[|ms| - 1];
      assert m in ms && forall x <- ms[..|ms| - 1] :: x in ms;
      LastGroupsShaped(ms[..|ms| - 1], s);
    }
  }

  lemma InvalidTextIsThere(t: string)
    ensures IsInvalidText(t) ==> t != ""
  {
  }

  // Whatever the stem, a version that is read is one of PMS section 3.2, a revision is
  // empty or a number, and an invalid part is empty or a hyphen, a version and an optional
  // revision; a name without one is of name characters and begins with a word character.
  lemma ParsedIsShaped(stem: string)
    requires ParseStem(stem).Some?
    ensures var r := ParseStem(stem).value;
            && IsVersionText(r.ver) && (r.rev == "" || IsNumber(r.rev))
            && (if r.pn_inval == "" then NameText(r.pn) else IsInvalidText(r.pn_inval))
  {
    hide Pattern, FindAll, ShapedGroups, IsVersionText, IsInvalidText;
    AllMatchesShaped(stem, 0);
    LastGroupsShaped(FindAll(Pattern(), stem, 0), stem);
  }
}
