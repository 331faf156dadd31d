// The names the pattern misreads: names with a hyphen before a digit of their own.
module EbuildNameLimits {
  import opened Wrappers
  import opened Matching
  import opened Grammar
  import opened EbuildName
  import opened EbuildNameTheorems

  // ---------- Names that end in a version are flagged ----------

  lemma InvalidPartTakes(s: string, st: State, v: Version, rev: Option<string>, q: nat, p: nat)
    requires ValidVersion(v) && ValidRevision(rev)
    requires st.pos < |s| && s[st.pos] == '-'
    requires Reads(s, st.pos + 1, PrintVersion(v), q) && Reads(s, q, RevisionText(rev), p)
    requires HyphenDigit(s, p)
    ensures Takes(InvalidPart(), s, st, Closed(At(Opened(st, "pn_inval"), p), "pn_inval"))
  {
    hide MatchAll, VersionPattern, Takes, PrintVersion, Reads, Text;
    ReadsWithin(s, st.pos + 1, PrintVersion(v), q);
    ReadsWithin(s, q, RevisionText(rev), p);
    var a := Opened(st, "pn_inval");
    var b, c, d := At(a, st.pos + 1), At(a, q), At(a, p);
    var e := Closed(d, "pn_inval");
    var revision := Seq(Text("-r"), Digits());
    var k := Seq(Opt(revision), Close("pn_inval"));
    OptionalRevisionTakes(s, c, rev, p);
    CloseMatches("pn_inval", s, d);
    SeqTakes(Opt(revision), Close("pn_inval"), s, c, d, e);
    VersionTakes(v, s, b, q);
    SeqTakes(VersionPattern(), k, s, b, c, e);
    LitTakes('-', s, a);
    SeqTakes(Lit('-'), Seq(VersionPattern(), k), s, a, b, e);
    OpenMatches("pn_inval", s, st);
    SeqTakes(Open("pn_inval"), Seq(Lit('-'), Seq(VersionPattern(), k)), s, st, a, e);
  }

  lemma OptionalRevisionTakes(s: string, st: State, rev: Option<string>, p: nat)
    requires ValidRevision(rev) && Reads(s, st.pos, RevisionText(rev), p) && HyphenDigit(s, p)
    ensures Takes(Opt(Seq(Text("-r"), Digits())), s, st, At(st, p))
    ensures Stops(s, st.pos)
  {
    hide MatchAll, Takes, Text, Reads;
    ReadsWithin(s, st.pos, RevisionText(rev), p);
    match rev {
      case None =>
        TextMatches("-r", s, st);
        ReadsChar(s, st.pos, "-r", st.pos + 2, 1);
        SeqFailsAtOnce(Text("-r"), Digits(), s, st);
        OptSkips(Seq(Text("-r"), Digits()), s, st);
      case Some(r) =>
        ReadsTwo(s, st.pos, "-r", r, p);
        ReadsChar(s, st.pos, "-r", st.pos + 2, 0);
        TextTakes("-r", s, st);
        DigitsTake(s, At(st, st.pos + 2), r, p);
        SeqTakes(Text("-r"), Digits(), s, st, At(st, st.pos + 2), At(st, p));
        AltTakesFirst(Seq(Text("-r"), Digits()), Empty, s, st, At(st, p));
    }
  }

  // base-V1[-rK], a name no package may have.
  function VersionedName(base: string, v: Version, rev: Option<string>): string
    requires ValidVersion(v)
  {
    base + InvalidText(v, rev)
  }

  function InvalidText(v: Version, rev: Option<string>): string
    requires ValidVersion(v)
  {
    "-" + (PrintVersion(v) + RevisionText(rev))
  }

  lemma TwoVersionsLayout(base: string, v1: Version, k: Option<string>, v2: Version, n: Option<string>)
    requires ValidVersion(v1) && ValidVersion(v2)
    ensures var name := VersionedName(base, v1, k);
            var s := Stem(name, v2, n);
            var p, q, p2 := |base|, |base| + 1 + |PrintVersion(v1)|, |name|;
            && q <= p2 < |s| && s[..p] == base && s[..p2] == name
            && s[p] == '-' && s[p + 1..q] == PrintVersion(v1) && s[q..p2] == RevisionText(k)
            && s[p..p2] == InvalidText(v1, k) && HyphenDigit(s, p2)
  {
    hide PrintVersion;
    var name := VersionedName(base, v1, k);
    var s := Stem(name, v2, n);
    var p, q, p2 := |base|, |base| + 1 + |PrintVersion(v1)|, |name|;
    VersionText(v2);
    StemLayout(name, v2, RevisionText(n));
    StemLayout(base, v1, RevisionText(k));
    assert name == StemWith(base, v1, RevisionText(k));
    assert s[..p] == name[..p];
    assert s[p + 1..q] == name[p + 1..q];
    assert s[q..p2] == name[q..];
    assert s[p..p2] == name[p..] == InvalidText(v1, k);
    assert s[p2] == '-' && s[p2 + 1] == PrintVersion(v2)[0];
  }

  lemma FlaggedNameEnd(s: string, v1: Version, k: Option<string>, v2: Version, n: Option<string>,
                       p: nat, q: nat, p2: nat, q2: nat) returns (e: State)
    requires ValidVersion(v1) && ValidRevision(k) && ValidVersion(v2) && ValidRevision(n)
    requires p < |s| && s[p] == '-' && HyphenDigit(s, p2)
    requires Reads(s, p + 1, PrintVersion(v1), q) && Reads(s, q, RevisionText(k), p2)
    requires Reads(s, p2 + 1, PrintVersion(v2), q2) && s[q2..] == RevisionText(n)
    ensures Takes(NameEnd(), s, State(p, map["pn" := 0], map[]), e) && e.pos == |s|
    ensures var caps := map["pn" := Span(0, p2), "pn_inval" := Span(p, p2), "ver" := Span(p2 + 1, q2)];
            e.caps == if n.Some? then caps["rev" := Span(q2 + 2, |s|)] else caps
    ensures n.Some? ==> q2 + 2 <= |s| && s[q2 + 2..] == n.value
  {
    hide MatchAll, PrintVersion, RevisionPart, Takes, AfterName, InvalidPart, Reads;
    ReadsWithin(s, p + 1, PrintVersion(v1), q);
    ReadsWithin(s, q, RevisionText(k), p2);
    ReadsWithin(s, p2 + 1, PrintVersion(v2), q2);
    var st := State(p, map["pn" := 0], map[]);
    InvalidPartTakes(s, st, v1, k, q, p2);
    var st2 := Closed(At(Opened(st, "pn_inval"), p2), "pn_inval");
    AltTakesFirst(InvalidPart(), Empty, s, st, st2);
    e := LastGroupTaken(s, n, AfterVersion(st2, q2));
    AfterNameTakes(s, st2, v2, q2, e);
    SeqTakes(Opt(InvalidPart()), AfterName(), s, st, st2, e);
  }

  lemma VersionedNameIsFlagged(base: string, v1: Version, k: Option<string>, v2: Version, n: Option<string>)
    requires NameText(base) && NoHyphenDigit(base)
    requires ValidVersion(v1) && ValidRevision(k) && ValidVersion(v2) && ValidRevision(n)
    ensures ParseStem(Stem(VersionedName(base, v1, k), v2, n)) ==
            Some(ParsedStem(VersionedName(base, v1, k), InvalidText(v1, k), PrintVersion(v2), RevisionNumber(n)))
  {
    hide MatchAll, PrintVersion, Pattern, RevisionPart, Takes, FindAll, ParseStem, NameEnd, In,
      Stem, VersionedName, InvalidText;
    var name := VersionedName(base, v1, k);
    var s := Stem(name, v2, n);
    var p, p2 := |base|, |name|;
    var q, q2 := p + 1 + |PrintVersion(v1)|, p2 + 1 + |PrintVersion(v2)|;
    TwoVersionsLayout(base, v1, k, v2, n);
    assert Stem(name, v2, n) == StemWith(name, v2, RevisionText(n)) by { StemIsStemWith(name, v2, n); }
    StemLayout(name, v2, RevisionText(n));
    var e := FlaggedNameEnd(s, v1, k, v2, n, p, q, p2, q2);
    NameCharsOf(base, s);
    PatternTakes(s, 0, p, e);
    OnlyMatch(s, e);
    GroupsOfOneMatch(s, e);
    assert Captured(e, "pn", s) == s[0..p2] == name;
    assert Captured(e, "pn_inval", s) == s[p..p2];
    assert Captured(e, "ver", s) == s[p2 + 1..q2];
    assert Captured(e, "rev", s) == RevisionNumber(n);
  }

  lemma StemIsStemWith(name: string, v: Version, n: Option<string>)
    requires ValidVersion(v)
    ensures Stem(name, v, n) == StemWith(name, v, RevisionText(n))
  {
  }

  lemma NameCharsOf(base: string, s: string)
    requires NameText(base) && NoHyphenDigit(base)
    requires |base| < |s| && s[..|base|] == base && s[|base|] == '-'
    ensures IsWord(s[0])
    ensures forall i :: 1 <= i < |base| ==> In(s[i], NameChar) && !HyphenDigit(s, i)
  {
    forall i | 0 <= i < |base|
      ensures s[i] == base[i] && In(s[i], NameChar) && !HyphenDigit(s, i)
    {
      assert s[i] == s[..|base|][i] && base[i] in base;
      assert !HyphenDigit(base, i);
      if i + 1 < |base| {
        assert s[i + 1] == s[..|base|][i + 1];
      }
    }
  }

  // The optional revision at the end of a stem.
  lemma LastGroupTaken(s: string, n: Option<string>, st: State) returns (e: State)
    requires ValidRevision(n) && st.pos <= |s| && s[st.pos..] == RevisionText(n)
    requires "rev" !in st.caps
    ensures Takes(RevisionPart(), s, st, e) && e.pos == |s|
    ensures e.caps == if n.Some? then st.caps["rev" := Span(st.pos + 2, |s|)] else st.caps
    ensures n.Some? ==> s[st.pos + 2..] == n.value
    ensures Stops(s, st.pos)
  {
    hide MatchAll, Takes, RevisionPart;
    match n {
      case None =>
        RevisionSkipped(s, st);
        e := st;
      case Some(r) =>
        RevisionTakes(r, s, st);
        assert s[st.pos] == s[st.pos..][0];
        assert s[st.pos + 2..] == s[st.pos..][2..];
        e := Closed(At(Opened(At(st, st.pos + 2), "rev"), |s|), "rev");
    }
  }

  // ---------- What any match says about its name ----------

  lemma VersionMentionsNothing(group: string)
    ensures !Mentions(VersionPattern(), group)
    ensures !Mentions(Digits(), group)
  {
    hide OneOf;
    OneOfMentionsNothing(NAMES, group);
    assert !Mentions(AnyDigits(), group);
    assert !Mentions(Digits(), group);
    assert !Mentions(Seq(Lit('.'), Digits()), group);
    assert !Mentions(Minors(), group);
    assert !Mentions(Seq(SuffixName(), AnyDigits()), group);
    assert !Mentions(OneSuffix(), group);
    assert !Mentions(SuffixLoop(), group);
    assert !Mentions(Opt(Class(Lower)), group);
    assert !Mentions(Seq(Opt(Class(Lower)), SuffixLoop()), group);
    assert !Mentions(Seq(Minors(), Seq(Opt(Class(Lower)), SuffixLoop())), group);
  }

  lemma RevisionMentionsOnlyRev(group: string)
    requires group != "rev"
    ensures !Mentions(RevisionPart(), group)
  {
    hide Text;
    TextMentionsNothing("-r", group);
    VersionMentionsNothing(group);
    assert !Mentions(Seq(Digits(), Close("rev")), group);
    assert !Mentions(Seq(Open("rev"), Seq(Digits(), Close("rev"))), group);
    assert !Mentions(Seq(Text("-r"), Seq(Open("rev"), Seq(Digits(), Close("rev")))), group);
  }

  lemma AfterNameGroups(s: string, st: State, e: State)
    requires st.pos <= |s| && "pn" in st.starts && e in MatchAll(AfterName(), s, st)
    ensures HyphenDigit(s, st.pos)
    ensures "pn" in e.caps && e.caps["pn"] == Span(st.starts["pn"], st.pos)
    ensures SameGroup(st, e, "pn_inval")
  {
    hide MatchAll, VersionPattern, RevisionPart;
    if !HyphenDigit(s, st.pos) {
      AfterNameFails(s, st);
    }
    var k := Seq(Lit('-'), Seq(Open("ver"), Seq(VersionPattern(), Seq(Close("ver"), RevisionPart()))));
    var m := Closed(st, "pn");
    CloseMatches("pn", s, st);
    SeqOfOne(Close("pn"), k, s, st, m);
    VersionMentionsNothing("pn");
    VersionMentionsNothing("pn_inval");
    RevisionMentionsOnlyRev("pn");
    RevisionMentionsOnlyRev("pn_inval");
    assert !Mentions(Seq(VersionPattern(), Seq(Close("ver"), RevisionPart())), "pn");
    assert !Mentions(Seq(VersionPattern(), Seq(Close("ver"), RevisionPart())), "pn_inval");
    UnmentionedGroupStays(k, s, m, e, "pn");
    UnmentionedGroupStays(k, s, m, e, "pn_inval");
  }

  lemma InvalidPartGroups(s: string, st: State, x: State)
    requires st.pos <= |s| && x in MatchAll(InvalidPart(), s, st)
    ensures st.pos < x.pos <= |s| && SameGroup(st, x, "pn")
    ensures "pn_inval" in x.caps && x.caps["pn_inval"] == Span(st.pos, x.pos)
  {
    hide MatchAll, VersionPattern, Text;
    InvalidPartAdvances(s, st, x);
    var revision := Opt(Seq(Text("-r"), Digits()));
    var a := Opened(st, "pn_inval");
    OpenMatches("pn_inval", s, st);
    SeqOfOne(Open("pn_inval"), Seq(Lit('-'), Seq(VersionPattern(), Seq(revision, Close("pn_inval")))), s, st, a);
    forall g: string
      ensures !Mentions(VersionPattern(), g) && !Mentions(revision, g)
    {
      VersionMentionsNothing(g);
      TextMentionsNothing("-r", g);
      assert !Mentions(Seq(Text("-r"), Digits()), g);
    }
    var b := SeqOrigin(Lit('-'), Seq(VersionPattern(), Seq(revision, Close("pn_inval"))), s, a, x);
    var c := SeqOrigin(VersionPattern(), Seq(revision, Close("pn_inval")), s, b, x);
    var d := SeqOrigin(revision, Close("pn_inval"), s, c, x);
    KeepsTwoGroups(Lit('-'), s, a, b);
    KeepsTwoGroups(VersionPattern(), s, b, c);
    KeepsTwoGroups(revision, s, c, d);
    CloseMatches("pn_inval", s, d);
  }

  lemma KeepsTwoGroups(r: Regex, s: string, x: State, y: State)
    requires x.pos <= |s| && y in MatchAll(r, s, x)
    requires !Mentions(r, "pn") && !Mentions(r, "pn_inval")
    ensures SameGroup(x, y, "pn") && SameGroup(x, y, "pn_inval")
  {
    hide MatchAll, Mentions;
    UnmentionedGroupStays(r, s, x, y, "pn");
    UnmentionedGroupStays(r, s, x, y, "pn_inval");
  }

  // The name ends before a hyphen-digit, and an invalid part is a suffix of it.
  ghost predicate NameGroups(s: string, start: nat, from: nat, e: State) {
    && "pn" in e.caps && e.caps["pn"].start == start && from <= e.caps["pn"].end <= |s|
    && HyphenDigit(s, e.caps["pn"].end)
    && ("pn_inval" in e.caps ==>
          from <= e.caps["pn_inval"].start < e.caps["pn_inval"].end == e.caps["pn"].end)
  }

  lemma NameEndGroups(s: string, st: State, e: State)
    requires st.pos <= |s| && "pn" in st.starts && "pn_inval" !in st.caps
    requires e in MatchAll(NameEnd(), s, st)
    ensures NameGroups(s, st.starts["pn"], st.pos, e)
    ensures "pn_inval" !in e.caps ==> e.caps["pn"].end == st.pos
  {
    hide MatchAll, InvalidPart, AfterName;
    var x := SeqOrigin(Opt(InvalidPart()), AfterName(), s, st, e);
    AltUnfolds(InvalidPart(), Empty, s, st);
    EmptyMatches(s, st);
    if x in MatchAll(InvalidPart(), s, st) {
      InvalidPartGroups(s, st, x);
    }
    AfterNameGroups(s, x, e);
  }

  lemma PatternGroups(s: string, i: nat, e: State)
    requires i <= |s| && e in MatchAll(Pattern(), s, Start(i))
    ensures NameGroups(s, i, i + 1, e)
  {
    hide MatchAll, NameEnd;
    var lazy := Star(Class(NameChar), false);
    var a := Opened(Start(i), "pn");
    OpenMatches("pn", s, Start(i));
    SeqOfOne(Open("pn"), Seq(Class(Word), Seq(lazy, NameEnd())), s, Start(i), a);
    var b := SeqOrigin(Class(Word), Seq(lazy, NameEnd()), s, a, e);
    var c := SeqOrigin(lazy, NameEnd(), s, b, e);
    KeepsTwoGroups(Class(Word), s, a, b);
    KeepsTwoGroups(lazy, s, b, c);
    NameEndGroups(s, c, e);
    ClassAdvances(Word, s, a, b);
  }

  lemma ClassAdvances(cls: CharClass, s: string, a: State, b: State)
    requires a.pos <= |s| && b in MatchAll(Class(cls), s, a)
    ensures b.pos == a.pos + 1
  {
  }

  lemma VersionCaptured(s: string, st: State, e: State)
    requires st.pos <= |s| && e in MatchAll(AfterName(), s, st)
    ensures "ver" in e.caps && e.caps["ver"].start < e.caps["ver"].end <= |s|
  {
    hide MatchAll, Digits, Minors, SuffixLoop, RevisionPart;
    var k := Seq(Close("ver"), RevisionPart());
    var a := SeqOrigin(Close("pn"), Seq(Lit('-'), Seq(Open("ver"), Seq(VersionPattern(), k))), s, st, e);
    var b := SeqOrigin(Lit('-'), Seq(Open("ver"), Seq(VersionPattern(), k)), s, a, e);
    var c := SeqOrigin(Open("ver"), Seq(VersionPattern(), k), s, b, e);
    OpenMatches("ver", s, b);
    var d := SeqOrigin(VersionPattern(), k, s, c, e);
    VersionMentionsNothing("ver");
    UnmentionedGroupStays(VersionPattern(), s, c, d, "ver");
    var tail := Seq(Minors(), Seq(Opt(Class(Lower)), SuffixLoop()));
    var d1 := SeqOrigin(Digits(), tail, s, c, d);
    DigitsAdvance(s, c, d1);
    ResultAfterStart(tail, s, d1, d);
    var f := SeqOrigin(Close("ver"), RevisionPart(), s, d, e);
    CloseMatches("ver", s, d);
    RevisionMentionsOnlyRev("ver");
    UnmentionedGroupStays(RevisionPart(), s, f, e, "ver");
  }

  lemma DigitsAdvance(s: string, st: State, e: State)
    requires st.pos <= |s| && e in MatchAll(Digits(), s, st)
    ensures st.pos < e.pos <= |s|
  {
    hide MatchAll;
    var x := SeqOrigin(Class(Digit), AnyDigits(), s, st, e);
    ClassAdvances(Digit, s, st, x);
    ResultAfterStart(AnyDigits(), s, x, e);
  }

  lemma VersionOfMatch(s: string, i: nat, e: State)
    requires i <= |s| && e in MatchAll(Pattern(), s, Start(i))
    ensures "ver" in e.caps && e.caps["ver"].start < e.caps["ver"].end <= |s|
  {
    hide MatchAll, InvalidPart, AfterName;
    var lazy := Star(Class(NameChar), false);
    var a := SeqOrigin(Open("pn"), Seq(Class(Word), Seq(lazy, NameEnd())), s, Start(i), e);
    var b := SeqOrigin(Class(Word), Seq(lazy, NameEnd()), s, a, e);
    var c := SeqOrigin(lazy, NameEnd(), s, b, e);
    var d := SeqOrigin(Opt(InvalidPart()), AfterName(), s, c, e);
    VersionCaptured(s, d, e);
  }

  lemma {:induction false} MatchesHaveVersions(s: string, from: nat)
    ensures forall m <- FindAll(Pattern(), s, from) ::
              "ver" in m.last.caps && m.last.caps["ver"].start < m.last.caps["ver"].end <= |s|
    decreases |s| - from
  {
    hide MatchAll, Pattern, FindFrom;
    if FindFrom(Pattern(), s, from).Some? {
      var m := FindFrom(Pattern(), s, from).value;
      FoundIsResult(Pattern(), s, from);
      VersionOfMatch(s, m.start, m.last);
      MatchesHaveVersions(s, After(m));
    }
  }

  // A parsed version is never empty.
  lemma VersionIsNeverEmpty(stem: string)
    ensures ParseStem(stem).Some? ==> ParseStem(stem).value.ver != ""
  {
    hide Pattern, FindAll;
    MatchesHaveVersions(stem, 0);
    var ms := FindAll(Pattern(), stem, 0);
    if ms != [] {
      assert ms[|ms| - 1] in ms;
    }
  }

  // ---------- A hyphen-digit always ends the first name ----------

  lemma OneDigitIsAVersion(s: string, st: State)
    requires st.pos < |s| && IsDigit(s[st.pos])
    ensures At(st, st.pos + 1) in MatchAll(VersionPattern(), s, st)
  {
    hide MatchAll;
    var e := At(st, st.pos + 1);
    ClassTakes(Digit, s, st);
    SelfInStar(Class(Digit), s, e);
    SeqReaches(Class(Digit), AnyDigits(), s, st, e, e);
    SelfInStar(OneSuffix(), s, e);
    SelfInOpt(Class(Lower), s, e);
    SeqReaches(Opt(Class(Lower)), SuffixLoop(), s, e, e, e);
    SelfInStar(Seq(Lit('.'), Digits()), s, e);
    SeqReaches(Minors(), Seq(Opt(Class(Lower)), SuffixLoop()), s, e, e, e);
    SeqReaches(Digits(), Seq(Minors(), Seq(Opt(Class(Lower)), SuffixLoop())), s, st, e, e);
  }

  lemma NameEndSucceeds(s: string, st: State)
    requires st.pos <= |s| && HyphenDigit(s, st.pos) && "pn" in st.starts
    ensures MatchAll(NameEnd(), s, st) != []
  {
    hide MatchAll, VersionPattern, RevisionPart, InvalidPart;
    var c := BeforeVersion(st);
    var d := At(c, st.pos + 2);
    var e := Closed(d, "ver");
    var k := Seq(Close("ver"), RevisionPart());
    var a := Closed(st, "pn");
    OneDigitIsAVersion(s, c);
    CloseMatches("ver", s, d);
    SelfInOpt(Seq(Text("-r"), Seq(Open("rev"), Seq(Digits(), Close("rev")))), s, e);
    assert e in MatchAll(RevisionPart(), s, e) by { RevisionIsOptional(s, e); }
    SeqReaches(Close("ver"), RevisionPart(), s, d, e, e);
    SeqReaches(VersionPattern(), k, s, c, d, e);
    OpenMatches("ver", s, At(a, st.pos + 1));
    SeqReaches(Open("ver"), Seq(VersionPattern(), k), s, At(a, st.pos + 1), c, e);
    LitTakes('-', s, a);
    SeqReaches(Lit('-'), Seq(Open("ver"), Seq(VersionPattern(), k)), s, a, At(a, st.pos + 1), e);
    CloseMatches("pn", s, st);
    SeqReaches(Close("pn"), Seq(Lit('-'), Seq(Open("ver"), Seq(VersionPattern(), k))), s, st, a, e);
    SelfInOpt(InvalidPart(), s, st);
    SeqReaches(Opt(InvalidPart()), AfterName(), s, st, st, e);
  }

  lemma RevisionIsOptional(s: string, e: State)
    requires e.pos <= |s|
    ensures e in MatchAll(RevisionPart(), s, e)
  {
    hide MatchAll;
    SelfInOpt(Seq(Text("-r"), Seq(Open("rev"), Seq(Digits(), Close("rev")))), s, e);
  }

  lemma FirstHyphenDigit(s: string, q: nat) returns (h: nat)
    requires HyphenDigit(s, q)
    ensures h <= q && HyphenDigit(s, h)
    ensures forall i :: 0 <= i < h ==> !HyphenDigit(s, i)
  {
    h := 0;
    while !HyphenDigit(s, h)
      invariant h <= q
      invariant forall i :: 0 <= i < h ==> !HyphenDigit(s, i)
      decreases q - h
    {
      h := h + 1;
    }
  }

  // The match at the front of a name with a hyphen-digit at h, the first one.
  lemma FrontMatch(s: string, h: nat)
    requires h < |s| && IsWord(s[0]) && HyphenDigit(s, h)
    requires forall i :: 0 <= i < h ==> In(s[i], NameChar) && !HyphenDigit(s, i)
    ensures FindFrom(Pattern(), s, 0).Some?
    ensures var m := FindFrom(Pattern(), s, 0).value;
            && m.start == 0 && NameGroups(s, 0, h, m.last)
            && ("pn_inval" !in m.last.caps ==> m.last.caps["pn"].end == h)
  {
    hide MatchAll, NameEnd, Pattern, In;
    assert s[h] == '-' && h > 0;
    var st := State(h, map["pn" := 0], map[]);
    NameEndSucceeds(s, st);
    var e := MatchAll(NameEnd(), s, st)[0];
    PatternTakes(s, 0, h, e);
    NameEndGroups(s, st, e);
  }

  // ---------- Exactly the names without a hyphen-digit come back ----------

  // Every match of a repeated search starts where it was found, and only the first
  // one starts at the front.
  lemma {:induction false} MatchesHaveNameGroups(s: string, from: nat)
    ensures forall m <- FindAll(Pattern(), s, from) :: from <= m.start && NameGroups(s, m.start, m.start + 1, m.last)
    decreases |s| - from
  {
    hide MatchAll, Pattern;
    if FindFrom(Pattern(), s, from).Some? {
      var m := FindFrom(Pattern(), s, from).value;
      FoundIsResult(Pattern(), s, from);
      PatternGroups(s, m.start, m.last);
      MatchesHaveNameGroups(s, After(m));
    }
  }

  lemma HyphenDigitsBeforeVersion(pn: string, v: Version, rev: Option<string>)
    requires ValidVersion(v) && ValidRevision(rev)
    ensures forall q :: HyphenDigit(Stem(pn, v, rev), q) ==> q <= |pn|
    ensures forall q :: HyphenDigit(pn, q) ==> HyphenDigit(Stem(pn, v, rev), q)
  {
    hide PrintVersion;
    if rev.Some? {
      RevisionHasNoHyphenDigit(rev.value);
    }
    forall q
      ensures HyphenDigit(Stem(pn, v, rev), q) ==> q <= |pn|
      ensures HyphenDigit(pn, q) ==> HyphenDigit(Stem(pn, v, rev), q)
    {
      HyphenDigitsOfStem(pn, v, RevisionText(rev), q);
    }
  }

  lemma HyphenDigitNameIsMisread(pn: string, v: Version, rev: Option<string>, q: nat)
    requires NameText(pn) && ValidVersion(v) && ValidRevision(rev) && HyphenDigit(pn, q)
    ensures var r := ParseStem(Stem(pn, v, rev));
            r.Some? && (r.value.pn != pn || r.value.pn_inval != "")
  {
    hide MatchAll, Pattern, PrintVersion, FindAll, FindFrom, Stem, In;
    var s := Stem(pn, v, rev);
    var h := FirstHyphenDigit(pn, q);
    NamePrefix(pn, v, rev, h);
    FrontMatch(s, h);
    HyphenDigitsBeforeVersion(pn, v, rev);
    var m0 := FindFrom(Pattern(), s, 0).value;
    FindAllStartsWith(s);
    var ms := FindAll(Pattern(), s, 0);
    MatchesHaveNameGroups(s, After(m0));
    var m := ms[|ms| - 1];
    if |ms| == 1 {
      SingleCapture(ms, "pn", s);
      SingleCapture(ms, "pn_inval", s);
    } else {
      assert m in FindAll(Pattern(), s, After(m0));
      assert LastCapture(ms, "pn", s) == Slice(s, m.last.caps["pn"]);
      assert |LastCapture(ms, "pn", s)| < |pn|;
    }
  }

  lemma SingleCapture(ms: seq<Match>, group: string, s: string)
    requires |ms| == 1
    ensures LastCapture(ms, group, s) ==
            if group in ms[0].last.caps then Slice(s, ms[0].last.caps[group]) else ""
  {
    assert ms[..0] == [];
  }

  lemma FindAllStartsWith(s: string)
    requires FindFrom(Pattern(), s, 0).Some?
    ensures var m := FindFrom(Pattern(), s, 0).value;
            FindAll(Pattern(), s, 0) == [m] + FindAll(Pattern(), s, After(m))
  {
    hide Pattern, FindFrom;
  }

  lemma NamePrefix(pn: string, v: Version, rev: Option<string>, h: nat)
    requires NameText(pn) && ValidVersion(v) && HyphenDigit(pn, h)
    requires forall i :: 0 <= i < h ==> !HyphenDigit(pn, i)
    ensures var s := Stem(pn, v, rev);
            && |pn| < |s| && s[..|pn|] == pn && IsWord(s[0]) && HyphenDigit(s, h)
            && forall i :: 0 <= i < h ==> In(s[i], NameChar) && !HyphenDigit(s, i)
  {
    hide PrintVersion, In;
    var s := Stem(pn, v, rev);
    StemLayout(pn, v, RevisionText(rev));
    forall i | 0 <= i < h
      ensures In(s[i], NameChar) && !HyphenDigit(s, i)
    {
      assert pn[i] in pn && s[i] == pn[i] && s[i + 1] == pn[i + 1];
      assert !HyphenDigit(pn, i);
    }
    assert s[0] == pn[0] && s[h] == pn[h] && s[h + 1] == pn[h + 1];
  }

  // The code reads PN-VER[-rREV] as these parts exactly when PN has no hyphen
  // followed by a digit.
  lemma ParseUndoesPrintIff(pn: string, v: Version, rev: Option<string>)
    requires NameText(pn) && ValidVersion(v) && ValidRevision(rev)
    ensures ParseStem(Stem(pn, v, rev)) ==
            Some(ParsedStem(pn, "", PrintVersion(v), RevisionNumber(rev)))
            <==> NoHyphenDigit(pn)
  {
    hide ParseStem, PrintVersion, Stem;
    if NoHyphenDigit(pn) {
      ParseUndoesPrint(pn, v, rev);
    } else {
      var q :| HyphenDigit(pn, q);
      HyphenDigitNameIsMisread(pn, v, rev, q);
    }
  }
}
