// What the version put together from a tag looks like, and which tags mean the same
// version.
module TagVersionTheorems {
  import opened Wrappers
  import opened Matching
  import opened Grammar
  import opened EbuildName
  import opened EbuildNameTheorems
  import opened TagVersion

  // ---------- Shapes ----------

  predicate DottedOf(t: string, major: string, ms: seq<string>) {
    IsNumber(major) && AreNumbers(ms) && t == major + PrintMinors(ms)
  }

  // \d+(\.\d+)*
  ghost predicate IsDotted(t: string) {
    exists major, ms :: DottedOf(t, major, ms)
  }

  predicate TagOf(t: string, k: nat, number: string) {
    k < |NAMES| && AllDigits(number) && t == NAMES[k] + number
  }

  // (pre|p|beta|alpha|rc)\d*
  ghost predicate IsTag(t: string) {
    exists k, number :: TagOf(t, k, number)
  }

  // A letter other than "p", which always reads as a tag.
  predicate IsSubver(t: string) {
    |t| == 1 && IsLower(t[0]) && t[0] != 'p'
  }

  ghost predicate WellShaped(p: Parts) {
    && IsDotted(p.ver)
    && (p.tag != "" ==> IsTag(p.tag))
    && (p.subver != "" ==> IsSubver(p.subver))
  }

  // ---------- All results of the small pieces ----------

  lemma ClassResult(cls: CharClass, s: string, st: State, e: State)
    requires st.pos <= |s| && e in MatchAll(Class(cls), s, st)
    ensures st.pos < |s| && In(s[st.pos], cls) && e == At(st, st.pos + 1)
  {
  }

  lemma {:induction false} AnyDigitsResult(s: string, st: State, e: State)
    requires st.pos <= |s| && e in MatchAll(AnyDigits(), s, st)
    ensures st.pos <= e.pos <= |s| && AllDigits(s[st.pos..e.pos]) && e == At(st, e.pos)
    decreases |s| - st.pos
  {
    hide MatchAll;
    if e != st {
      var x := StarOrigin(Class(Digit), true, s, st, e);
      ClassResult(Digit, s, st, x);
      AnyDigitsResult(s, x, e);
      assert s[st.pos..e.pos] == [s[st.pos]] + s[x.pos..e.pos];
    }
  }

  lemma DigitsResult(s: string, st: State, e: State)
    requires st.pos <= |s| && e in MatchAll(Digits(), s, st)
    ensures st.pos < e.pos <= |s| && IsNumber(s[st.pos..e.pos]) && e == At(st, e.pos)
  {
    hide MatchAll;
    var x := SeqOrigin(Class(Digit), AnyDigits(), s, st, e);
    ClassResult(Digit, s, st, x);
    AnyDigitsResult(s, x, e);
    assert s[st.pos..e.pos] == [s[st.pos]] + s[x.pos..e.pos];
  }

  lemma {:induction false} MinorsResult(s: string, st: State, e: State) returns (ms: seq<string>)
    requires st.pos <= |s| && e in MatchAll(Minors(), s, st)
    ensures st.pos <= e.pos <= |s| && e == At(st, e.pos)
    ensures AreNumbers(ms) && s[st.pos..e.pos] == PrintMinors(ms)
    decreases |s| - st.pos
  {
    hide MatchAll;
    ms := [];
    if e != st {
      var x := StarOrigin(Seq(Lit('.'), Digits()), true, s, st, e);
      var y := SeqOrigin(Lit('.'), Digits(), s, st, x);
      ClassResult(AnyOf(['.']), s, st, y);
      DigitsResult(s, y, x);
      var rest := MinorsResult(s, x, e);
      var n := s[y.pos..x.pos];
      ms := [n] + rest;
      assert s[st.pos..e.pos] == "." + n + s[x.pos..e.pos];
      assert PrintMinors(ms) == "." + n + PrintMinors(rest);
    }
  }

  lemma {:induction false} OneOfResult(ts: seq<string>, s: string, st: State, e: State) returns (k: nat)
    requires |ts| >= 1 && st.pos <= |s| && e in MatchAll(OneOf(ts), s, st)
    ensures k < |ts| && Reads(s, st.pos, ts[k], e.pos) && e == At(st, e.pos)
  {
    hide MatchAll, Text;
    TextMatches(ts[0], s, st);
    if e in MatchAll(Text(ts[0]), s, st) {
      k := 0;
    } else {
      AltUnfolds(Text(ts[0]), OneOf(ts[1..]), s, st);
      k := OneOfResult(ts[1..], s, st, e);
      k := k + 1;
    }
  }

  lemma TagGroupResult(s: string, st: State, e: State)
    requires st.pos <= |s| && e in MatchAll(TagGroup(), s, st)
    ensures st.pos < e.pos <= |s| && IsTag(s[st.pos..e.pos])
    ensures e.caps == st.caps["tag" := Span(st.pos, e.pos)]
  {
    hide MatchAll, SuffixName, AnyDigits, IsTag;
    var k := Seq(AnyDigits(), Close("tag"));
    var a := Opened(st, "tag");
    OpenMatches("tag", s, st);
    SeqOfOne(Open("tag"), Seq(SuffixName(), k), s, st, a);
    var b := SeqOrigin(SuffixName(), k, s, a, e);
    var c := SeqOrigin(AnyDigits(), Close("tag"), s, b, e);
    NamedTag(s, a, b, c);
    CloseMatches("tag", s, c);
  }

  lemma NamedTag(s: string, a: State, b: State, c: State)
    requires a.pos <= b.pos <= |s|
    requires b in MatchAll(SuffixName(), s, a) && c in MatchAll(AnyDigits(), s, b)
    ensures a.pos < c.pos <= |s| && IsTag(s[a.pos..c.pos]) && c == At(a, c.pos)
  {
    hide MatchAll, OneOf, AnyDigits;
    var i := OneOfResult(NAMES, s, a, b);
    AnyDigitsResult(s, b, c);
    assert s[a.pos..c.pos] == NAMES[i] + s[b.pos..c.pos];
    assert TagOf(s[a.pos..c.pos], i, s[b.pos..c.pos]);
  }

  lemma TagPartResult(s: string, st: State, e: State)
    requires st.pos <= |s| && e in MatchAll(TagPart(), s, st)
    ensures st.pos < e.pos <= |s|
    ensures exists p :: st.pos <= p < e.pos && IsTag(s[p..e.pos]) && e.caps == st.caps["tag" := Span(p, e.pos)]
  {
    hide MatchAll, TagGroup;
    var x := SeqOrigin(Opt(Class(AnyOf("-_."))), TagGroup(), s, st, e);
    AltUnfolds(Class(AnyOf("-_.")), Empty, s, st);
    EmptyMatches(s, st);
    if x != st {
      ClassResult(AnyOf("-_."), s, st, x);
    }
    TagGroupResult(s, x, e);
  }

  lemma SubverPartResult(s: string, st: State, e: State)
    requires st.pos <= |s| && e in MatchAll(SubverPart(), s, st)
    ensures st.pos < |s| && e.pos == st.pos + 1 && IsLower(s[st.pos])
    ensures e.caps == st.caps["subver" := Span(st.pos, st.pos + 1)]
  {
    hide MatchAll;
    var a := Opened(st, "subver");
    OpenMatches("subver", s, st);
    SeqOfOne(Open("subver"), Seq(Class(Lower), Close("subver")), s, st, a);
    var b := SeqOrigin(Class(Lower), Close("subver"), s, a, e);
    ClassResult(Lower, s, a, b);
    CloseMatches("subver", s, b);
  }

  lemma {:induction false} OneOfReaches(ts: seq<string>, k: nat, s: string, st: State)
    requires k < |ts| && Reads(s, st.pos, ts[k], st.pos + |ts[k]|)
    ensures At(st, st.pos + |ts[k]|) in MatchAll(OneOf(ts), s, st)
  {
    hide MatchAll, Text, Reads;
    ReadsWithin(s, st.pos, ts[k], st.pos + |ts[k]|);
    TextMatches(ts[0], s, st);
    if |ts| > 1 {
      AltUnfolds(Text(ts[0]), OneOf(ts[1..]), s, st);
      if k > 0 {
        OneOfReaches(ts[1..], k - 1, s, st);
      }
    }
  }

  // A "p" is always read as a tag.
  lemma TagPartTakesP(s: string, st: State)
    requires st.pos < |s| && s[st.pos] == 'p'
    ensures MatchAll(TagPart(), s, st) != []
  {
    hide MatchAll, OneOf;
    var a := Opened(st, "tag");
    var b := At(a, st.pos + 1);
    var c := Closed(b, "tag");
    var t := s[st.pos..st.pos + 1];
    assert |t| == 1 && t[0] == 'p';
    assert t == "p" == NAMES[1];
    OneOfReaches(NAMES, 1, s, a);
    CloseMatches("tag", s, b);
    SelfInStar(Class(Digit), s, b);
    SeqReaches(AnyDigits(), Close("tag"), s, b, b, c);
    SeqReaches(SuffixName(), Seq(AnyDigits(), Close("tag")), s, a, b, c);
    OpenMatches("tag", s, st);
    SeqReaches(Open("tag"), Seq(SuffixName(), Seq(AnyDigits(), Close("tag"))), s, st, a, c);
    SelfInOpt(Class(AnyOf("-_.")), s, st);
    SeqReaches(Opt(Class(AnyOf("-_."))), TagGroup(), s, st, st, c);
  }

  // ---------- The groups of a match ----------

  ghost predicate GoodTags(s: string, caps: map<string, Span>) {
    && ("tag" in caps ==> IsTag(Slice(s, caps["tag"])))
    && ("subver" in caps ==> IsSubver(Slice(s, caps["subver"])))
  }

  predicate SameVer(x: State, y: State) {
    ("ver" in x.caps <==> "ver" in y.caps) && ("ver" in x.caps ==> x.caps["ver"] == y.caps["ver"])
  }

  lemma OneTag(s: string, st: State, e: State)
    requires st.pos <= |s| && GoodTags(s, st.caps)
    requires Takes(Alt(TagPart(), SubverPart()), s, st, e)
    ensures st.pos < e.pos <= |s| && GoodTags(s, e.caps) && SameVer(st, e)
  {
    hide MatchAll, TagPart, SubverPart, IsTag;
    AltUnfolds(TagPart(), SubverPart(), s, st);
    if MatchAll(TagPart(), s, st) != [] {
      TagPartResult(s, st, e);
    } else {
      SubverPartResult(s, st, e);
      if s[st.pos] == 'p' {
        TagPartTakesP(s, st);
      }
    }
  }

  lemma {:induction false} TagLoopGroups(s: string, st: State, e: State)
    requires st.pos <= |s| && GoodTags(s, st.caps)
    requires Takes(TagLoop(), s, st, e)
    ensures GoodTags(s, e.caps) && SameVer(st, e)
    decreases |s| - st.pos
  {
    hide MatchAll, GoodTags, TagPart, SubverPart;
    var body := Alt(TagPart(), SubverPart());
    if MatchAll(body, s, st) == [] {
      StarStops(body, s, st);
    } else {
      var h := MatchAll(body, s, st)[0];
      OneTag(s, st, h);
      SelfInStar(body, s, h);
      var e' := MatchAll(TagLoop(), s, h)[0];
      StarIterates(body, s, st, h, e');
      TagLoopGroups(s, h, e');
    }
  }

  lemma IgnoredRevisionKeeps(s: string, st: State, e: State)
    requires st.pos <= |s| && e in MatchAll(IgnoredRevision(), s, st)
    ensures e.caps == st.caps
  {
    hide MatchAll, Text;
    AltUnfolds(Seq(Text("-r"), Digits()), Empty, s, st);
    EmptyMatches(s, st);
    if e != st {
      var x := SeqOrigin(Text("-r"), Digits(), s, st, e);
      TextMatches("-r", s, st);
      DigitsResult(s, x, e);
    }
  }

  lemma TailGroups(s: string, st: State, e: State)
    requires st.pos <= |s| && GoodTags(s, st.caps) && Takes(Tail(), s, st, e)
    ensures GoodTags(s, e.caps) && SameVer(st, e)
  {
    hide MatchAll, GoodTags, TagLoop;
    forall y <- MatchAll(TagLoop(), s, st) | y.pos <= |s|
      ensures MatchAll(IgnoredRevision(), s, y) != []
    {
      SelfInOpt(Seq(Text("-r"), Digits()), s, y);
    }
    var x := SeqHeadOfTotal(TagLoop(), IgnoredRevision(), s, st, e);
    TagLoopGroups(s, st, x);
    IgnoredRevisionKeeps(s, x, e);
  }

  ghost predicate GoodGroups(s: string, e: State) {
    "ver" in e.caps && IsDotted(Slice(s, e.caps["ver"])) && GoodTags(s, e.caps)
  }

  lemma VersionAndTagsGroups(s: string, st: State, e: State)
    requires st.pos <= |s| && GoodTags(s, st.caps) && Takes(VersionAndTags(), s, st, e)
    ensures GoodGroups(s, e)
  {
    hide MatchAll, GoodTags, Tail, Digits, Minors;
    var k := Seq(Close("ver"), Tail());
    var a := SeqHead(Open("ver"), Seq(Digits(), Seq(Minors(), k)), s, st, e);
    OpenMatches("ver", s, st);
    var b := SeqHead(Digits(), Seq(Minors(), k), s, a, e);
    DigitsResult(s, a, b);
    var c := SeqHead(Minors(), k, s, b, e);
    var ms := MinorsResult(s, b, c);
    var d := SeqHead(Close("ver"), Tail(), s, c, e);
    CloseMatches("ver", s, c);
    OtherCapture(s, c, "ver");
    TailGroups(s, d, e);
    assert s[st.pos..c.pos] == s[st.pos..b.pos] + s[b.pos..c.pos];
    assert DottedOf(s[st.pos..c.pos], s[st.pos..b.pos], ms);
  }

  lemma OtherCapture(s: string, st: State, name: string)
    requires GoodTags(s, st.caps) && name != "tag" && name != "subver" && name in st.starts
    ensures GoodTags(s, Closed(st, name).caps)
  {
  }

  lemma PrefixMentionsOnlyName(group: string)
    requires group != "name"
    ensures !Mentions(Opt(NamePrefix()), group)
  {
    assert !Mentions(Seq(Close("name"), Lit('-')), group);
    assert !Mentions(Star(Class(NameChar), false), group);
    assert !Mentions(Seq(Star(Class(NameChar), false), Seq(Close("name"), Lit('-'))), group);
    assert !Mentions(Seq(Class(Word), Seq(Star(Class(NameChar), false), Seq(Close("name"), Lit('-')))), group);
    assert !Mentions(NamePrefix(), group);
  }

  lemma TagPatternGroups(s: string, i: nat, e: State)
    requires i <= |s| && Takes(TagPattern(), s, Start(i), e)
    ensures GoodGroups(s, e)
  {
    hide MatchAll, VersionAndTags, NamePrefix;
    var x := SeqHead(Opt(NamePrefix()), VersionAndTags(), s, Start(i), e);
    PrefixMentionsOnlyName("tag");
    PrefixMentionsOnlyName("subver");
    UnmentionedGroupStays(Opt(NamePrefix()), s, Start(i), x, "tag");
    UnmentionedGroupStays(Opt(NamePrefix()), s, Start(i), x, "subver");
    VersionAndTagsGroups(s, x, e);
  }

  lemma {:induction false} FoundIsPreferred(r: Regex, s: string, from: nat)
    requires FindFrom(r, s, from).Some?
    ensures var m := FindFrom(r, s, from).value; m.start <= |s| && Takes(r, s, Start(m.start), m.last)
    decreases |s| - from
  {
    hide MatchAll;
    if MatchAll(r, s, Start(from)) == [] {
      FoundIsPreferred(r, s, from + 1);
    }
  }

  lemma {:induction false} AllMatchesHaveGoodGroups(s: string, from: nat)
    ensures forall m <- FindAll(TagPattern(), s, from) :: GoodGroups(s, m.last)
    decreases |s| - from
  {
    hide MatchAll, TagPattern, FindFrom, GoodGroups;
    if FindFrom(TagPattern(), s, from).Some? {
      var m := FindFrom(TagPattern(), s, from).value;
      FoundIsPreferred(TagPattern(), s, from);
      TagPatternGroups(s, m.start, m.last);
      AllMatchesHaveGoodGroups(s, After(m));
    }
  }

  lemma {:induction false} LastPartsAreShaped(ms: seq<Match>, s: string)
    requires forall m <- ms :: GoodGroups(s, m.last)
    ensures ms != [] ==> WellShaped(LastParts(ms, s))
    ensures ms == [] ==> LastParts(ms, s) == Parts("", "", "")
  {
    hide IsDotted, IsTag, IsSubver;
    if ms != [] {
      LastPartsAreShaped(ms[..|ms| - 1], s);
      assert GoodGroups(s, ms[|ms| - 1].last);
    }
  }

  // On every input the function accepts, the result is a dotted number, at most one
  // "-tag" and at most one "-letter".
  lemma OutputShape(t: string)
    requires ToPortage(t).Ok?
    ensures WellShaped(LastParts(FindAll(TagPattern(), t, 0), t))
    ensures ToPortage(t).value == Joined(LastParts(FindAll(TagPattern(), t, 0), t))
  {
    hide FindAll, TagPattern, LastParts, GoodGroups;
    AllMatchesHaveGoodGroups(t, 0);
    LastPartsAreShaped(FindAll(TagPattern(), t, 0), t);
  }

  // ---------- Reading one version ----------

  lemma NamePrefixResult(s: string, st: State, x: State)
    requires st.pos <= |s| && x in MatchAll(NamePrefix(), s, st)
    ensures 0 < x.pos <= |s| && s[x.pos - 1] == '-'
  {
    hide MatchAll;
    var k := Seq(Close("name"), Lit('-'));
    var lazy := Star(Class(NameChar), false);
    var a := SeqOrigin(Open("name"), Seq(Class(Word), Seq(lazy, k)), s, st, x);
    var b := SeqOrigin(Class(Word), Seq(lazy, k), s, a, x);
    var c := SeqOrigin(lazy, k, s, b, x);
    var d := SeqOrigin(Close("name"), Lit('-'), s, c, x);
    ClassResult(AnyOf(['-']), s, d, x);
  }

  lemma VersionAndTagsFail(s: string, st: State)
    requires NextIsNot(s, st.pos, Digit)
    ensures Fails(VersionAndTags(), s, st)
  {
    hide MatchAll, Digits, Minors, Tail;
    var k := Seq(Minors(), Seq(Close("ver"), Tail()));
    OpenMatches("ver", s, st);
    SeqOfOne(Open("ver"), Seq(Digits(), k), s, st, Opened(st, "ver"));
    DigitsFail(s, Opened(st, "ver"));
    SeqFailsAtOnce(Digits(), k, s, Opened(st, "ver"));
  }

  // With no hyphen before a digit there is no name in front of the version.
  lemma NoNameInFront(s: string, st: State)
    requires st.pos <= |s| && NoHyphenDigit(s)
    ensures MatchAll(TagPattern(), s, st) == MatchAll(VersionAndTags(), s, st)
  {
    hide MatchAll, VersionAndTags, NamePrefix;
    var named := MatchAll(NamePrefix(), s, st);
    forall x <- named
      ensures MatchAll(VersionAndTags(), s, x) == []
    {
      NamePrefixResult(s, st, x);
      assert !HyphenDigit(s, x.pos - 1);
      VersionAndTagsFail(s, x);
    }
    AltUnfolds(NamePrefix(), Empty, s, st);
    EmptyMatches(s, st);
    SeqUnfolds(Opt(NamePrefix()), VersionAndTags(), s, st);
    EachEmpty(VersionAndTags(), s, named);
    EachOne(VersionAndTags(), s, st);
    EachAppend(VersionAndTags(), s, named, [st]);
  }

  lemma TagPatternFailsFrom(s: string, from: nat)
    requires forall i :: from <= i < |s| ==> !IsDigit(s[i])
    ensures FailsFrom(TagPattern(), s, from)
  {
    hide MatchAll, VersionAndTags, NamePrefix;
    forall st: State | from <= st.pos <= |s|
      ensures Fails(VersionAndTags(), s, st)
    {
      VersionAndTagsFail(s, st);
    }
    SeqFailsFrom(Opt(NamePrefix()), VersionAndTags(), s, from);
  }

  // The state after a version that starts at st and ends at q.
  function VersionRead(st: State, q: nat): State {
    Closed(At(Opened(st, "ver"), q), "ver")
  }

  lemma VersionTakesFrom(s: string, st: State, major: string, ms: seq<string>, q: nat, e: State)
    requires Reads(s, st.pos, major + PrintMinors(ms), q) && IsNumber(major) && AreNumbers(ms)
    requires NextIsNot(s, q, Digit)
    requires q < |s| && s[q] == '.' ==> NextIsNot(s, q + 1, Digit)
    requires Takes(Tail(), s, VersionRead(st, q), e)
    ensures Takes(VersionAndTags(), s, st, e)
  {
    hide MatchAll, Tail, Digits, Minors, Reads, Takes, PrintMinors, In;
    ReadsWithin(s, st.pos, major + PrintMinors(ms), q);
    ReadsTwo(s, st.pos, major, PrintMinors(ms), q);
    var a := Opened(st, "ver");
    var p := st.pos + |major|;
    var b, c := At(a, p), At(a, q);
    var k := Seq(Close("ver"), Tail());
    CloseMatches("ver", s, c);
    SeqTakes(Close("ver"), Tail(), s, c, VersionRead(st, q), e);
    MinorsTake(ms, s, b, q);
    SeqTakes(Minors(), k, s, b, c, e);
    DigitsTake(s, a, major, p);
    SeqTakes(Digits(), Seq(Minors(), k), s, a, b, e);
    OpenMatches("ver", s, st);
    SeqTakes(Open("ver"), Seq(Digits(), Seq(Minors(), k)), s, st, a, e);
  }

  // ---------- What stands in front of the version ----------

  // Anything without a digit that leaves no hyphen before the version, like "v".
  predicate IsLead(u: string) {
    (forall c <- u :: !IsDigit(c)) && (u != "" ==> u[|u| - 1] != '-')
  }

  // A package name and a hyphen, like "boost-".
  ghost predicate IsNamed(u: string) {
    u != "" && u[|u| - 1] == '-' && NameText(u[..|u| - 1]) && NoHyphenDigit(u[..|u| - 1])
  }

  // Where the version starts: behind a lead the search starts anew, and behind a name
  // the name group is known.
  function FrontState(u: string): State {
    if u != "" && u[|u| - 1] == '-' then State(|u|, map["name" := 0], map["name" := Span(0, |u| - 1)])
    else Start(|u|)
  }

  lemma LeadIsSkipped(s: string, p: nat, e: State)
    requires p <= |s| && NoHyphenDigit(s) && forall i :: 0 <= i < p ==> !IsDigit(s[i])
    requires Takes(VersionAndTags(), s, Start(p), e) && e.pos <= |s|
    ensures FindFrom(TagPattern(), s, 0) == Some(Match(p, e))
  {
    hide MatchAll, VersionAndTags, NoHyphenDigit, TagPattern;
    forall i | 0 <= i < p
      ensures Fails(TagPattern(), s, Start(i))
    {
      NoNameInFront(s, Start(i));
      VersionAndTagsFail(s, Start(i));
    }
    FirstMatchIsLater(TagPattern(), s, 0, p);
    NoNameInFront(s, Start(p));
  }

  function NameClosing(): Regex {
    Seq(Close("name"), Lit('-'))
  }

  lemma NameClosingMatches(s: string, st: State)
    requires st.pos <= |s| && "name" in st.starts
    ensures MatchAll(NameClosing(), s, st) ==
            if st.pos < |s| && s[st.pos] == '-' then [At(Closed(st, "name"), st.pos + 1)] else []
  {
    hide MatchAll;
    var c := Closed(st, "name");
    CloseMatches("name", s, st);
    SeqOfOne(Close("name"), Lit('-'), s, st, c);
    if st.pos < |s| && s[st.pos] == '-' {
      LitTakes('-', s, c);
    } else {
      LitFails('-', s, c);
    }
  }

  lemma NoDigitBehind(s: string, p: nat)
    requires p < |s| && s[p] == '-' && !HyphenDigit(s, p)
    ensures NextIsNot(s, p + 1, Digit)
  {
  }

  // The lazy name gives up every hyphen that no digit follows.
  lemma {:induction false} NameSearch(s: string, st: State, p: nat, e: State)
    requires st.pos <= p < |s| && s[p] == '-' && "name" in st.starts
    requires forall q :: st.pos <= q < p ==> In(s[q], NameChar) && !HyphenDigit(s, q)
    requires Takes(VersionAndTags(), s, At(Closed(At(st, p), "name"), p + 1), e)
    ensures var named := MatchAll(Seq(Star(Class(NameChar), false), NameClosing()), s, st);
            InText(named, s)
            && MatchEach(VersionAndTags(), s, named) != [] && MatchEach(VersionAndTags(), s, named)[0] == e
    decreases p - st.pos
  {
    hide MatchAll, MatchEach, VersionAndTags, In, NameClosing, HyphenDigit, Takes;
    var k, here := NameClosing(), MatchAll(NameClosing(), s, st);
    LazyStep(NameChar, k, s, st);
    if st.pos < p {
      var next := At(st, st.pos + 1);
      HyphenGivenUp(s, st, here);
      NameSearch(s, next, p, e);
      EachAppend(VersionAndTags(), s, here, MatchAll(Seq(Star(Class(NameChar), false), k), s, next));
    } else {
      var x := At(Closed(st, "name"), p + 1);
      var rest := if In(s[p], NameChar) then MatchAll(Seq(Star(Class(NameChar), false), k), s, At(st, p + 1)) else [];
      NameClosingMatches(s, st);
      assert here == [x];
      EachTakesFirst(VersionAndTags(), s, [x] + rest, e);
    }
  }

  lemma HyphenGivenUp(s: string, st: State, here: seq<State>)
    requires st.pos < |s| && "name" in st.starts && !HyphenDigit(s, st.pos)
    requires here == MatchAll(NameClosing(), s, st)
    ensures MatchEach(VersionAndTags(), s, here) == []
  {
    hide MatchAll, MatchEach, VersionAndTags, NameClosing;
    NameClosingMatches(s, st);
    if s[st.pos] == '-' {
      var x := At(Closed(st, "name"), st.pos + 1);
      NoDigitBehind(s, st.pos);
      VersionAndTagsFail(s, x);
      EachOne(VersionAndTags(), s, x);
    } else {
      EachEmpty(VersionAndTags(), s, []);
    }
  }

  lemma NameIsSkipped(s: string, p: nat, e: State)
    requires 0 < p < |s| && s[p] == '-' && IsWord(s[0])
    requires forall q :: 1 <= q < p ==> In(s[q], NameChar) && !HyphenDigit(s, q)
    requires Takes(VersionAndTags(), s, State(p + 1, map["name" := 0], map["name" := Span(0, p)]), e) && e.pos <= |s|
    ensures FindFrom(TagPattern(), s, 0) == Some(Match(0, e))
  {
    hide MatchAll, MatchEach, VersionAndTags, In, HyphenDigit;
    var st := Start(0);
    var a := Opened(st, "name");
    var b := At(a, 1);
    var tail := Seq(Star(Class(NameChar), false), NameClosing());
    OpenMatches("name", s, st);
    SeqOfOne(Open("name"), Seq(Class(Word), tail), s, st, a);
    assert In(s[0], Word) by { WordChar(s[0]); }
    ClassTakes(Word, s, a);
    SeqOfOne(Class(Word), tail, s, a, b);
    assert At(Closed(At(b, p), "name"), p + 1) == State(p + 1, map["name" := 0], map["name" := Span(0, p)]);
    NameSearch(s, b, p, e);
    var named := MatchAll(NamePrefix(), s, st);
    assert named == MatchAll(tail, s, b);
    AltUnfolds(NamePrefix(), Empty, s, st);
    EmptyMatches(s, st);
    EachAppend(VersionAndTags(), s, named, [st]);
    SeqUnfolds(Opt(NamePrefix()), VersionAndTags(), s, st);
  }

  lemma WordChar(c: char)
    ensures In(c, Word) <==> IsWord(c)
  {
  }

  // Lead or name, the first match reads the version behind it.
  lemma FrontIsSkipped(u: string, s: string, e: State)
    requires IsLead(u) || IsNamed(u)
    requires u <= s && |u| < |s| && IsDigit(s[|u|])
    requires forall q :: q >= |u| ==> !HyphenDigit(s, q)
    requires Takes(VersionAndTags(), s, FrontState(u), e) && e.pos <= |s|
    ensures FindFrom(TagPattern(), s, 0).Some? && FindFrom(TagPattern(), s, 0).value.last == e
  {
    hide MatchAll, VersionAndTags, TagPattern, In;
    if u != "" && u[|u| - 1] == '-' {
      var p := |u| - 1;
      var name := u[..p];
      forall q | 1 <= q < p
        ensures In(s[q], NameChar) && !HyphenDigit(s, q)
      {
        assert s[q] == name[q] && name[q] in name;
        assert !HyphenDigit(name, q);
      }
      assert s[0] == name[0];
      NameIsSkipped(s, p, e);
    } else {
      forall q
        ensures !HyphenDigit(s, q)
      {
        if 0 <= q < |u| {
          assert s[q] == u[q] && u[|u| - 1] in u;
          assert q + 1 < |u| ==> s[q + 1] == u[q + 1] && u[q + 1] in u;
        }
      }
      forall i | 0 <= i < |u|
        ensures !IsDigit(s[i])
      {
        assert s[i] == u[i] && u[i] in u;
      }
      LeadIsSkipped(s, |u|, e);
    }
  }

  lemma OneVersion(u: string, s: string, major: string, ms: seq<string>, q: nat, e: State)
    requires (IsLead(u) || IsNamed(u)) && u <= s
    requires Reads(s, |u|, major + PrintMinors(ms), q) && IsNumber(major) && AreNumbers(ms)
    requires NextIsNot(s, q, Digit)
    requires q < |s| && s[q] == '.' ==> NextIsNot(s, q + 1, Digit)
    requires Takes(Tail(), s, VersionRead(FrontState(u), q), e) && q <= e.pos <= |s|
    requires forall i :: i >= |u| ==> !HyphenDigit(s, i)
    requires forall i :: e.pos <= i < |s| ==> !IsDigit(s[i])
    ensures |FindAll(TagPattern(), s, 0)| == 1 && FindAll(TagPattern(), s, 0)[0].last == e
  {
    hide MatchAll, Tail, TagPattern, VersionAndTags, Reads, IsLead, IsNamed;
    ReadsWithin(s, |u|, major + PrintMinors(ms), q);
    ReadsChar(s, |u|, major + PrintMinors(ms), q, 0);
    assert major[0] in major;
    VersionTakesFrom(s, FrontState(u), major, ms, q, e);
    FrontIsSkipped(u, s, e);
    TagPatternFailsFrom(s, e.pos);
    NoMatchFrom(TagPattern(), s, e.pos);
    assert After(FindFrom(TagPattern(), s, 0).value) >= e.pos;
    NoMatchFrom(TagPattern(), s, After(FindFrom(TagPattern(), s, 0).value));
  }

  // ---------- Reading the tag behind it ----------

  lemma {:induction false} OneOfFails(ts: seq<string>, s: string, st: State)
    requires |ts| >= 1 && st.pos <= |s|
    requires forall j :: 0 <= j < |ts| ==> !Reads(s, st.pos, ts[j], st.pos + |ts[j]|)
    ensures Fails(OneOf(ts), s, st)
  {
    hide MatchAll, Text, Reads;
    TextMatches(ts[0], s, st);
    if |ts| > 1 {
      OneOfFails(ts[1..], s, st);
      AltUnfolds(Text(ts[0]), OneOf(ts[1..]), s, st);
    }
  }

  // Where the loop over tags and letters ends: at the end, or before a final "-l".
  predicate LoopEnds(s: string, p: nat) {
    p == |s| || (p + 2 == |s| && s[p] == '-' && IsSubver(s[p + 1..]))
  }

  // No suffix name begins here: only "p" has a single letter.
  predicate NoNameAt(s: string, p: nat) {
    p <= |s| && (p < |s| && IsLower(s[p]) ==> s[p] != 'p' && NextIsNot(s, p + 1, Lower))
  }

  lemma NoSuffixName(s: string, st: State)
    requires NoNameAt(s, st.pos)
    ensures Fails(SuffixName(), s, st)
  {
    hide MatchAll, Reads, OneOf;
    forall j | 0 <= j < |NAMES|
      ensures !Reads(s, st.pos, NAMES[j], st.pos + |NAMES[j]|)
    {
      ReadsChar(s, st.pos, NAMES[j], st.pos + |NAMES[j]|, 0);
      ReadsChar(s, st.pos, NAMES[j], st.pos + |NAMES[j]|, if |NAMES[j]| > 1 then 1 else 0);
    }
    OneOfFails(NAMES, s, st);
  }

  lemma TagGroupFails(s: string, st: State)
    requires NoNameAt(s, st.pos)
    ensures Fails(TagGroup(), s, st)
  {
    hide MatchAll, SuffixName;
    var k := Seq(AnyDigits(), Close("tag"));
    OpenMatches("tag", s, st);
    SeqOfOne(Open("tag"), Seq(SuffixName(), k), s, st, Opened(st, "tag"));
    NoSuffixName(s, Opened(st, "tag"));
    SeqFailsAtOnce(SuffixName(), k, s, Opened(st, "tag"));
  }

  lemma BodyFails(s: string, st: State)
    requires st.pos <= |s| && LoopEnds(s, st.pos)
    ensures Fails(Alt(TagPart(), SubverPart()), s, st)
  {
    hide MatchAll, TagGroup;
    var sep := Class(AnyOf("-_."));
    AltUnfolds(sep, Empty, s, st);
    EmptyMatches(s, st);
    forall x <- MatchAll(Opt(sep), s, st)
      ensures MatchAll(TagGroup(), s, x) == []
    {
      if x != st {
        ClassResult(AnyOf("-_."), s, st, x);
      }
      TagGroupFails(s, x);
    }
    SeqFails(Opt(sep), TagGroup(), s, st);
    var a := Opened(st, "subver");
    OpenMatches("subver", s, st);
    SeqOfOne(Open("subver"), Seq(Class(Lower), Close("subver")), s, st, a);
    ClassFails(Lower, s, a);
    SeqFailsAtOnce(Class(Lower), Close("subver"), s, a);
    AltUnfolds(TagPart(), SubverPart(), s, st);
  }

  lemma IgnoredRevisionSkipped(s: string, st: State)
    requires st.pos <= |s| && LoopEnds(s, st.pos)
    ensures Takes(IgnoredRevision(), s, st, st)
  {
    hide MatchAll, Text;
    TextMatches("-r", s, st);
    if Reads(s, st.pos, "-r", st.pos + 2) {
      SeqOfOne(Text("-r"), Digits(), s, st, At(st, st.pos + 2));
      DigitsFail(s, At(st, st.pos + 2));
    } else {
      SeqFailsAtOnce(Text("-r"), Digits(), s, st);
    }
    OptSkips(Seq(Text("-r"), Digits()), s, st);
  }

  lemma TailStops(s: string, st: State)
    requires st.pos <= |s| && LoopEnds(s, st.pos)
    ensures Takes(TagLoop(), s, st, st)
    ensures Takes(Tail(), s, st, st)
  {
    hide MatchAll, TagPart, SubverPart, LoopEnds, Takes;
    BodyFails(s, st);
    StarStops(Alt(TagPart(), SubverPart()), s, st);
    IgnoredRevisionSkipped(s, st);
    SeqTakes(TagLoop(), IgnoredRevision(), s, st, st, st);
  }

  predicate IsSeparator(sep: string) {
    sep == "" || sep == "-" || sep == "_" || sep == "."
  }

  function TagRead(st: State, m: nat, end: nat): State {
    Closed(At(Opened(At(st, m), "tag"), end), "tag")
  }

  lemma TagGroupTakes(s: string, st: State, tag: string, end: nat)
    requires IsTag(tag) && Reads(s, st.pos, tag, end)
    requires NextIsNot(s, end, Digit) && NextIsNot(s, end, AnyOf("r"))
    ensures Takes(TagGroup(), s, st, Closed(At(Opened(st, "tag"), end), "tag"))
    ensures st.pos < end <= |s| && IsLower(s[st.pos])
  {
    hide MatchAll, Takes, Reads, SuffixName, AnyDigits;
    ReadsWithin(s, st.pos, tag, end);
    var i: nat, number :| TagOf(tag, i, number);
    var name := NAMES[i];
    ReadsTwo(s, st.pos, name, number, end);
    ReadsChar(s, st.pos, name, st.pos + |name|, 0);
    var a := Opened(st, "tag");
    var b, c := At(a, st.pos + |name|), At(a, end);
    if number != "" {
      ReadsChar(s, b.pos, number, end, 0);
      assert number[0] in number;
    }
    SuffixNameTakes(i, s, a);
    ReadsText(s, b.pos, number, end);
    AnyDigitsTake(s, b, end);
    CloseMatches("tag", s, c);
    SeqTakes(AnyDigits(), Close("tag"), s, b, c, Closed(c, "tag"));
    SeqTakes(SuffixName(), Seq(AnyDigits(), Close("tag")), s, a, b, Closed(c, "tag"));
    OpenMatches("tag", s, st);
    SeqTakes(Open("tag"), Seq(SuffixName(), Seq(AnyDigits(), Close("tag"))), s, st, a, Closed(c, "tag"));
  }

  lemma TagStops(s: string, end: nat)
    requires LoopEnds(s, end)
    ensures NextIsNot(s, end, Digit) && NextIsNot(s, end, AnyOf("r"))
  {
  }

  lemma TailTakesTag(s: string, st: State, sep: string, tag: string, end: nat)
    requires IsSeparator(sep) && IsTag(tag) && Reads(s, st.pos, sep + tag, end) && LoopEnds(s, end)
    ensures Takes(Tail(), s, st, TagRead(st, st.pos + |sep|, end))
  {
    hide MatchAll, Takes, Reads, TagGroup, SubverPart, LoopEnds, IsTag, IgnoredRevision;
    ReadsWithin(s, st.pos, sep + tag, end);
    ReadsTwo(s, st.pos, sep, tag, end);
    var m := At(st, st.pos + |sep|);
    var e := TagRead(st, st.pos + |sep|, end);
    TagStops(s, end);
    TagGroupTakes(s, m, tag, end);
    var cls := AnyOf("-_.");
    if sep == "" {
      ClassFails(cls, s, st);
      OptSkips(Class(cls), s, st);
    } else {
      ReadsChar(s, st.pos, sep, m.pos, 0);
      ClassTakes(cls, s, st);
      AltTakesFirst(Class(cls), Empty, s, st, m);
    }
    SeqTakes(Opt(Class(cls)), TagGroup(), s, st, m, e);
    AltTakesFirst(TagPart(), SubverPart(), s, st, e);
    TailStops(s, e);
    StarIterates(Alt(TagPart(), SubverPart()), s, st, e, e);
    IgnoredRevisionSkipped(s, e);
    SeqTakes(TagLoop(), IgnoredRevision(), s, st, e, e);
  }

  // ---------- Main results ----------

  lemma DottedText(t: string)
    requires IsDotted(t)
    ensures t != "" && '-' !in t
  {
    var major, ms :| DottedOf(t, major, ms);
    MinorsHaveNoHyphen(ms);
  }

  lemma TagText(t: string)
    requires IsTag(t)
    ensures t != "" && IsLower(t[0]) && '-' !in t
    ensures t[0] == 'r' ==> |t| > 1 && t[1] == 'c'
  {
    var k: nat, number :| TagOf(t, k, number);
    forall i | 0 <= i < |t|
      ensures t[i] != '-'
    {
      assert i >= |NAMES[k]| ==> t[i] == number[i - |NAMES[k]|] && t[i] in number;
    }
  }

  // The text behind the version: separator and tag, or nothing, and then a final "-l"
  // that the loop does not read.
  predicate ReadableTail(sep: string, tag: string, subver: string) {
    && IsSeparator(sep) && (tag == "" ==> sep == "")
    && (subver != "" ==> IsSubver(subver))
  }

  lemma TailHasNoHyphenDigit(u: string, v: string, sep: string, tag: string, subver: string)
    requires IsDotted(v) && (tag != "" ==> IsTag(tag)) && ReadableTail(sep, tag, subver)
    ensures forall q :: q >= |u| ==> !HyphenDigit(u + (v + ((sep + tag) + Dashed(subver))), q)
  {
    DottedText(v);
    if tag != "" {
      TagText(tag);
    }
    var rest := (sep + tag) + Dashed(subver);
    forall q | q >= |u|
      ensures !HyphenDigit(u + (v + rest), q)
    {
      assert HyphenDigit(u + (v + rest), q) ==> HyphenDigit(v + rest, q - |u|);
      if rest != "" {
        HyphenDigitOfAppend(v, rest, q - |u|);
      }
      if subver != "" {
        HyphenDigitOfAppend(sep + tag, Dashed(subver), q - |u| - |v|);
      }
      if tag != "" {
        HyphenDigitOfAppend(sep, tag, q - |u| - |v|);
      }
    }
  }

  // Version and tag of a text, as the state the loop reaches.
  lemma TailOfParts(s: string, st: State, q: nat, sep: string, tag: string, end: nat) returns (e: State)
    requires IsSeparator(sep) && (tag == "" ==> sep == "") && (tag != "" ==> IsTag(tag))
    requires Reads(s, q, sep + tag, end) && LoopEnds(s, end)
    requires "tag" !in st.caps && "subver" !in st.caps
    ensures Takes(Tail(), s, VersionRead(st, q), e) && e.pos == end && "subver" !in e.caps
    ensures "ver" in e.caps && e.caps["ver"] == Span(st.pos, q)
    ensures if tag == "" then "tag" !in e.caps else "tag" in e.caps && e.caps["tag"] == Span(q + |sep|, end)
    ensures NextIsNot(s, q, Digit) && (q < |s| && s[q] == '.' ==> NextIsNot(s, q + 1, Digit))
  {
    hide MatchAll, Tail, IsTag, Takes, Reads;
    ReadsWithin(s, q, sep + tag, end);
    var read := VersionRead(st, q);
    if tag == "" {
      e := read;
      TailStops(s, e);
    } else {
      TagText(tag);
      e := TagRead(read, q + |sep|, end);
      TailTakesTag(s, read, sep, tag, end);
      ReadsChar(s, q, sep + tag, end, 0);
      ReadsChar(s, q, sep + tag, end, |sep|);
    }
  }

  lemma ReadsParts(u: string, v: string, sep: string, tag: string, subver: string)
    requires IsLead(u) || IsNamed(u)
    requires IsDotted(v) && (tag != "" ==> IsTag(tag)) && ReadableTail(sep, tag, subver)
    ensures ToPortage(u + (v + ((sep + tag) + Dashed(subver)))) == Ok(v + Dashed(tag))
  {
    hide *;
    var s := u + (v + ((sep + tag) + Dashed(subver)));
    TextLayout(u, v, sep + tag, Dashed(subver));
    SeparatorOfTail(sep, tag, subver);
    TailHasNoHyphenDigit(u, v, sep, tag, subver);
    var e := OneMatch(u, s, v, sep, tag, subver);
    PartsOfOneMatch(s, e);
    PartsRead(s, |u|, v, sep, tag, |u| + |v| + |sep + tag|, e);
  }

  lemma SeparatorOfTail(sep: string, tag: string, subver: string)
    requires ReadableTail(sep, tag, subver)
    ensures IsSeparator(sep) && (tag == "" ==> sep == "") && (subver != "" ==> IsSubver(subver))
  {
  }

  lemma OneMatch(u: string, s: string, v: string, sep: string, tag: string, subver: string) returns (e: State)
    requires (IsLead(u) || IsNamed(u)) && u <= s
    requires IsDotted(v) && (tag != "" ==> IsTag(tag))
    requires IsSeparator(sep) && (tag == "" ==> sep == "") && (subver != "" ==> IsSubver(subver))
    requires var q, end := |u| + |v|, |u| + |v| + |sep + tag|;
             end <= |s| && s[|u|..q] == v && s[q..end] == sep + tag && s[end..] == Dashed(subver)
    requires forall q :: q >= |u| ==> !HyphenDigit(s, q)
    ensures |FindAll(TagPattern(), s, 0)| == 1 && FindAll(TagPattern(), s, 0)[0].last == e
    ensures "ver" in e.caps && e.caps["ver"] == Span(|u|, |u| + |v|) && "subver" !in e.caps
    ensures var q := |u| + |v|;
            if tag == "" then "tag" !in e.caps else "tag" in e.caps && e.caps["tag"] == Span(q + |sep|, q + |sep + tag|)
  {
    hide MatchAll, TagPattern, Tail, FindAll, IsTag, Takes, Reads, PrintMinors, LoopEnds, HyphenDigit, In, IsLead,
      IsNamed;
    var major, ms :| DottedOf(v, major, ms);
    var q := |u| + |v|;
    var end := q + |sep + tag|;
    ReadsPart(s, |u|, v, q);
    ReadsPart(s, q, sep + tag, end);
    EndsBeforeSubver(s, end, subver);
    e := TailOfParts(s, FrontState(u), q, sep, tag, end);
    OneVersion(u, s, major, ms, q, e);
  }

  lemma TextLayout(u: string, v: string, t: string, rest: string)
    ensures var s, q := u + (v + (t + rest)), |u| + |v|;
            u <= s && q + |t| <= |s| && s[|u|..q] == v && s[q..q + |t|] == t && s[q + |t|..] == rest
  {
  }

  lemma PartsRead(s: string, p: nat, v: string, sep: string, tag: string, end: nat, e: State)
    requires p + |v| <= |s| && s[p..p + |v|] == v
    requires end == p + |v| + |sep + tag| <= |s| && s[p + |v|..end] == sep + tag
    requires "ver" in e.caps && e.caps["ver"] == Span(p, p + |v|) && "subver" !in e.caps
    requires if tag == "" then "tag" !in e.caps else "tag" in e.caps && e.caps["tag"] == Span(p + |v| + |sep|, end)
    ensures Joined(Parts(Captured(e, "ver", s), Captured(e, "tag", s), Captured(e, "subver", s))) == v + Dashed(tag)
  {
    assert s[p + |v| + |sep|..end] == s[p + |v|..end][|sep|..] == tag;
    assert Dashed(tag) + "" == Dashed(tag);
  }

  lemma ReadsPart(s: string, i: nat, t: string, j: nat)
    requires i <= j <= |s| && s[i..j] == t
    ensures Reads(s, i, t, j)
  {
  }

  lemma EndsBeforeSubver(s: string, end: nat, subver: string)
    requires end <= |s| && s[end..] == Dashed(subver) && (subver != "" ==> IsSubver(subver))
    ensures LoopEnds(s, end)
    ensures forall i :: end <= i < |s| ==> !IsDigit(s[i])
  {
    forall i | end <= i < |s|
      ensures !IsDigit(s[i])
    {
      assert s[i] == s[end..][i - end];
    }
    if subver != "" {
      assert s[end..][0] == s[end];
      assert s[end + 1..] == s[end..][1..];
    }
  }

  lemma PartsOfOneMatch(s: string, e: State)
    requires |FindAll(TagPattern(), s, 0)| == 1 && FindAll(TagPattern(), s, 0)[0].last == e
    ensures ToPortage(s) == Ok(Joined(Parts(Captured(e, "ver", s), Captured(e, "tag", s), Captured(e, "subver", s))))
  {
    hide FindAll, TagPattern;
    NoCaptures(s);
    var m := FindAll(TagPattern(), s, 0)[0];
    NextCapture([], m, s);
    assert FindAll(TagPattern(), s, 0) == [] + [m];
  }

  // VT, V-T, V_T and V.T all mean the version "V-T", also behind a package name and a
  // hyphen or behind text without digits, like "v"; what stands in front is dropped.
  lemma TagsNormalise(u: string, v: string, sep: string, tag: string)
    requires IsLead(u) || IsNamed(u)
    requires IsDotted(v) && IsSeparator(sep) && (if tag == "" then sep == "" else IsTag(tag))
    ensures ToPortage(u + (v + (sep + tag))) == Ok(v + if tag == "" then "" else "-" + tag)
  {
    hide ToPortage, IsTag, IsDotted, IsLead, IsNamed;
    ReadsParts(u, v, sep, tag, "");
    assert (sep + tag) + "" == sep + tag;
  }

  // A version can be read exactly from the texts with a digit.
  lemma AcceptedIff(t: string)
    ensures ToPortage(t).Ok? <==> exists i :: 0 <= i < |t| && IsDigit(t[i])
  {
    hide MatchAll, TagPattern, LastParts;
    if exists i :: 0 <= i < |t| && IsDigit(t[i]) {
      var i: nat :| i < |t| && IsDigit(t[i]);
      OneDigitMatches(t, i);
      FindFromFinds(TagPattern(), t, 0, i);
    } else {
      TagPatternFailsFrom(t, 0);
      NoMatchFrom(TagPattern(), t, 0);
    }
  }

  lemma OneDigitMatches(s: string, i: nat)
    requires i < |s| && IsDigit(s[i])
    ensures MatchAll(TagPattern(), s, Start(i)) != []
  {
    hide MatchAll, NamePrefix, TagPart, SubverPart, Text;
    var a := Opened(Start(i), "ver");
    var b := At(a, i + 1);
    var e := Closed(b, "ver");
    SelfInOpt(Seq(Text("-r"), Digits()), s, e);
    SelfInStar(Alt(TagPart(), SubverPart()), s, e);
    SeqReaches(TagLoop(), IgnoredRevision(), s, e, e, e);
    CloseMatches("ver", s, b);
    SeqReaches(Close("ver"), Tail(), s, b, e, e);
    SelfInStar(Seq(Lit('.'), Digits()), s, b);
    SeqReaches(Minors(), Seq(Close("ver"), Tail()), s, b, b, e);
    ClassTakes(Digit, s, a);
    SelfInStar(Class(Digit), s, b);
    SeqReaches(Class(Digit), AnyDigits(), s, a, b, b);
    SeqReaches(Digits(), Seq(Minors(), Seq(Close("ver"), Tail())), s, a, b, e);
    OpenMatches("ver", s, Start(i));
    SeqReaches(Open("ver"), Seq(Digits(), Seq(Minors(), Seq(Close("ver"), Tail()))), s, Start(i), a, e);
    SelfInOpt(NamePrefix(), s, Start(i));
    SeqReaches(Opt(NamePrefix()), VersionAndTags(), s, Start(i), Start(i), e);
  }

  // A final letter other than "p" is split off.
  lemma LetterIsSplitOff(u: string, v: string, letter: string)
    requires IsLead(u) || IsNamed(u)
    requires IsDotted(v) && IsSubver(letter)
    ensures ToPortage(u + (v + letter)) == Ok(v + ("-" + letter))
  {
    hide *;
    var s := u + (v + letter);
    var e := LetterMatch(u, v, letter, s);
    PartsOfOneMatch(s, e);
    TextLayout(u, v, letter, "");
    assert letter + "" == letter;
    SubverLength(letter);
    LetterCaptured(s, |u|, v, letter, e);
  }

  lemma LetterCaptured(s: string, p: nat, v: string, letter: string, e: State)
    requires p + |v| + |letter| == |s| && s[p..p + |v|] == v && s[p + |v|..] == letter && letter != ""
    requires "ver" in e.caps && e.caps["ver"] == Span(p, p + |v|) && "tag" !in e.caps
    requires "subver" in e.caps && e.caps["subver"] == Span(p + |v|, |s|)
    ensures Joined(Parts(Captured(e, "ver", s), Captured(e, "tag", s), Captured(e, "subver", s))) == v + ("-" + letter)
  {
    assert s[p + |v|..|s|] == letter;
    assert "" + ("-" + letter) == "-" + letter;
  }

  lemma LetterMatch(u: string, v: string, letter: string, s: string) returns (e: State)
    requires IsLead(u) || IsNamed(u)
    requires IsDotted(v) && IsSubver(letter) && s == u + (v + letter)
    ensures |FindAll(TagPattern(), s, 0)| == 1 && FindAll(TagPattern(), s, 0)[0].last == e
    ensures "ver" in e.caps && e.caps["ver"] == Span(|u|, |u| + |v|) && "tag" !in e.caps
    ensures "subver" in e.caps && e.caps["subver"] == Span(|u| + |v|, |s|)
  {
    hide MatchAll, TagPattern, Tail, FindAll, Takes, Reads, PrintMinors, IsLead, IsNamed;
    var major, ms :| DottedOf(v, major, ms);
    var q := |u| + |v|;
    TextLayout(u, v, letter, "");
    assert letter + "" == letter && v <= v + letter;
    assert s[q] == letter[0];
    ReadsPart(s, |u|, v, q);
    DottedText(v);
    forall i | i >= |u|
      ensures !HyphenDigit(s, i)
    {
      assert i < q ==> i < |s| && s[i] == v[i - |u|] && v[i - |u|] in v;
    }
    var st := VersionRead(FrontState(u), q);
    e := Closed(At(Opened(st, "subver"), |s|), "subver");
    TailTakesLetter(s, st, e);
    OneVersion(u, s, major, ms, q, e);
  }

  lemma TailTakesLetter(s: string, st: State, e: State)
    requires st.pos + 1 == |s| && IsLower(s[st.pos]) && s[st.pos] != 'p'
    requires e == Closed(At(Opened(st, "subver"), |s|), "subver")
    ensures Takes(Tail(), s, st, e)
  {
    hide MatchAll, TagGroup, IgnoredRevision, LoopEnds;
    var sep := Class(AnyOf("-_."));
    ClassFails(AnyOf("-_."), s, st);
    OptSkips(sep, s, st);
    SeqOfOne(Opt(sep), TagGroup(), s, st, st);
    TagGroupFails(s, st);
    var a := Opened(st, "subver");
    var b := At(a, |s|);
    OpenMatches("subver", s, st);
    ClassTakes(Lower, s, a);
    CloseMatches("subver", s, b);
    SeqTakes(Class(Lower), Close("subver"), s, a, b, e);
    SeqTakes(Open("subver"), Seq(Class(Lower), Close("subver")), s, st, a, e);
    AltTakesSecond(TagPart(), SubverPart(), s, st, e);
    assert LoopEnds(s, |s|) by { AtTheEnd(s); }
    TailStops(s, e);
    StarIterates(Alt(TagPart(), SubverPart()), s, st, e, e);
    IgnoredRevisionSkipped(s, e);
    SeqTakes(TagLoop(), IgnoredRevision(), s, st, e, e);
  }

  lemma AtTheEnd(s: string)
    ensures LoopEnds(s, |s|)
  {
  }

  // A result read again loses its letter, and nothing else.
  lemma ReadingAResultAgain(p: Parts)
    requires WellShaped(p)
    ensures ToPortage(Joined(p)) == Ok(p.ver + Dashed(p.tag))
  {
    hide ToPortage, IsTag, IsDotted;
    if p.tag != "" {
      TagText(p.tag);
    }
    var sep := if p.tag == "" then "" else "-";
    assert sep + p.tag == Dashed(p.tag);
    ReadsParts("", p.ver, sep, p.tag, p.subver);
    assert "" + Joined(p) == Joined(p);
  }

  // A final "-l".
  predicate EndsInLetter(t: string) {
    |t| >= 2 && t[|t| - 2] == '-' && IsSubver(t[|t| - 1..])
  }

  lemma LastOfTwo(front: string, t: string)
    requires t != "" && '-' !in t
    ensures |t| >= 2 ==> !EndsInLetter(front + t)
    ensures |t| == 1 ==> (EndsInLetter(front + t) <==> front != "" && front[|front| - 1] == '-' && IsSubver(t))
  {
    hide IsSubver;
    var r := front + t;
    if |t| >= 2 {
      assert r[|r| - 2] == t[|t| - 2] && t[|t| - 2] in t;
    } else {
      assert r[|r| - 1..] == t;
    }
  }

  lemma LetterShows(p: Parts)
    requires WellShaped(p)
    ensures EndsInLetter(Joined(p)) <==> p.subver != ""
  {
    hide IsDotted, IsTag, IsSubver, EndsInLetter;
    var r := Joined(p);
    DottedText(p.ver);
    if p.subver != "" {
      assert |p.subver| == 1 && '-' !in p.subver by { SubverLength(p.subver); }
      assert r == (p.ver + Dashed(p.tag) + "-") + p.subver;
      LastOfTwo(p.ver + Dashed(p.tag) + "-", p.subver);
    } else if p.tag != "" {
      TagText(p.tag);
      assert r == (p.ver + "-") + p.tag;
      LastOfTwo(p.ver + "-", p.tag);
      if |p.tag| == 1 {
        OneLetterTag(p.tag);
      }
    } else {
      assert r == "" + p.ver;
      LastOfTwo("", p.ver);
    }
  }

  lemma SubverLength(t: string)
    requires IsSubver(t)
    ensures |t| == 1 && '-' !in t
  {
  }

  // "p" is the only tag of one letter.
  lemma OneLetterTag(t: string)
    requires IsTag(t) && |t| == 1
    ensures !IsSubver(t)
  {
    var k: nat, number :| TagOf(t, k, number);
    assert t[0] == NAMES[k][0];
  }

  // Reading a result again changes nothing exactly when it carries no letter.
  lemma IdempotentIffNoLetter(t: string)
    requires ToPortage(t).Ok?
    ensures var r := ToPortage(t).value; ToPortage(r) == Ok(r) <==> !EndsInLetter(r)
  {
    hide FindAll, TagPattern, LastParts, ToPortage, WellShaped, EndsInLetter;
    OutputShape(t);
    var p := LastParts(FindAll(TagPattern(), t, 0), t);
    ReadingAResultAgain(p);
    LetterShows(p);
    var kept := p.ver + Dashed(p.tag);
    assert Joined(p) == kept + Dashed(p.subver);
    if p.subver == "" {
      assert kept + "" == kept;
    } else {
      assert |Joined(p)| > |kept|;
    }
  }

  // The result never starts with a "v", so stripping one is the identity.
  lemma ResultStartsWithDigit(t: string)
    requires ToPortage(t).Ok?
    ensures var r := ToPortage(t).value; r != "" && IsDigit(r[0])
  {
    hide FindAll, TagPattern, LastParts, ToPortage;
    OutputShape(t);
    var p := LastParts(FindAll(TagPattern(), t, 0), t);
    var major, ms :| DottedOf(p.ver, major, ms);
    assert major[0] in major;
  }
}
