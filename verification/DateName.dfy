// The date in the stem of a live-commit ebuild: [\w+.-]+?(\d{8})[\w+.-]*? over the
// whole stem.
module DateName {
  import opened Wrappers
  import opened Matching
  import opened Grammar
  import opened EbuildNameTheorems
  import opened Decimal

  function Times(r: Regex, n: nat): Regex {
    if n == 0 then Empty else Seq(r, Times(r, n - 1))
  }

  function RestOfStem(): Regex {
    Star(Class(FileChar), false)
  }

  function DateGroup(): Regex {
    Seq(Open("date"), Seq(Times(Class(Digit), 8), Seq(Close("date"), RestOfStem())))
  }

  function DatePattern(): Regex {
    Seq(Class(FileChar), Seq(RestOfStem(), DateGroup()))
  }

  function DateOf(stem: string): Option<nat> {
    match FullMatch(DatePattern(), stem)
    case None => None
    case Some(e) =>
      if "date" in e.caps && AllDigits(Slice(stem, e.caps["date"]))
      then Some(Num(Slice(stem, e.caps["date"]))) else None
  }

  // ---------- What the pattern finds ----------

  predicate Window(s: string, p: nat) {
    p + 8 <= |s| && AllDigits(s[p..p + 8])
  }

  predicate FileText(s: string) {
    forall c <- s :: In(c, FileChar)
  }

  // The first eight digits in a row after the first character.
  ghost predicate DateAt(s: string, p: nat) {
    1 <= p && Window(s, p) && forall q :: 1 <= q < p ==> !Window(s, q)
  }

  lemma {:induction false} FirstAtAppend(xs: seq<State>, ys: seq<State>, end: nat)
    ensures FirstAt(xs + ys, end) == if FirstAt(xs, end).Some? then FirstAt(xs, end) else FirstAt(ys, end)
  {
    if xs == [] {
      assert xs + ys == ys;
    } else {
      assert (xs + ys)[1..] == xs[1..] + ys;
      FirstAtAppend(xs[1..], ys, end);
    }
  }

  lemma FirstAtOne(st: State, end: nat)
    ensures FirstAt([st], end) == if st.pos == end then Some(st) else None
  {
    assert [st][1..] == [];
  }

  lemma {:induction false} RestReachesEnd(s: string, st: State)
    requires st.pos <= |s|
    ensures FirstAt(MatchAll(RestOfStem(), s, st), |s|) ==
            if FileText(s[st.pos..]) then Some(At(st, |s|)) else None
    decreases |s| - st.pos
  {
    hide MatchAll, In;
    LazyLoopStep(FileChar, s, st);
    FirstAtOne(st, |s|);
    if st.pos < |s| {
      assert s[st.pos..] == [s[st.pos]] + s[st.pos + 1..];
      if In(s[st.pos], FileChar) {
        RestReachesEnd(s, At(st, st.pos + 1));
        FirstAtAppend([st], MatchAll(RestOfStem(), s, At(st, st.pos + 1)), |s|);
      } else {
        assert s[st.pos] in s[st.pos..];
      }
    }
  }

  lemma {:induction false} TimesMatches(n: nat, s: string, st: State)
    requires st.pos <= |s|
    ensures MatchAll(Times(Class(Digit), n), s, st) ==
            if st.pos + n <= |s| && AllDigits(s[st.pos..st.pos + n]) then [At(st, st.pos + n)] else []
  {
    hide MatchAll;
    if n == 0 {
      EmptyMatches(s, st);
    } else if st.pos < |s| && IsDigit(s[st.pos]) {
      ClassTakes(Digit, s, st);
      SeqOfOne(Class(Digit), Times(Class(Digit), n - 1), s, st, At(st, st.pos + 1));
      TimesMatches(n - 1, s, At(st, st.pos + 1));
      if st.pos + n <= |s| {
        assert s[st.pos..st.pos + n] == [s[st.pos]] + s[st.pos + 1..st.pos + n];
      }
    } else {
      ClassFails(Digit, s, st);
      SeqFailsAtOnce(Class(Digit), Times(Class(Digit), n - 1), s, st);
      if st.pos + n <= |s| {
        assert s[st.pos] in s[st.pos..st.pos + n];
      }
    }
  }

  function DateRead(st: State): State {
    Closed(At(Opened(st, "date"), st.pos + 8), "date")
  }

  lemma DateGroupReachesEnd(s: string, st: State)
    requires st.pos <= |s|
    ensures FirstAt(MatchAll(DateGroup(), s, st), |s|) ==
            if Window(s, st.pos) && FileText(s[st.pos + 8..]) then Some(At(DateRead(st), |s|)) else None
  {
    hide MatchAll, RestOfStem, FileText;
    var k := Seq(Close("date"), RestOfStem());
    var a := Opened(st, "date");
    OpenMatches("date", s, st);
    SeqOfOne(Open("date"), Seq(Times(Class(Digit), 8), k), s, st, a);
    TimesMatches(8, s, a);
    if Window(s, st.pos) {
      var b := At(a, st.pos + 8);
      SeqOfOne(Times(Class(Digit), 8), k, s, a, b);
      CloseMatches("date", s, b);
      SeqOfOne(Close("date"), RestOfStem(), s, b, DateRead(st));
      RestReachesEnd(s, DateRead(st));
    } else {
      SeqFailsAtOnce(Times(Class(Digit), 8), k, s, a);
    }
  }

  // From position i on, the lazy prefix stops at the first window.
  lemma {:induction false} DateSearch(s: string, st: State, p: nat)
    requires st.pos <= p && FileText(s) && Window(s, p)
    requires forall q :: st.pos <= q < p ==> !Window(s, q)
    ensures FirstAt(MatchAll(Seq(RestOfStem(), DateGroup()), s, st), |s|) == Some(At(DateRead(At(st, p)), |s|))
    decreases p - st.pos
  {
    hide MatchAll, DateGroup, In, Window;
    assert p < |s| by { WindowInText(s, p); }
    LazyStep(FileChar, DateGroup(), s, st);
    DateGroupReachesEnd(s, st);
    assert s[st.pos] in s;
    var next := MatchAll(Seq(RestOfStem(), DateGroup()), s, At(st, st.pos + 1));
    FirstAtAppend(MatchAll(DateGroup(), s, st), next, |s|);
    if st.pos < p {
      DateSearch(s, At(st, st.pos + 1), p);
    } else {
      SuffixIsFileText(s, p);
    }
  }

  lemma WindowInText(s: string, p: nat)
    requires Window(s, p)
    ensures p + 8 <= |s|
  {
  }

  lemma SuffixIsFileText(s: string, p: nat)
    requires FileText(s) && Window(s, p)
    ensures FileText(s[p + 8..])
  {
    hide In;
    assert forall c <- s[p + 8..] :: c in s;
  }

  lemma {:induction false} DateSearchNeedsWindow(s: string, st: State) returns (p: nat)
    requires st.pos <= |s|
    requires FirstAt(MatchAll(Seq(RestOfStem(), DateGroup()), s, st), |s|).Some?
    ensures st.pos <= p && Window(s, p) && FileText(s[st.pos..])
    decreases |s| - st.pos
  {
    hide MatchAll, DateGroup, In;
    p := st.pos;
    LazyStep(FileChar, DateGroup(), s, st);
    DateGroupReachesEnd(s, st);
    var here := MatchAll(DateGroup(), s, st);
    if FirstAt(here, |s|).Some? {
      DigitsAreFileChars(s[p..p + 8]);
      assert s[p..] == s[p..p + 8] + s[p + 8..];
    } else if st.pos < |s| && In(s[st.pos], FileChar) {
      var next := At(st, st.pos + 1);
      FirstAtAppend(here, MatchAll(Seq(RestOfStem(), DateGroup()), s, next), |s|);
      p := DateSearchNeedsWindow(s, next);
      assert s[st.pos..] == [s[st.pos]] + s[st.pos + 1..];
    } else {
      FirstAtAppend(here, [], |s|);
    }
  }

  lemma DigitsAreFileChars(t: string)
    requires AllDigits(t)
    ensures FileText(t)
  {
  }

  // The pattern matches exactly the stems of file characters that hold a date, and
  // captures the first one.
  lemma DatePatternFindsFirstWindow(s: string, p: nat)
    requires FileText(s) && DateAt(s, p)
    ensures FullMatch(DatePattern(), s) == Some(At(DateRead(Start(p)), |s|))
    ensures DateOf(s) == Some(Num(s[p..p + 8]))
  {
    hide MatchAll, DateGroup, RestOfStem, In;
    var k := Seq(RestOfStem(), DateGroup());
    assert s[0] in s;
    ClassTakes(FileChar, s, Start(0));
    SeqOfOne(Class(FileChar), k, s, Start(0), Start(1));
    DateSearch(s, Start(1), p);
  }

  lemma DateOfNeedsWindow(s: string) returns (p: nat)
    requires DateOf(s).Some?
    ensures FileText(s) && DateAt(s, p)
  {
    hide MatchAll, DateGroup, RestOfStem, In;
    p := 0;
    var k := Seq(RestOfStem(), DateGroup());
    if s != "" && In(s[0], FileChar) {
      ClassTakes(FileChar, s, Start(0));
      SeqOfOne(Class(FileChar), k, s, Start(0), Start(1));
      var w := DateSearchNeedsWindow(s, Start(1));
      p := FirstWindow(s, w);
      assert s == [s[0]] + s[1..];
    } else {
      assert NextIsNot(s, 0, FileChar);
      ClassFails(FileChar, s, Start(0));
      SeqFailsAtOnce(Class(FileChar), k, s, Start(0));
    }
  }

  lemma FirstWindow(s: string, w: nat) returns (p: nat)
    requires 1 <= w && Window(s, w)
    ensures p <= w && DateAt(s, p)
  {
    hide Window;
    p := 1;
    while !Window(s, p)
      invariant 1 <= p <= w
      invariant forall q :: 1 <= q < p ==> !Window(s, q)
      decreases w - p
    {
      p := p + 1;
    }
  }

  // A stem holds a date exactly when it consists of file name characters and has eight
  // digits in a row behind its first character.
  lemma HoldsDateIff(s: string)
    ensures DateOf(s).Some? <==> FileText(s) && exists p: nat :: 1 <= p && Window(s, p)
  {
    hide DateOf, FileText, Window;
    if DateOf(s).Some? {
      var p := DateOfNeedsWindow(s);
      assert 1 <= p && Window(s, p);
    } else if FileText(s) && exists p: nat :: 1 <= p && Window(s, p) {
      var w: nat :| 1 <= w && Window(s, w);
      var p := FirstWindow(s, w);
      DatePatternFindsFirstWindow(s, p);
    }
  }
}
