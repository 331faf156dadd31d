// Which names parse back to their parts, and which are flagged as invalid.
module EbuildNameTheorems {
  import opened Wrappers
  import opened Matching
  import opened Grammar
  import opened EbuildName

  // ---------- Names ----------

  predicate NameText(pn: string) {
    pn != "" && IsWord(pn[0]) && forall c <- pn :: In(c, NameChar)
  }

  predicate HyphenDigit(s: string, q: int) {
    0 <= q && q + 1 < |s| && s[q] == '-' && IsDigit(s[q + 1])
  }

  ghost predicate NoHyphenDigit(s: string) {
    forall q :: !HyphenDigit(s, q)
  }

  predicate ValidRevision(rev: Option<string>) {
    rev.Some? ==> IsNumber(rev.value)
  }

  function RevisionText(rev: Option<string>): string {
    match rev case None => "" case Some(r) => "-r" + r
  }

  function RevisionNumber(rev: Option<string>): string {
    match rev case None => "" case Some(r) => r
  }

  // PN-VER[-rREV]
  function Stem(pn: string, v: Version, rev: Option<string>): string
    requires ValidVersion(v)
  {
    StemWith(pn, v, RevisionText(rev))
  }

  function StemWith(pn: string, v: Version, tail: string): string
    requires ValidVersion(v)
  {
    pn + ("-" + (PrintVersion(v) + tail))
  }

  lemma {:induction false} MinorsHaveNoHyphen(ms: seq<string>)
    requires AreNumbers(ms)
    ensures '-' !in PrintMinors(ms)
  {
    if ms != [] {
      assert IsNumber(ms[0]);
      MinorsHaveNoHyphen(ms[1..]);
    }
  }

  lemma {:induction false} SuffixesAreFreeOf(xs: seq<Suffix>, c: char)
    requires ValidSuffixes(xs) && (c == '-' || c == '.')
    ensures c !in PrintSuffixes(xs)
  {
    if xs != [] {
      hide PrintSuffixes;
      var x, rest := xs[0], xs[1..];
      assert x in xs;
      NamesAreFreeOf(x.kind, c);
      assert c !in x.number;
      SuffixesAreFreeOf(rest, c);
      FirstSuffix(xs);
    }
  }

  lemma NamesAreFreeOf(k: nat, c: char)
    requires k < |NAMES| && (c == '-' || c == '.')
    ensures c !in NAMES[k]
  {
  }

  lemma VersionText(v: Version)
    requires ValidVersion(v)
    ensures '-' !in PrintVersion(v)
    ensures PrintVersion(v) != "" && IsDigit(PrintVersion(v)[0])
  {
    MinorsHaveNoHyphen(v.minors);
    SuffixesAreFreeOf(v.suffixes, '-');
    assert v.major[0] in v.major;
  }

  lemma HyphenDigitOfAppend(a: string, b: string, q: int)
    requires b != "" && !IsDigit(b[0])
    ensures HyphenDigit(a + b, q) <==> HyphenDigit(a, q) || HyphenDigit(b, q - |a|)
  {
  }

  // In PN-VER and a tail, a hyphen stands before a digit only where the version
  // begins, inside PN or inside the tail.
  lemma HyphenDigitsOfStem(pn: string, v: Version, tail: string, q: int)
    requires ValidVersion(v) && (tail != "" ==> tail[0] == '-')
    ensures HyphenDigit(StemWith(pn, v, tail), q) <==>
            HyphenDigit(pn, q) || q == |pn| || HyphenDigit(tail, q - |pn| - 1 - |PrintVersion(v)|)
  {
    hide PrintVersion;
    var p := PrintVersion(v);
    VersionText(v);
    var rest := "-" + (p + tail);
    HyphenDigitOfAppend(pn, rest, q);
    assert rest == ("-" + p) + tail;
    HyphenInVersionOnly(p, q - |pn|);
    if tail != "" {
      HyphenDigitOfAppend("-" + p, tail, q - |pn|);
    } else {
      assert rest == "-" + p;
    }
  }

  lemma HyphenInVersionOnly(p: string, q: int)
    requires '-' !in p && p != "" && IsDigit(p[0])
    ensures HyphenDigit("-" + p, q) <==> q == 0
  {
  }

  // ---------- Where the pattern cannot match ----------

  function Opened(st: State, n: string): State {
    st.(starts := st.starts[n := st.pos])
  }

  function Closed(st: State, n: string): State
    requires n in st.starts
  {
    st.(caps := st.caps[n := Span(st.starts[n], st.pos)])
  }

  lemma OpenMatches(n: string, s: string, st: State)
    requires st.pos <= |s|
    ensures MatchAll(Open(n), s, st) == [Opened(st, n)]
    ensures Takes(Open(n), s, st, Opened(st, n))
  {
  }

  lemma CloseMatches(n: string, s: string, st: State)
    requires st.pos <= |s|
    ensures MatchAll(Close(n), s, st) == [if n in st.starts then Closed(st, n) else st]
    ensures n in st.starts ==> Takes(Close(n), s, st, Closed(st, n))
  {
  }

  lemma VersionFails(s: string, st: State)
    requires NextIsNot(s, st.pos, Digit)
    ensures Fails(VersionPattern(), s, st)
  {
    hide MatchAll;
    DigitsFail(s, st);
    SeqFailsAtOnce(Digits(), Seq(Minors(), Seq(Opt(Class(Lower)), SuffixLoop())), s, st);
  }

  // A hyphen, a group and a version, but no hyphen-digit at this place.
  lemma HyphenVersionFails(s: string, st: State, k: Regex)
    requires st.pos <= |s| && !HyphenDigit(s, st.pos)
    ensures Fails(Seq(Lit('-'), Seq(VersionPattern(), k)), s, st)
    ensures Fails(Seq(Lit('-'), Seq(Open("ver"), Seq(VersionPattern(), k))), s, st)
  {
    hide MatchAll, VersionPattern;
    var a, b := Seq(VersionPattern(), k), Seq(Open("ver"), Seq(VersionPattern(), k));
    if st.pos < |s| && s[st.pos] == '-' {
      var next := At(st, st.pos + 1);
      LitTakes('-', s, st);
      SeqOfOne(Lit('-'), a, s, st, next);
      SeqOfOne(Lit('-'), b, s, st, next);
      VersionFails(s, next);
      SeqFailsAtOnce(VersionPattern(), k, s, next);
      OpenMatches("ver", s, next);
      SeqOfOne(Open("ver"), a, s, next, Opened(next, "ver"));
      VersionFails(s, Opened(next, "ver"));
      SeqFailsAtOnce(VersionPattern(), k, s, Opened(next, "ver"));
    } else {
      LitFails('-', s, st);
      SeqFailsAtOnce(Lit('-'), a, s, st);
      SeqFailsAtOnce(Lit('-'), b, s, st);
    }
  }

  lemma AfterNameFails(s: string, st: State)
    requires st.pos <= |s| && !HyphenDigit(s, st.pos)
    ensures Fails(AfterName(), s, st)
  {
    hide MatchAll, VersionPattern, RevisionPart;
    CloseMatches("pn", s, st);
    var m := if "pn" in st.starts then Closed(st, "pn") else st;
    var k := Seq(Close("ver"), RevisionPart());
    SeqOfOne(Close("pn"), Seq(Lit('-'), Seq(Open("ver"), Seq(VersionPattern(), k))), s, st, m);
    HyphenVersionFails(s, m, k);
  }

  lemma NameEndFails(s: string, st: State)
    requires st.pos <= |s| && !HyphenDigit(s, st.pos)
    ensures Fails(NameEnd(), s, st)
  {
    hide MatchAll, VersionPattern, AfterName;
    var k := Seq(Opt(Seq(Text("-r"), Digits())), Close("pn_inval"));
    OpenMatches("pn_inval", s, st);
    SeqOfOne(Open("pn_inval"), Seq(Lit('-'), Seq(VersionPattern(), k)), s, st, Opened(st, "pn_inval"));
    HyphenVersionFails(s, Opened(st, "pn_inval"), k);
    OptSkips(InvalidPart(), s, st);
    SeqOfOne(Opt(InvalidPart()), AfterName(), s, st, st);
    AfterNameFails(s, st);
  }

  lemma PatternFailsFrom(s: string, from: nat)
    requires forall q :: from <= q ==> !HyphenDigit(s, q)
    ensures FailsFrom(Pattern(), s, from)
  {
    hide MatchAll, NameEnd;
    forall st: State | from <= st.pos <= |s|
      ensures Fails(NameEnd(), s, st)
    {
      NameEndFails(s, st);
    }
    var lazy := Seq(Star(Class(NameChar), false), NameEnd());
    SeqFailsFrom(Star(Class(NameChar), false), NameEnd(), s, from);
    SeqFailsFrom(Class(Word), lazy, s, from);
    SeqFailsFrom(Open("pn"), Seq(Class(Word), lazy), s, from);
  }

  // ---------- Where it matches ----------

  // The lazy name runs up to the first place where the rest of the pattern fits.
  lemma {:induction false} NameRunsTo(s: string, st: State, p: nat, e: State)
    requires st.pos <= p <= |s|
    requires forall q :: st.pos <= q < p ==> In(s[q], NameChar) && !HyphenDigit(s, q)
    requires Takes(NameEnd(), s, At(st, p), e)
    ensures Takes(Seq(Star(Class(NameChar), false), NameEnd()), s, st, e)
    decreases p - st.pos
  {
    hide MatchAll, NameEnd, In;
    LazyStep(NameChar, NameEnd(), s, st);
    if st.pos < p {
      NameEndFails(s, st);
      NameRunsTo(s, At(st, st.pos + 1), p, e);
    }
  }

  // With no further hyphen-digit behind it, a version is not mistaken for an invalid
  // part of the name.
  lemma NothingInvalid(s: string, st: State)
    requires st.pos <= |s|
    requires forall q :: st.pos < q ==> !HyphenDigit(s, q)
    ensures MatchAll(NameEnd(), s, st) == MatchAll(AfterName(), s, st)
  {
    hide MatchAll, AfterName, InvalidPart;
    var inv := MatchAll(InvalidPart(), s, st);
    forall x <- inv
      ensures MatchAll(AfterName(), s, x) == []
    {
      InvalidPartAdvances(s, st, x);
      AfterNameFails(s, x);
    }
    AltUnfolds(InvalidPart(), Empty, s, st);
    EmptyMatches(s, st);
    SeqUnfolds(Opt(InvalidPart()), AfterName(), s, st);
    EachEmpty(AfterName(), s, inv);
    EachOne(AfterName(), s, st);
    EachAppend(AfterName(), s, inv, [st]);
  }

  lemma InvalidPartAdvances(s: string, st: State, x: State)
    requires st.pos <= |s| && x in MatchAll(InvalidPart(), s, st)
    ensures st.pos < x.pos <= |s|
  {
    hide MatchAll, VersionPattern;
    var k := Seq(VersionPattern(), Seq(Opt(Seq(Text("-r"), Digits())), Close("pn_inval")));
    var a := Opened(st, "pn_inval");
    OpenMatches("pn_inval", s, st);
    SeqOfOne(Open("pn_inval"), Seq(Lit('-'), k), s, st, a);
    if a.pos < |s| && s[a.pos] == '-' {
      LitTakes('-', s, a);
      SeqOfOne(Lit('-'), k, s, a, At(a, a.pos + 1));
      ResultAfterStart(k, s, At(a, a.pos + 1), x);
    } else {
      LitFails('-', s, a);
      SeqFailsAtOnce(Lit('-'), k, s, a);
    }
  }

  // The states around the version group, for a name that ends at st.
  function BeforeVersion(st: State): State
    requires "pn" in st.starts
  {
    Opened(At(Closed(st, "pn"), st.pos + 1), "ver")
  }

  function AfterVersion(st: State, q: nat): State
    requires "pn" in st.starts
  {
    Closed(At(BeforeVersion(st), q), "ver")
  }

  lemma AfterNameTakes(s: string, st: State, v: Version, q: nat, e: State)
    requires ValidVersion(v) && "pn" in st.starts
    requires st.pos < |s| && s[st.pos] == '-'
    requires Reads(s, st.pos + 1, PrintVersion(v), q) && Stops(s, q)
    requires Takes(RevisionPart(), s, AfterVersion(st, q), e)
    ensures Takes(AfterName(), s, st, e)
  {
    hide MatchAll, VersionPattern, RevisionPart, Takes, PrintVersion;
    ReadsWithin(s, st.pos + 1, PrintVersion(v), q);
    var a := Closed(st, "pn");
    var b := At(a, st.pos + 1);
    var c := BeforeVersion(st);
    var k := Seq(Close("ver"), RevisionPart());
    CloseMatches("ver", s, At(c, q));
    SeqTakes(Close("ver"), RevisionPart(), s, At(c, q), AfterVersion(st, q), e);
    VersionTakes(v, s, c, q);
    SeqTakes(VersionPattern(), k, s, c, At(c, q), e);
    OpenMatches("ver", s, b);
    SeqTakes(Open("ver"), Seq(VersionPattern(), k), s, b, c, e);
    LitTakes('-', s, a);
    SeqTakes(Lit('-'), Seq(Open("ver"), Seq(VersionPattern(), k)), s, a, b, e);
    CloseMatches("pn", s, st);
    SeqTakes(Close("pn"), Seq(Lit('-'), Seq(Open("ver"), Seq(VersionPattern(), k))), s, st, a, e);
  }

  lemma PatternTakes(s: string, i: nat, p: nat, e: State)
    requires i < p <= |s| && IsWord(s[i])
    requires forall q :: i < q < p ==> In(s[q], NameChar) && !HyphenDigit(s, q)
    requires Takes(NameEnd(), s, State(p, map["pn" := i], map[]), e)
    ensures Takes(Pattern(), s, Start(i), e)
  {
    hide MatchAll, NameEnd, Takes;
    var a := Opened(Start(i), "pn");
    var b := At(a, i + 1);
    assert a == State(i, map["pn" := i], map[]);
    NameRunsTo(s, b, p, e);
    var lazy := Seq(Star(Class(NameChar), false), NameEnd());
    ClassTakes(Word, s, a);
    SeqTakes(Class(Word), lazy, s, a, b, e);
    OpenMatches("pn", s, Start(i));
    SeqTakes(Open("pn"), Seq(Class(Word), lazy), s, Start(i), a, e);
  }

  lemma OnlyMatch(s: string, e: State)
    requires e.pos <= |s| && Takes(Pattern(), s, Start(0), e)
    requires forall q :: e.pos <= q ==> !HyphenDigit(s, q)
    ensures 0 < e.pos ==> FindAll(Pattern(), s, 0) == [Match(0, e)]
  {
    hide MatchAll, Pattern;
    PatternFailsFrom(s, e.pos);
    NoMatchFrom(Pattern(), s, e.pos);
    assert FindFrom(Pattern(), s, 0) == Some(Match(0, e));
  }

  // ---------- Main results ----------

  // How a stem with one hyphen-digit of its own is read, whatever follows the
  // version.
  lemma StemWithTakes(pn: string, v: Version, tail: string, e: State)
    requires NameText(pn) && NoHyphenDigit(pn) && ValidVersion(v)
    requires tail != "" ==> tail[0] == '-'
    requires NoHyphenDigit(tail)
    requires var q := |pn| + 1 + |PrintVersion(v)|;
             Takes(RevisionPart(), StemWith(pn, v, tail), AfterVersion(State(|pn|, map["pn" := 0], map[]), q), e)
             && q <= e.pos <= |StemWith(pn, v, tail)|
    ensures FindAll(Pattern(), StemWith(pn, v, tail), 0) == [Match(0, e)]
  {
    hide MatchAll, PrintVersion, AfterName, NameEnd, Pattern, RevisionPart, In, Takes;
    var s := StemWith(pn, v, tail);
    var text := PrintVersion(v);
    var p, q := |pn|, |pn| + 1 + |text|;
    var st := State(p, map["pn" := 0], map[]);
    forall i | i != p
      ensures !HyphenDigit(s, i)
    {
      HyphenDigitsOfStem(pn, v, tail, i);
    }
    assert s[p + 1..q] == text;
    AfterNameTakes(s, st, v, q, e);
    NothingInvalid(s, st);
    assert Takes(NameEnd(), s, st, e) by { SameResultsTake(NameEnd(), AfterName(), s, st, e); }
    forall i | 1 <= i < p
      ensures In(s[i], NameChar) && !HyphenDigit(s, i)
    {
      assert s[i] == pn[i] && pn[i] in pn;
    }
    PatternTakes(s, 0, p, e);
    OnlyMatch(s, e);
  }

  lemma SameResultsTake(a: Regex, b: Regex, s: string, st: State, e: State)
    requires st.pos <= |s| && MatchAll(a, s, st) == MatchAll(b, s, st)
    requires Takes(b, s, st, e)
    ensures Takes(a, s, st, e)
  {
    hide MatchAll;
  }

  lemma RevisionTakes(r: string, s: string, st: State)
    requires IsNumber(r) && Reads(s, st.pos, "-r" + r, |s|)
    ensures Takes(RevisionPart(), s, st, Closed(At(Opened(At(st, st.pos + 2), "rev"), |s|), "rev"))
  {
    hide MatchAll, Takes, Reads, Text;
    ReadsWithin(s, st.pos, "-r" + r, |s|);
    ReadsTwo(s, st.pos, "-r", r, |s|);
    var a := At(st, st.pos + 2);
    var b := Opened(a, "rev");
    var c := At(b, |s|);
    var e := Closed(c, "rev");
    var k := Seq(Digits(), Close("rev"));
    TextTakes("-r", s, st);
    OpenMatches("rev", s, a);
    DigitsTake(s, b, r, |s|);
    CloseMatches("rev", s, c);
    SeqTakes(Digits(), Close("rev"), s, b, c, e);
    SeqTakes(Open("rev"), k, s, a, b, e);
    SeqTakes(Text("-r"), Seq(Open("rev"), k), s, st, a, e);
    AltTakesFirst(Seq(Text("-r"), Seq(Open("rev"), k)), Empty, s, st, e);
  }

  lemma TextTakes(t: string, s: string, st: State)
    requires Reads(s, st.pos, t, st.pos + |t|)
    ensures Takes(Text(t), s, st, At(st, st.pos + |t|))
  {
    hide MatchAll;
    TextMatches(t, s, st);
  }

  // No "-r" and a digit here.
  predicate NoRevisionAt(s: string, p: nat) {
    p + 2 < |s| && s[p] == '-' && s[p + 1] == 'r' ==> !IsDigit(s[p + 2])
  }

  lemma RevisionSkipped(s: string, st: State)
    requires st.pos <= |s| && NoRevisionAt(s, st.pos)
    ensures Takes(RevisionPart(), s, st, st)
  {
    hide MatchAll, Text;
    var k := Seq(Open("rev"), Seq(Digits(), Close("rev")));
    TextMatches("-r", s, st);
    if Reads(s, st.pos, "-r", st.pos + 2) {
      ReadsChar(s, st.pos, "-r", st.pos + 2, 0);
      ReadsChar(s, st.pos, "-r", st.pos + 2, 1);
      var a := At(st, st.pos + 2);
      SeqOfOne(Text("-r"), k, s, st, a);
      OpenMatches("rev", s, a);
      SeqOfOne(Open("rev"), Seq(Digits(), Close("rev")), s, a, Opened(a, "rev"));
      DigitsFail(s, Opened(a, "rev"));
      SeqFailsAtOnce(Digits(), Close("rev"), s, Opened(a, "rev"));
    } else {
      SeqFailsAtOnce(Text("-r"), k, s, st);
    }
    OptSkips(Seq(Text("-r"), k), s, st);
  }

  lemma GroupsOfOneMatch(s: string, e: State)
    requires FindAll(Pattern(), s, 0) == [Match(0, e)]
    ensures ParseStem(s) == Some(ParsedStem(Captured(e, "pn", s), Captured(e, "pn_inval", s),
                                            Captured(e, "ver", s), Captured(e, "rev", s)))
  {
    hide FindAll, Pattern;
    NoCaptures(s);
    NextCapture([], Match(0, e), s);
    assert [] + [Match(0, e)] == [Match(0, e)];
  }

  function Captured(e: State, group: string, s: string): string {
    if group in e.caps then Slice(s, e.caps[group]) else ""
  }

  // Where name and version stand in the stem.
  lemma StemLayout(pn: string, v: Version, tail: string)
    requires ValidVersion(v)
    ensures var s, q := StemWith(pn, v, tail), |pn| + 1 + |PrintVersion(v)|;
            q + |tail| == |s| && s[0..|pn|] == pn && s[|pn| + 1..q] == PrintVersion(v) && s[q..] == tail
  {
    hide PrintVersion;
  }

  // Parsing undoes printing.
  lemma ParseUndoesPrint(pn: string, v: Version, rev: Option<string>)
    requires NameText(pn) && NoHyphenDigit(pn) && ValidVersion(v) && ValidRevision(rev)
    ensures ParseStem(Stem(pn, v, rev)) ==
            Some(ParsedStem(pn, "", PrintVersion(v), RevisionNumber(rev)))
  {
    match rev {
      case None => ParseDropsOtherTail(pn, v, "");
      case Some(r) => ParseReadsRevision(pn, v, r);
    }
  }

  lemma ParseReadsRevision(pn: string, v: Version, r: string)
    requires NameText(pn) && NoHyphenDigit(pn) && ValidVersion(v) && IsNumber(r)
    ensures ParseStem(StemWith(pn, v, "-r" + r)) == Some(ParsedStem(pn, "", PrintVersion(v), r))
  {
    hide MatchAll, PrintVersion, Pattern, RevisionPart, FindAll, Takes, StemWith, ParseStem;
    var s := StemWith(pn, v, "-r" + r);
    var q := |pn| + 1 + |PrintVersion(v)|;
    var st := AfterVersion(State(|pn|, map["pn" := 0], map[]), q);
    StemLayout(pn, v, "-r" + r);
    RevisionTakes(r, s, st);
    assert s[q + 2..] == s[q..][2..] == r;
    RevisionHasNoHyphenDigit(r);
    var e := Closed(At(Opened(At(st, q + 2), "rev"), |s|), "rev");
    StemWithTakes(pn, v, "-r" + r, e);
    GroupsOfOneMatch(s, e);
  }

  // A version followed by text that is neither a revision nor another version: the
  // text, and any revision behind it, is lost.
  lemma ParseDropsOtherTail(pn: string, v: Version, tail: string)
    requires NameText(pn) && NoHyphenDigit(pn) && ValidVersion(v)
    requires (tail != "" ==> tail[0] == '-') && NoHyphenDigit(tail) && NoRevisionAt(tail, 0)
    ensures ParseStem(StemWith(pn, v, tail)) == Some(ParsedStem(pn, "", PrintVersion(v), ""))
  {
    hide MatchAll, PrintVersion, Pattern, RevisionPart, FindAll, Takes, StemWith, ParseStem;
    var s := StemWith(pn, v, tail);
    var q := |pn| + 1 + |PrintVersion(v)|;
    var st := AfterVersion(State(|pn|, map["pn" := 0], map[]), q);
    StemLayout(pn, v, tail);
    RevisionShifted(s, q);
    RevisionSkipped(s, st);
    StemWithTakes(pn, v, tail, st);
    GroupsOfOneMatch(s, st);
  }

  lemma RevisionHasNoHyphenDigit(r: string)
    requires AllDigits(r)
    ensures NoHyphenDigit("-r" + r)
  {
    forall q
      ensures !HyphenDigit("-r" + r, q)
    {
      if 2 <= q < |r| + 2 {
        assert ("-r" + r)[q] == r[q - 2] && r[q - 2] in r;
      }
    }
  }

  lemma RevisionShifted(s: string, q: nat)
    requires q <= |s|
    ensures NoRevisionAt(s, q) <==> NoRevisionAt(s[q..], 0)
  {
  }
}
