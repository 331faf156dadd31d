// The name of an ebuild, PN-VER[-rREV]: the pattern, the loop that reads its groups,
// and what it makes of every name.
module EbuildName {
  import opened Wrappers
  import opened Matching
  import opened Grammar

  // ---------- Versions ----------

  // One "_pre3" of a version; the kind is an index into NAMES.
  datatype Suffix = Suffix(kind: nat, number: string)

  datatype Version = Version(major: string, minors: seq<string>, letter: string, suffixes: seq<Suffix>)

  predicate ValidVersion(v: Version) {
    && IsNumber(v.major)
    && AreNumbers(v.minors)
    && (v.letter == "" || (|v.letter| == 1 && IsLower(v.letter[0])))
    && ValidSuffixes(v.suffixes)
  }

  predicate ValidSuffixes(xs: seq<Suffix>) {
    forall x <- xs :: x.kind < |NAMES| && AllDigits(x.number)
  }

  function PrintSuffixes(xs: seq<Suffix>): string
    requires ValidSuffixes(xs)
  {
    if xs == [] then ""
    else
      assert xs[0] in xs;
      "_" + (NAMES[xs[0].kind] + (xs[0].number + PrintSuffixes(xs[1..])))
  }

  lemma FirstSuffix(xs: seq<Suffix>)
    requires ValidSuffixes(xs) && xs != []
    ensures xs[0] in xs
    ensures PrintSuffixes(xs) == "_" + (NAMES[xs[0].kind] + (xs[0].number + PrintSuffixes(xs[1..])))
  {
  }

  function PrintVersion(v: Version): string
    requires ValidVersion(v)
  {
    v.major + (PrintMinors(v.minors) + (v.letter + PrintSuffixes(v.suffixes)))
  }

  // ---------- The pattern ----------

  // ((_(pre|p|beta|alpha|rc)\d*)*)
  function SuffixLoop(): Regex {
    Star(OneSuffix(), true)
  }

  function OneSuffix(): Regex {
    Seq(Lit('_'), Seq(SuffixName(), AnyDigits()))
  }

  // (\d+)((\.\d+)*)([a-z]?)((_(pre|p|beta|alpha|rc)\d*)*)
  function VersionPattern(): Regex {
    Seq(Digits(), Seq(Minors(), Seq(Opt(Class(Lower)), SuffixLoop())))
  }

  // (?<pn_inval>-VERSION(-r(\d+))?)
  function InvalidPart(): Regex {
    Seq(Open("pn_inval"), Seq(Lit('-'), Seq(VersionPattern(),
        Seq(Opt(Seq(Text("-r"), Digits())), Close("pn_inval")))))
  }

  // (-r(?<rev>\d+))?
  function RevisionPart(): Regex {
    Opt(Seq(Text("-r"), Seq(Open("rev"), Seq(Digits(), Close("rev")))))
  }

  // What follows the name: the end of group pn, then -(?<ver>VERSION)(-r(?<rev>\d+))?
  function AfterName(): Regex {
    Seq(Close("pn"), Seq(Lit('-'), Seq(Open("ver"), Seq(VersionPattern(), Seq(Close("ver"), RevisionPart())))))
  }

  function NameEnd(): Regex {
    Seq(Opt(InvalidPart()), AfterName())
  }

  // (?<pn>[\w][\w+-]*?(?<pn_inval>...)?)-(?<ver>...)(-r(?<rev>\d+))?
  function Pattern(): Regex {
    Seq(Open("pn"), Seq(Class(Word), Seq(Star(Class(NameChar), false), NameEnd())))
  }

  // ---------- Reading the groups ----------

  datatype ParsedStem = ParsedStem(pn: string, pn_inval: string, ver: string, rev: string)

  // Every group holds the text of the last match in which it took part.
  function LastGroups(ms: seq<Match>, stem: string): ParsedStem {
    ParsedStem(LastCapture(ms, "pn", stem), LastCapture(ms, "pn_inval", stem),
               LastCapture(ms, "ver", stem), LastCapture(ms, "rev", stem))
  }

  function ParseStem(stem: string): Option<ParsedStem> {
    var ms := FindAll(Pattern(), stem, 0);
    if ms == [] then None else Some(LastGroups(ms, stem))
  }

  // The named groups in the order in which the engine numbers them.
  const GROUPS: seq<string> := ["pn", "pn_inval", "ver", "rev"]

  method ParseEbuildName(stem: string) returns (res: Option<ParsedStem>)
    ensures res == ParseStem(stem)
  {
    hide FindFrom, Pattern, MatchAll, LastCapture;
    var entered := false;
    var r := ParsedStem("", "", "", "");
    ghost var seen: seq<Match> := [];
    NoCaptures(stem);
    var from := 0;
    var found := FindFrom(Pattern(), stem, from);
    while found.Some?
      invariant found == FindFrom(Pattern(), stem, from)
      invariant FindAll(Pattern(), stem, 0) == seen + FindAll(Pattern(), stem, from)
      invariant entered <==> seen != []
      invariant r == LastGroups(seen, stem)
      decreases |stem| - from
    {
      entered := true;
      var m := found.value;
      ghost var next := seen + [m];
      NextCapture(seen, m, stem);
      var k := 0;
      while k < |GROUPS|
        invariant k <= |GROUPS|
        invariant r.pn == LastCapture(if k > 0 then next else seen, "pn", stem)
        invariant r.pn_inval == LastCapture(if k > 1 then next else seen, "pn_inval", stem)
        invariant r.ver == LastCapture(if k > 2 then next else seen, "ver", stem)
        invariant r.rev == LastCapture(if k > 3 then next else seen, "rev", stem)
      {
        if GROUPS[k] !in m.last.caps {
          k := k + 1;
          continue;
        }
        var subpattern := Slice(stem, m.last.caps[GROUPS[k]]);
        if GROUPS[k] == "pn" {
          r := r.(pn := subpattern);
        } else if GROUPS[k] == "pn_inval" {
          r := r.(pn_inval := subpattern);
        } else if GROUPS[k] == "ver" {
          r := r.(ver := subpattern);
        } else if GROUPS[k] == "rev" {
          r := r.(rev := subpattern);
        }
        k := k + 1;
      }
      seen := next;
      from := After(m);
      found := FindFrom(Pattern(), stem, from);
    }
    assert FindAll(Pattern(), stem, from) == [];
    assert FindAll(Pattern(), stem, 0) == seen;
    if !entered {
      return None;
    }
    return Some(r);
  }

  lemma NoCaptures(stem: string)
    ensures forall g :: LastCapture([], g, stem) == ""
  {
  }

  lemma NextCapture(ms: seq<Match>, m: Match, stem: string)
    ensures forall g :: LastCapture(ms + [m], g, stem) ==
                        if g in m.last.caps then Slice(stem, m.last.caps[g]) else LastCapture(ms, g, stem)
  {
    assert (ms + [m])[..|ms|] == ms;
  }

  // ---------- Greedy reading of a printed version ----------

  // A version ends before a hyphen or at the end of the text.
  predicate Stops(s: string, p: nat) {
    p <= |s| && (p < |s| ==> s[p] == '-')
  }

  lemma NamedSuffixTakes(name: string, number: string, s: string, st: State, e: State)
    requires AllDigits(number)
    requires Reads(s, st.pos, "_" + (name + number), e.pos) && e == At(st, e.pos)
    requires e.pos < |s| ==> s[e.pos] == '_' || s[e.pos] == '-'
    requires Takes(SuffixName(), s, At(st, st.pos + 1), At(st, st.pos + 1 + |name|))
    ensures Takes(OneSuffix(), s, st, e)
  {
    hide MatchAll, Takes, Reads, SuffixName, AnyDigits;
    ReadsWithin(s, st.pos, "_" + (name + number), e.pos);
    var i := st.pos;
    ReadsTwo(s, i, "_", name + number, e.pos);
    ReadsChar(s, i, "_", i + 1, 0);
    ReadsTwo(s, i + 1, name, number, e.pos);
    var p := i + 1 + |name|;
    ReadsWithin(s, p, number, e.pos);
    LitTakes('_', s, st);
    assert s[p..e.pos] == number by { ReadsText(s, p, number, e.pos); }
    AnyDigitsTake(s, At(st, p), e.pos);
    SeqTakes(SuffixName(), AnyDigits(), s, At(st, i + 1), At(st, p), e);
    SeqTakes(Lit('_'), Seq(SuffixName(), AnyDigits()), s, st, At(st, i + 1), e);
  }

  lemma ReadsText(s: string, i: nat, t: string, j: nat)
    requires Reads(s, i, t, j)
    ensures i <= j <= |s| && s[i..j] == t
  {
  }

  // What follows the kind of a suffix is a digit or the end of the suffix, so a "p" is
  // not the start of a "pre".
  lemma NoLetterBehind(number: string, s: string, p: nat, end: nat)
    requires AllDigits(number) && Reads(s, p, number, end)
    requires end < |s| ==> s[end] == '_' || s[end] == '-'
    ensures NextIsNot(s, p, AnyOf("r"))
  {
    if number != "" {
      ReadsChar(s, p, number, end, 0);
      assert number[0] in number;
    }
  }

  lemma OneSuffixTakes(x: Suffix, s: string, st: State, e: State)
    requires ValidSuffixes([x])
    requires Reads(s, st.pos, "_" + (NAMES[x.kind] + x.number), e.pos) && e == At(st, e.pos)
    requires e.pos < |s| ==> s[e.pos] == '_' || s[e.pos] == '-'
    ensures Takes(OneSuffix(), s, st, e)
  {
    hide MatchAll, Takes, Reads, SuffixName, OneSuffix, NextIsNot;
    assert x in [x];
    var name, i := NAMES[x.kind], st.pos;
    ReadsTwo(s, i, "_", name + x.number, e.pos);
    ReadsTwo(s, i + 1, name, x.number, e.pos);
    NoLetterBehind(x.number, s, i + 1 + |name|, e.pos);
    SuffixNameTakes(x.kind, s, At(st, i + 1));
    NamedSuffixTakes(name, x.number, s, st, e);
  }

  lemma {:induction false} SuffixesTake(xs: seq<Suffix>, s: string, st: State, j: nat)
    requires ValidSuffixes(xs) && Reads(s, st.pos, PrintSuffixes(xs), j) && Stops(s, j)
    ensures Takes(SuffixLoop(), s, st, At(st, j))
    ensures st.pos < |s| ==> s[st.pos] == '_' || s[st.pos] == '-'
  {
    hide MatchAll, Takes, Reads, In;
    ReadsWithin(s, st.pos, PrintSuffixes(xs), j);
    if xs == [] {
      LitFails('_', s, st);
      SeqFailsAtOnce(Lit('_'), Seq(SuffixName(), AnyDigits()), s, st);
      StarStops(OneSuffix(), s, st);
    } else {
      hide PrintSuffixes;
      FirstSuffix(xs);
      var head := "_" + (NAMES[xs[0].kind] + xs[0].number);
      var tail := PrintSuffixes(xs[1..]);
      assert PrintSuffixes(xs) == head + tail;
      ReadsTwo(s, st.pos, head, tail, j);
      ReadsChar(s, st.pos, head, st.pos + |head|, 0);
      var e := At(st, st.pos + |head|);
      SuffixesTake(xs[1..], s, e, j);
      OneSuffixTakes(xs[0], s, st, e);
      StarIterates(OneSuffix(), s, st, e, At(st, j));
    }
  }

  lemma LetterTakes(v: Version, s: string, st: State, j: nat)
    requires ValidVersion(v) && Reads(s, st.pos, v.letter + PrintSuffixes(v.suffixes), j) && Stops(s, j)
    ensures Takes(Seq(Opt(Class(Lower)), SuffixLoop()), s, st, At(st, j))
    ensures st.pos < |s| ==> s[st.pos] == '_' || s[st.pos] == '-' || IsLower(s[st.pos])
  {
    hide MatchAll, Takes, Reads, PrintSuffixes;
    ReadsWithin(s, st.pos, v.letter + PrintSuffixes(v.suffixes), j);
    ReadsTwo(s, st.pos, v.letter, PrintSuffixes(v.suffixes), j);
    var mid := At(st, st.pos + |v.letter|);
    SuffixesTake(v.suffixes, s, mid, j);
    if v.letter == "" {
      ClassFails(Lower, s, st);
      OptSkips(Class(Lower), s, st);
    } else {
      ReadsChar(s, st.pos, v.letter, mid.pos, 0);
      ClassTakes(Lower, s, st);
      AltTakesFirst(Class(Lower), Empty, s, st, mid);
    }
    SeqTakes(Opt(Class(Lower)), SuffixLoop(), s, st, mid, At(st, j));
  }

  lemma VersionTakes(v: Version, s: string, st: State, j: nat)
    requires ValidVersion(v) && Reads(s, st.pos, PrintVersion(v), j) && Stops(s, j)
    ensures Takes(VersionPattern(), s, st, At(st, j))
  {
    hide MatchAll, Takes, Reads, PrintMinors, PrintSuffixes, Digits, Minors, SuffixLoop;
    ReadsWithin(s, st.pos, PrintVersion(v), j);
    var tail := v.letter + PrintSuffixes(v.suffixes);
    ReadsTwo(s, st.pos, v.major, PrintMinors(v.minors) + tail, j);
    var p := st.pos + |v.major|;
    ReadsTwo(s, p, PrintMinors(v.minors), tail, j);
    var q := p + |PrintMinors(v.minors)|;
    LetterTakes(v, s, At(st, q), j);
    MinorsTake(v.minors, s, At(st, p), q);
    DigitsTake(s, st, v.major, p);
    var afterMinors := Seq(Opt(Class(Lower)), SuffixLoop());
    SeqTakes(Minors(), afterMinors, s, At(st, p), At(st, q), At(st, j));
    SeqTakes(Digits(), Seq(Minors(), afterMinors), s, st, At(st, p), At(st, j));
  }
}
