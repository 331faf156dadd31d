// Texts with any number of tags and letters behind the version, with a revision, and with
// a second version: the last tag, the last letter and the last version win.
module TagRuns {
  import opened Wrappers
  import opened Matching
  import opened Grammar
  import opened EbuildName
  import opened EbuildNameTheorems
  import opened TagVersion
  import opened TagVersionTheorems

  // ---------- The kinds of tags ----------

  predicate IsKind(name: string) {
    name == "pre" || name == "p" || name == "beta" || name == "alpha" || name == "rc"
  }

  // A tag is one of these names and digits, and nothing else is.
  lemma TagIff(t: string)
    ensures IsTag(t) <==> exists name, digits :: IsKind(name) && AllDigits(digits) && t == name + digits
  {
    if exists name, digits :: IsKind(name) && AllDigits(digits) && t == name + digits {
      var name, digits :| IsKind(name) && AllDigits(digits) && t == name + digits;
      var k := if name == "pre" then 0 else if name == "p" then 1 else if name == "beta" then 2
               else if name == "alpha" then 3 else 4;
      assert NAMES[k] == name;
      assert TagOf(t, k, digits);
    }
    if IsTag(t) {
      var k: nat, digits :| TagOf(t, k, digits);
      assert IsKind(NAMES[k]);
    }
  }

  // ---------- Items behind a version ----------

  // A separator and a tag, or a letter without separator.
  datatype Item = Item(sep: string, text: string)

  ghost predicate ValidItem(x: Item) {
    IsSeparator(x.sep) && (IsTag(x.text) || (IsSubver(x.text) && x.sep == ""))
  }

  // Where the next item cannot be taken for a part of the one before.
  ghost predicate Separate(x: Item, y: Item) {
    y.sep != "" || (IsTag(x.text) && IsSubver(y.text) && y.text != "r")
  }

  ghost predicate ValidItems(xs: seq<Item>) {
    (forall x <- xs :: ValidItem(x)) && forall i :: 0 <= i < |xs| - 1 ==> Separate(xs[i], xs[i + 1])
  }

  function PrintItems(xs: seq<Item>): string {
    if xs == [] then "" else (xs[0].sep + xs[0].text) + PrintItems(xs[1..])
  }

  ghost function LastTag(xs: seq<Item>): string {
    if xs == [] then ""
    else if IsTag(xs[|xs| - 1].text) then xs[|xs| - 1].text
    else LastTag(xs[..|xs| - 1])
  }

  ghost function LastLetter(xs: seq<Item>): string {
    if xs == [] then ""
    else if IsSubver(xs[|xs| - 1].text) then xs[|xs| - 1].text
    else LastLetter(xs[..|xs| - 1])
  }

  // The text ends, or a character follows that belongs to nothing the pattern reads.
  predicate TextEnds(s: string, p: nat) {
    p <= |s| && (p < |s| ==> Foreign(s[p]))
  }

  predicate Foreign(c: char) {
    !IsWord(c) && c !in "-_."
  }

  // Behind the items stands a revision or the end of the text.
  predicate ItemsEnd(s: string, p: nat, rev: Option<string>, end: nat) {
    Reads(s, p, RevisionText(rev), end) && ValidRevision(rev) && TextEnds(s, end)
  }

  // ---------- Reading the items ----------

  lemma ItemsStop(s: string, st: State, rev: Option<string>, end: nat)
    requires ItemsEnd(s, st.pos, rev, end)
    ensures Fails(Alt(TagPart(), SubverPart()), s, st)
    ensures NextIsNot(s, st.pos, Digit) && NextIsNot(s, st.pos, AnyOf("r")) && NextIsNot(s, st.pos, AnyOf("._"))
    ensures NextIsNot(s, st.pos, Lower)
  {
    hide MatchAll, TagGroup, Reads;
    RevisionFront(s, st.pos, rev, end);
    var sep := Class(AnyOf("-_."));
    AltUnfolds(sep, Empty, s, st);
    EmptyMatches(s, st);
    forall x <- MatchAll(Opt(sep), s, st)
      ensures MatchAll(TagGroup(), s, x) == []
    {
      if x != st {
        ClassResult(AnyOf("-_."), s, st, x);
      }
      TagGroupFails(s, x);
    }
    SeqFails(Opt(sep), TagGroup(), s, st);
    var a := Opened(st, "subver");
    OpenMatches("subver", s, st);
    SeqOfOne(Open("subver"), Seq(Class(Lower), Close("subver")), s, st, a);
    ClassFails(Lower, s, a);
    SeqFailsAtOnce(Class(Lower), Close("subver"), s, a);
    AltUnfolds(TagPart(), SubverPart(), s, st);
  }

  lemma RevisionFront(s: string, p: nat, rev: Option<string>, end: nat)
    requires ItemsEnd(s, p, rev, end)
    ensures p <= end <= |s|
    ensures p < |s| ==> s[p] == '-' || Foreign(s[p])
    ensures p < |s| && s[p] == '-' ==> p + 2 < |s| && s[p + 1] == 'r' && IsDigit(s[p + 2])
    ensures rev.None? ==> p == end
  {
    if rev.Some? {
      var t := "-r" + rev.value;
      ReadsChar(s, p, t, end, 0);
      ReadsChar(s, p, t, end, 1);
      ReadsChar(s, p, t, end, 2);
      assert t[2] == rev.value[0] && rev.value[0] in rev.value;
    }
  }

  lemma RevisionIsIgnored(s: string, st: State, rev: Option<string>, end: nat)
    requires ItemsEnd(s, st.pos, rev, end)
    ensures Takes(IgnoredRevision(), s, st, At(st, end))
  {
    hide MatchAll, Text, Takes, Reads, Foreign;
    RevisionFront(s, st.pos, rev, end);
    match rev {
      case None =>
        NoHyphenHere(s, st.pos, end);
        TextMatches("-r", s, st);
        if Reads(s, st.pos, "-r", st.pos + 2) {
          ReadsChar(s, st.pos, "-r", st.pos + 2, 0);
        }
        SeqFailsAtOnce(Text("-r"), Digits(), s, st);
        OptSkips(Seq(Text("-r"), Digits()), s, st);
      case Some(r) =>
        ReadsTwo(s, st.pos, "-r", r, end);
        TextTakes("-r", s, st);
        DigitsStop(s, end);
        DigitsTake(s, At(st, st.pos + 2), r, end);
        SeqTakes(Text("-r"), Digits(), s, st, At(st, st.pos + 2), At(st, end));
        AltTakesFirst(Seq(Text("-r"), Digits()), Empty, s, st, At(st, end));
    }
  }

  lemma NoHyphenHere(s: string, p: nat, end: nat)
    requires TextEnds(s, end) && p == end
    ensures p < |s| ==> s[p] != '-'
  {
  }

  lemma DigitsStop(s: string, end: nat)
    requires TextEnds(s, end)
    ensures NextIsNot(s, end, Digit)
  {
  }

  // What follows an item does not run on in it.
  predicate ItemStops(s: string, p: nat, tag: bool) {
    NextIsNot(s, p, Digit) && NextIsNot(s, p, AnyOf("r")) && (!tag ==> NextIsNot(s, p, Lower))
  }

  lemma ItemTakes(s: string, st: State, x: Item, end: nat) returns (e: State)
    requires ValidItem(x) && Reads(s, st.pos, x.sep + x.text, end)
    requires ItemStops(s, end, IsTag(x.text))
    ensures Takes(Alt(TagPart(), SubverPart()), s, st, e) && e.pos == end && st.pos < end <= |s|
    ensures var here := Span(st.pos + |x.sep|, end);
            e.caps == if IsTag(x.text) then st.caps["tag" := here] else st.caps["subver" := here]
  {
    hide MatchAll, Takes, Reads, TagGroup, IsTag, IsSubver;
    ReadsWithin(s, st.pos, x.sep + x.text, end);
    ReadsTwo(s, st.pos, x.sep, x.text, end);
    var m := At(st, st.pos + |x.sep|);
    var sep := Class(AnyOf("-_."));
    if IsTag(x.text) {
      e := TagRead(st, m.pos, end);
      TagGroupTakes(s, m, x.text, end);
      if x.sep == "" {
        ClassFails(AnyOf("-_."), s, st);
        OptSkips(sep, s, st);
      } else {
        ReadsChar(s, st.pos, x.sep, m.pos, 0);
        ClassTakes(AnyOf("-_."), s, st);
        AltTakesFirst(sep, Empty, s, st, m);
      }
      SeqTakes(Opt(sep), TagGroup(), s, st, m, e);
      AltTakesFirst(TagPart(), SubverPart(), s, st, e);
    } else {
      e := LetterTaken(s, st, x.text, end);
    }
  }

  lemma LetterTaken(s: string, st: State, letter: string, end: nat) returns (e: State)
    requires IsSubver(letter) && Reads(s, st.pos, letter, end) && NextIsNot(s, end, Lower)
    ensures Takes(Alt(TagPart(), SubverPart()), s, st, e) && e.pos == end && end == st.pos + 1 <= |s|
    ensures e.caps == st.caps["subver" := Span(st.pos, end)]
  {
    hide MatchAll, TagGroup, Reads;
    ReadsWithin(s, st.pos, letter, end);
    ReadsChar(s, st.pos, letter, end, 0);
    var sep := Class(AnyOf("-_."));
    ClassFails(AnyOf("-_."), s, st);
    OptSkips(sep, s, st);
    SeqOfOne(Opt(sep), TagGroup(), s, st, st);
    TagGroupFails(s, st);
    var a := Opened(st, "subver");
    var b := At(a, end);
    e := Closed(b, "subver");
    OpenMatches("subver", s, st);
    ClassTakes(Lower, s, a);
    CloseMatches("subver", s, b);
    SeqTakes(Class(Lower), Close("subver"), s, a, b, e);
    SeqTakes(Open("subver"), Seq(Class(Lower), Close("subver")), s, st, a, e);
    AltTakesSecond(TagPart(), SubverPart(), s, st, e);
  }

  // The groups after the items: each holds the text of its last item.
  ghost predicate HoldsLast(s: string, from: State, xs: seq<Item>, e: State) {
    && SameVer(from, e)
    && GroupHolds(s, from, e, "tag", LastTag(xs))
    && GroupHolds(s, from, e, "subver", LastLetter(xs))
  }

  predicate GroupHolds(s: string, from: State, e: State, group: string, text: string) {
    if text == "" then
      (group in from.caps <==> group in e.caps) && (group in e.caps ==> from.caps[group] == e.caps[group])
    else group in e.caps && e.caps[group].start <= e.caps[group].end <= |s| && Slice(s, e.caps[group]) == text
  }

  lemma {:induction false} ItemsTake(s: string, st: State, xs: seq<Item>, p: nat, rev: Option<string>, end: nat)
    returns (e: State)
    requires ValidItems(xs) && Reads(s, st.pos, PrintItems(xs), p) && ItemsEnd(s, p, rev, end)
    ensures Takes(TagLoop(), s, st, e) && e.pos == p && HoldsLast(s, st, xs, e)
    decreases |xs|
  {
    hide MatchAll, Takes, Reads, TagPart, SubverPart, IsTag, IsSubver, ItemsEnd, LastTag, LastLetter;
    ReadsWithin(s, st.pos, PrintItems(xs), p);
    if xs == [] {
      e := st;
      ItemsStop(s, st, rev, end);
      StarStops(Alt(TagPart(), SubverPart()), s, st);
      NothingLast();
    } else {
      var x, rest := xs[0], xs[1..];
      assert x in xs && forall y <- rest :: y in xs;
      ReadsTwo(s, st.pos, x.sep + x.text, PrintItems(rest), p);
      var q := st.pos + |x.sep + x.text|;
      AfterItem(s, xs, q, p, rev, end);
      var m := ItemTakes(s, st, x, q);
      e := ItemsTake(s, m, rest, p, rev, end);
      StarIterates(Alt(TagPart(), SubverPart()), s, st, m, e);
      ItemText(s, st, x, q);
      TextOfItem(x);
      LastOf(s, st, m, xs, q, e);
    }
  }

  lemma NothingLast()
    ensures LastTag([]) == "" && LastLetter([]) == ""
  {
  }

  lemma ItemText(s: string, st: State, x: Item, q: nat)
    requires Reads(s, st.pos, x.sep + x.text, q)
    ensures st.pos + |x.sep| <= q <= |s| && s[st.pos + |x.sep|..q] == x.text
  {
    ReadsTwo(s, st.pos, x.sep, x.text, q);
  }

  // Behind the first item stands the next one or the end of the items.
  lemma AfterItem(s: string, xs: seq<Item>, q: nat, p: nat, rev: Option<string>, end: nat)
    requires xs != [] && ValidItems(xs) && Reads(s, q, PrintItems(xs[1..]), p) && ItemsEnd(s, p, rev, end)
    ensures q <= |s| && ItemStops(s, q, IsTag(xs[0].text))
  {
    hide Reads, ItemsEnd, IsTag, IsSubver;
    ReadsWithin(s, q, PrintItems(xs[1..]), p);
    if |xs| == 1 {
      ItemsStop(s, Start(p), rev, end);
    } else {
      var y := xs[1];
      assert y == xs[1..][0] && Separate(xs[0], xs[1]) && xs[1] in xs;
      var t := y.sep + y.text;
      TextOfItem(y);
      ReadsTwo(s, q, t, PrintItems(xs[1..][1..]), p);
      ReadsChar(s, q, t, q + |t|, 0);
      FirstOfItem(xs[0], y);
    }
  }

  lemma TextOfItem(x: Item)
    requires ValidItem(x)
    ensures x.text != "" && IsLower(x.text[0])
  {
    if IsTag(x.text) {
      TagText(x.text);
    }
  }

  lemma FirstOfItem(x: Item, y: Item)
    requires ValidItem(x) && ValidItem(y) && Separate(x, y) && y.text != ""
    ensures var c := (y.sep + y.text)[0]; !IsDigit(c) && c != 'r' && (!IsTag(x.text) ==> !IsLower(c))
  {
    hide IsTag;
    if y.sep == "" {
      assert y.sep + y.text == y.text;
    }
  }

  lemma LastOf(s: string, st: State, m: State, xs: seq<Item>, q: nat, e: State)
    requires xs != [] && ValidItem(xs[0]) && st.pos + |xs[0].sep| <= q <= |s|
    requires s[st.pos + |xs[0].sep|..q] == xs[0].text && xs[0].text != ""
    requires var here := Span(st.pos + |xs[0].sep|, q);
             m.caps == if IsTag(xs[0].text) then st.caps["tag" := here] else st.caps["subver" := here]
    requires HoldsLast(s, m, xs[1..], e)
    ensures HoldsLast(s, st, xs, e)
  {
    hide IsTag, IsSubver, LastTag, LastLetter;
    LastTagFront(xs);
    LastLetterFront(xs);
    TagIsNoLetter(xs[0].text);
    var here := Span(st.pos + |xs[0].sep|, q);
    assert Slice(s, here) == xs[0].text;
    assert SameVer(st, e);
    assert GroupHolds(s, st, e, "tag", LastTag(xs));
    assert GroupHolds(s, st, e, "subver", LastLetter(xs));
  }

  lemma {:induction false} LastTagFront(xs: seq<Item>)
    requires xs != []
    ensures LastTag(xs) == if LastTag(xs[1..]) != "" then LastTag(xs[1..])
                           else if IsTag(xs[0].text) then xs[0].text else ""
  {
    hide IsTag;
    if |xs| > 1 {
      assert xs[1..][..|xs| - 2] == xs[..|xs| - 1][1..];
      assert xs[1..][|xs| - 2] == xs[|xs| - 1];
      LastTagFront(xs[..|xs| - 1]);
      TagIsNoLetter(xs[|xs| - 1].text);
    }
  }

  lemma {:induction false} LastLetterFront(xs: seq<Item>)
    requires xs != []
    ensures LastLetter(xs) == if LastLetter(xs[1..]) != "" then LastLetter(xs[1..])
                              else if IsSubver(xs[0].text) then xs[0].text else ""
  {
    hide IsSubver;
    if |xs| > 1 {
      assert xs[1..][..|xs| - 2] == xs[..|xs| - 1][1..];
      assert xs[1..][|xs| - 2] == xs[|xs| - 1];
      LastLetterFront(xs[..|xs| - 1]);
      TagIsNoLetter(xs[|xs| - 1].text);
    }
  }

  lemma TagIsNoLetter(t: string)
    ensures IsTag(t) ==> t != "" && !IsSubver(t)
    ensures IsSubver(t) ==> t != ""
  {
    if IsTag(t) {
      TagText(t);
      if |t| == 1 {
        OneLetterTag(t);
      }
    }
  }

  // ---------- Reading a version with its items ----------

  // A version, its items and its revision, from i to end.
  ghost predicate Stands(s: string, i: nat, v: string, xs: seq<Item>, rev: Option<string>, end: nat) {
    && IsDotted(v) && ValidItems(xs) && ValidRevision(rev) && TextEnds(s, end)
    && Reads(s, i, v + (PrintItems(xs) + RevisionText(rev)), end)
  }

  // The state before the version.
  predicate Fresh(st: State) {
    "tag" !in st.caps && "subver" !in st.caps
  }

  lemma VersionIsRead(s: string, st: State, v: string, xs: seq<Item>, rev: Option<string>, end: nat)
    returns (e: State)
    requires Stands(s, st.pos, v, xs, rev, end) && Fresh(st)
    ensures Takes(VersionAndTags(), s, st, e) && e.pos == end <= |s| && st.pos < end
    ensures st.pos + |v| <= |s| && s[st.pos..st.pos + |v|] == v && IsDigit(s[st.pos])
    ensures "ver" in e.caps && e.caps["ver"] == Span(st.pos, st.pos + |v|)
    ensures Captured(e, "tag", s) == LastTag(xs) && ("tag" in e.caps <==> LastTag(xs) != "")
    ensures Captured(e, "subver", s) == LastLetter(xs) && ("subver" in e.caps <==> LastLetter(xs) != "")
  {
    hide MatchAll, Takes, Reads, Tail, TagLoop, IgnoredRevision, PrintMinors, PrintItems, LastTag, LastLetter,
      ValidItems, TextEnds, RevisionText;
    var major, ms :| DottedOf(v, major, ms);
    var rest := PrintItems(xs) + RevisionText(rev);
    ReadsWithin(s, st.pos, v + rest, end);
    ReadsTwo(s, st.pos, v, rest, end);
    var q := st.pos + |v|;
    var p := q + |PrintItems(xs)|;
    ReadsTwo(s, q, PrintItems(xs), RevisionText(rev), end);
    var read := VersionRead(st, q);
    var m := ItemsTake(s, read, xs, p, rev, end);
    e := At(m, end);
    RevisionIsIgnored(s, m, rev, end);
    SeqTakes(TagLoop(), IgnoredRevision(), s, read, m, e);
    TailTakes(s, read, m, e);
    VersionStops(s, q, xs, p, rev, end);
    VersionTakesFrom(s, st, major, ms, q, e);
    ReadsText(s, st.pos, v, q);
    ReadsChar(s, st.pos, v, q, 0);
    assert v[0] == major[0] && major[0] in major;
  }

  lemma TailTakes(s: string, st: State, m: State, e: State)
    requires Takes(Seq(TagLoop(), IgnoredRevision()), s, st, e)
    ensures Takes(Tail(), s, st, e)
  {
    hide MatchAll;
  }

  // Behind the version stands no digit, and no dot with a digit behind it.
  lemma VersionStops(s: string, q: nat, xs: seq<Item>, p: nat, rev: Option<string>, end: nat)
    requires ValidItems(xs) && Reads(s, q, PrintItems(xs), p) && ItemsEnd(s, p, rev, end)
    ensures NextIsNot(s, q, Digit) && (q < |s| && s[q] == '.' ==> NextIsNot(s, q + 1, Digit))
  {
    hide Reads, ItemsEnd, PrintItems, ValidItems, ValidItem;
    ReadsWithin(s, q, PrintItems(xs), p);
    if xs == [] {
      ItemsThere(xs);
      EndFront(s, p, rev, end);
    } else {
      FirstItem(xs);
      ReadsTwo(s, q, xs[0].sep + xs[0].text, PrintItems(xs[1..]), p);
      VersionStopsAt(s, q, xs[0], q + |xs[0].sep + xs[0].text|);
    }
  }

  lemma EndFront(s: string, p: nat, rev: Option<string>, end: nat)
    requires ItemsEnd(s, p, rev, end)
    ensures NextIsNot(s, p, Digit) && (p < |s| ==> s[p] != '.')
  {
    hide Reads, ItemsEnd;
    RevisionFront(s, p, rev, end);
  }

  lemma FirstItem(xs: seq<Item>)
    requires xs != []
    ensures PrintItems(xs) == (xs[0].sep + xs[0].text) + PrintItems(xs[1..])
    ensures ValidItems(xs) ==> ValidItem(xs[0])
  {
    hide ValidItem;
    assert xs[0] in xs;
  }

  lemma VersionStopsAt(s: string, q: nat, x: Item, end: nat)
    requires ValidItem(x) && Reads(s, q, x.sep + x.text, end)
    ensures NextIsNot(s, q, Digit) && (q < |s| && s[q] == '.' ==> NextIsNot(s, q + 1, Digit))
  {
    hide Reads, IsTag, IsSubver;
    ReadsWithin(s, q, x.sep + x.text, end);
    TextOfItem(x);
    ReadsTwo(s, q, x.sep, x.text, end);
    ReadsChar(s, q, x.sep + x.text, end, 0);
    ReadsChar(s, q + |x.sep|, x.text, end, 0);
  }

  // ---------- No hyphen before a digit ----------

  lemma {:induction false} ItemsHaveNoHyphenDigit(xs: seq<Item>)
    requires ValidItems(xs)
    ensures NoHyphenDigit(PrintItems(xs)) && (xs != [] ==> PrintItems(xs) != "" && !IsDigit(PrintItems(xs)[0]))
    ensures xs != [] ==> PrintItems(xs)[|PrintItems(xs)| - 1] != '-'
  {
    hide IsTag, IsSubver;
    if xs != [] {
      var x, rest := xs[0], xs[1..];
      assert x in xs && forall y <- rest :: y in xs;
      forall i | 0 <= i < |rest| - 1
        ensures Separate(rest[i], rest[i + 1])
      {
        var j := i + 1;
        assert Separate(xs[j], xs[j + 1]);
      }
      ItemsHaveNoHyphenDigit(rest);
      TextOfItem(x);
      TextHasNoHyphen(x);
      var t, r := x.sep + x.text, PrintItems(rest);
      assert t[|t| - 1] == x.text[|x.text| - 1] && x.text[|x.text| - 1] in x.text;
      forall q
        ensures !HyphenDigit(t, q)
      {
        HyphenDigitOfAppend(x.sep, x.text, q);
      }
      forall q
        ensures !HyphenDigit(t + r, q)
      {
        if r != "" {
          HyphenDigitOfAppend(t, r, q);
        } else {
          assert t + r == t;
        }
      }
    }
  }

  lemma TextHasNoHyphen(x: Item)
    requires ValidItem(x)
    ensures '-' !in x.text && NoHyphenDigit(x.text) && NoHyphenDigit(x.sep)
  {
    if IsTag(x.text) {
      TagText(x.text);
    }
    forall q
      ensures !HyphenDigit(x.text, q)
    {
      assert 0 <= q < |x.text| ==> x.text[q] in x.text;
    }
  }

  // A version with its items and its revision, as text.
  function PrintVersionText(v: string, xs: seq<Item>, rev: Option<string>): string {
    v + (PrintItems(xs) + RevisionText(rev))
  }

  lemma TextHasNoHyphenDigit(v: string, xs: seq<Item>, rev: Option<string>)
    requires IsDotted(v) && ValidItems(xs) && ValidRevision(rev)
    ensures NoHyphenDigit(PrintVersionText(v, xs, rev))
    ensures PrintVersionText(v, xs, rev) != "" && IsDigit(PrintVersionText(v, xs, rev)[0])
  {
    hide ValidItems, PrintItems;
    DottedText(v);
    VersionFirst(v);
    ItemsHaveNoHyphenDigit(xs);
    var a, b := PrintItems(xs), RevisionText(rev);
    if xs == [] {
      ItemsThere(xs);
    }
    if rev.Some? {
      RevisionHasNoHyphenDigit(rev.value);
    }
    forall q
      ensures !HyphenDigit(a + b, q)
    {
      if b != "" {
        HyphenDigitOfAppend(a, b, q);
      } else {
        assert a + b == a;
      }
    }
    forall q
      ensures !HyphenDigit(v + (a + b), q)
    {
      assert 0 <= q < |v| ==> v[q] in v;
      if a + b != "" {
        assert (a + b)[0] == if a != "" then a[0] else b[0];
        HyphenDigitOfAppend(v, a + b, q);
      }
    }
  }

  lemma ItemsThere(xs: seq<Item>)
    requires xs == []
    ensures PrintItems(xs) == ""
  {
  }

  lemma VersionFirst(v: string)
    requires IsDotted(v)
    ensures v != "" && IsDigit(v[0])
  {
    var major, ms :| DottedOf(v, major, ms);
    assert major[0] in major;
  }

  // ---------- Main results ----------

  lemma TextStands(a: string, v: string, xs: seq<Item>, rev: Option<string>, b: string)
    requires IsDotted(v) && ValidItems(xs) && ValidRevision(rev) && (b != "" ==> Foreign(b[0]))
    ensures var t := PrintVersionText(v, xs, rev);
            var s := a + (t + b);
            && |a| + |t| <= |s| && Stands(s, |a|, v, xs, rev, |a| + |t|)
            && a <= s && s[|a|..|a| + |t|] == t && s[|a| + |t|..] == b
  {
    hide ValidItems, Foreign, IsDotted;
    var t := PrintVersionText(v, xs, rev);
    var s := a + (t + b);
    assert s[|a|..|a| + |t|] == t;
    assert b != "" ==> s[|a| + |t|] == b[0];
  }

  // Any number of tags and letters, and a revision: the last tag and the last letter
  // count, and the revision does not.
  lemma LastTagAndLetterCount(u: string, v: string, xs: seq<Item>, rev: Option<string>)
    requires IsLead(u) || IsNamed(u)
    requires IsDotted(v) && ValidItems(xs) && ValidRevision(rev)
    ensures ToPortage(u + PrintVersionText(v, xs, rev)) == Ok(v + (Dashed(LastTag(xs)) + Dashed(LastLetter(xs))))
  {
    hide *;
    var t := PrintVersionText(v, xs, rev);
    var s := u + t;
    assert t + "" == t;
    TextStands(u, v, xs, rev, "");
    TextHasNoHyphenDigit(v, xs, rev);
    FrontIsFresh(u);
    var e := VersionIsRead(s, FrontState(u), v, xs, rev, |s|);
    OnlyVersion(u, t, e);
    PartsOfOneMatch(s, e);
    VersionCaptured(s, |u|, v, e);
    JoinedText(v, LastTag(xs), LastLetter(xs));
  }

  lemma FrontIsFresh(u: string)
    ensures Fresh(FrontState(u)) && FrontState(u).pos == |u|
  {
  }

  lemma VersionCaptured(s: string, i: nat, v: string, e: State)
    requires i + |v| <= |s| && s[i..i + |v|] == v && "ver" in e.caps && e.caps["ver"] == Span(i, i + |v|)
    ensures Captured(e, "ver", s) == v
  {
  }

  lemma JoinedText(v: string, tag: string, letter: string)
    ensures Joined(Parts(v, tag, letter)) == v + (Dashed(tag) + Dashed(letter))
  {
  }

  lemma OnlyVersion(u: string, t: string, e: State)
    requires IsLead(u) || IsNamed(u)
    requires NoHyphenDigit(t) && t != "" && IsDigit(t[0])
    requires Takes(VersionAndTags(), u + t, FrontState(u), e) && e.pos == |u + t|
    ensures |FindAll(TagPattern(), u + t, 0)| == 1 && FindAll(TagPattern(), u + t, 0)[0].last == e
  {
    hide MatchAll, TagPattern, VersionAndTags, IsLead, IsNamed, HyphenDigit;
    var s := u + t;
    forall q | q >= |u|
      ensures !HyphenDigit(s, q)
    {
      HyphenDigitBehind(u, t, q);
    }
    FrontIsSkipped(u, s, e);
    TagPatternFailsFrom(s, e.pos);
    NoMatchFrom(TagPattern(), s, e.pos);
    NoMatchFrom(TagPattern(), s, After(FindFrom(TagPattern(), s, 0).value));
  }

  lemma HyphenDigitBehind(u: string, t: string, q: int)
    requires q >= |u|
    ensures HyphenDigit(u + t, q) <==> HyphenDigit(t, q - |u|)
  {
  }

  // Two versions in one text: the later one counts, but a tag or a letter of the earlier
  // one is kept when the later one has none.
  lemma LastVersionCounts(v: string, xs: seq<Item>, rev: Option<string>, c: char,
                          w: string, ys: seq<Item>, rev': Option<string>)
    requires IsDotted(v) && ValidItems(xs) && ValidRevision(rev) && Foreign(c)
    requires IsDotted(w) && ValidItems(ys) && ValidRevision(rev')
    ensures ToPortage(PrintVersionText(v, xs, rev) + ([c] + PrintVersionText(w, ys, rev'))) ==
            Ok(w + (Dashed(if LastTag(ys) != "" then LastTag(ys) else LastTag(xs))
                    + Dashed(if LastLetter(ys) != "" then LastLetter(ys) else LastLetter(xs))))
  {
    hide *;
    var a, b := PrintVersionText(v, xs, rev), PrintVersionText(w, ys, rev');
    var s := a + ([c] + b);
    TextHasNoHyphenDigit(v, xs, rev);
    TextHasNoHyphenDigit(w, ys, rev');
    BothStand(v, xs, rev, c, w, ys, rev');
    FreshAnywhere(0);
    FreshAnywhere(|a| + 1);
    var e := VersionIsRead(s, Start(0), v, xs, rev, |a|);
    var e' := VersionIsRead(s, Start(|a| + 1), w, ys, rev', |s|);
    TwoMatches(a, c, b, e, e');
    VersionCaptured(s, |a| + 1, w, e');
    TwoMatchesRead(s, Match(0, e), Match(|a| + 1, e'));
    JoinedText(w, if LastTag(ys) != "" then LastTag(ys) else LastTag(xs),
               if LastLetter(ys) != "" then LastLetter(ys) else LastLetter(xs));
  }

  lemma BothStand(v: string, xs: seq<Item>, rev: Option<string>, c: char,
                  w: string, ys: seq<Item>, rev': Option<string>)
    requires IsDotted(v) && ValidItems(xs) && ValidRevision(rev) && Foreign(c)
    requires IsDotted(w) && ValidItems(ys) && ValidRevision(rev')
    ensures var a, b := PrintVersionText(v, xs, rev), PrintVersionText(w, ys, rev');
            var s := a + ([c] + b);
            Stands(s, 0, v, xs, rev, |a|) && Stands(s, |a| + 1, w, ys, rev', |s|)
  {
    hide *;
    var a, b := PrintVersionText(v, xs, rev), PrintVersionText(w, ys, rev');
    var s := a + ([c] + b);
    TextStands("", v, xs, rev, [c] + b);
    TextStands(a + [c], w, ys, rev', "");
    assert "" + s == s && (a + [c]) + (b + "") == s;
  }

  // Text without digits behind the version is ignored, whatever it looks like.
  lemma RestIsIgnored(v: string, xs: seq<Item>, rev: Option<string>, c: char, z: string)
    requires IsDotted(v) && ValidItems(xs) && ValidRevision(rev) && Foreign(c) && forall x <- z :: !IsDigit(x)
    ensures ToPortage(PrintVersionText(v, xs, rev) + ([c] + z)) ==
            Ok(v + (Dashed(LastTag(xs)) + Dashed(LastLetter(xs))))
  {
    hide *;
    var a := PrintVersionText(v, xs, rev);
    var s := a + ([c] + z);
    TextHasNoHyphenDigit(v, xs, rev);
    TextStands("", v, xs, rev, [c] + z);
    assert "" + s == s;
    FreshAnywhere(0);
    var e := VersionIsRead(s, Start(0), v, xs, rev, |a|);
    OneMatchThenNoDigit(a, c, z, e);
    PartsOfOneMatch(s, e);
    VersionCaptured(s, 0, v, e);
    JoinedText(v, LastTag(xs), LastLetter(xs));
  }

  lemma OneMatchThenNoDigit(a: string, c: char, z: string, e: State)
    requires NoHyphenDigit(a) && Foreign(c) && (forall x <- z :: !IsDigit(x)) && a != ""
    requires Takes(VersionAndTags(), a + ([c] + z), Start(0), e) && e.pos == |a|
    ensures FindAll(TagPattern(), a + ([c] + z), 0) == [Match(0, e)]
  {
    hide MatchAll, TagPattern, VersionAndTags;
    var s := a + ([c] + z);
    ForeignIsNone(c);
    forall i | |a| <= i < |s|
      ensures !IsDigit(s[i])
    {
      assert s[i] == if i == |a| then c else z[i - |a| - 1];
    }
    assert forall i :: 0 <= i <= |z| ==> ([c] + z)[i] == s[|a| + i];
    forall q
      ensures !HyphenDigit(s, q)
    {
      HyphenDigitOfAppend(a, [c] + z, q);
    }
    LeadIsSkipped(s, 0, e);
    TagPatternFailsFrom(s, |a|);
    NoMatchFrom(TagPattern(), s, |a|);
  }

  lemma FreshAnywhere(i: nat)
    ensures Fresh(Start(i)) && Start(i).pos == i
  {
  }

  // A letter ends a version, and digits right behind it begin the next one.
  lemma LetterBetweenVersions(v: string, letter: string, w: string)
    requires IsDotted(v) && IsSubver(letter) && IsDotted(w)
    ensures ToPortage(v + (letter + w)) == Ok(w + ("-" + letter))
  {
    hide *;
    var s, q := v + (letter + w), |v|;
    SubverLength(letter);
    BetweenLayout(v, letter, w);
    var e := LetterVersion(s, v, letter);
    FreshAnywhere(q + 1);
    var e' := VersionIsRead(s, Start(q + 1), w, [], None, |s|);
    NothingLast();
    AdjacentMatches(s, q + 1, e, e');
    VersionCaptured(s, q + 1, w, e');
    TwoMatchesRead(s, Match(0, e), Match(q + 1, e'));
    JoinedText(w, "", letter);
    NoDash(letter);
  }

  lemma NoDash(letter: string)
    requires letter != ""
    ensures Dashed("") + Dashed(letter) == "-" + letter
  {
  }

  lemma BetweenLayout(v: string, letter: string, w: string)
    requires IsDotted(v) && IsSubver(letter) && IsDotted(w)
    ensures var s, q := v + (letter + w), |v|;
            && q + 1 < |s| && s[..q] == v && s[q] == letter[0] && s[q..q + 1] == letter && s[q + 1..] == w
            && IsDigit(s[q + 1]) && NoHyphenDigit(s) && Stands(s, q + 1, w, [], None, |s|)
  {
    hide IsDotted;
    DottedText(v);
    DottedText(w);
    VersionFirst(w);
    var s := v + (letter + w);
    forall k
      ensures !HyphenDigit(s, k)
    {
      assert 0 <= k < |v| ==> s[k] == v[k] && v[k] in v;
      assert k == |v| ==> s[k] == letter[0];
      assert |v| < k < |s| ==> s[k] == w[k - |v| - 1] && w[k - |v| - 1] in w;
    }
    assert w + (PrintItems([]) + RevisionText(None)) == w;
    assert s[|v| + 1..|s|] == s[|v| + 1..];
  }

  // The match of a version and a letter, with a digit behind it.
  lemma LetterVersion(s: string, v: string, letter: string) returns (e: State)
    requires IsDotted(v) && IsSubver(letter) && |v| + 1 < |s| && s[..|v|] == v && s[|v|..|v| + 1] == letter
    requires IsDigit(s[|v| + 1])
    ensures Takes(VersionAndTags(), s, Start(0), e) && e.pos == |v| + 1
    ensures "tag" !in e.caps && Captured(e, "tag", s) == "" && Captured(e, "subver", s) == letter
  {
    hide MatchAll, Takes, Reads, Tail, TagPart, SubverPart, PrintMinors;
    var major, ms :| DottedOf(v, major, ms);
    var q := |v|;
    ReadsPart(s, 0, v, q);
    ReadsPart(s, q, letter, q + 1);
    ReadsChar(s, q, letter, q + 1, 0);
    var read := VersionRead(Start(0), q);
    e := LetterTaken(s, read, letter, q + 1);
    LoopStopsAt(s, e);
    StarStops(Alt(TagPart(), SubverPart()), s, e);
    StarIterates(Alt(TagPart(), SubverPart()), s, read, e, e);
    SeqTakes(TagLoop(), IgnoredRevision(), s, read, e, e);
    TailTakes(s, read, e, e);
    VersionTakesFrom(s, Start(0), major, ms, q, e);
  }

  lemma LoopStopsAt(s: string, st: State)
    requires st.pos < |s| && IsDigit(s[st.pos])
    ensures Fails(Alt(TagPart(), SubverPart()), s, st)
    ensures Takes(IgnoredRevision(), s, st, st)
  {
    hide MatchAll, TagGroup, Text;
    var sep := Class(AnyOf("-_."));
    ClassFails(AnyOf("-_."), s, st);
    OptSkips(sep, s, st);
    SeqOfOne(Opt(sep), TagGroup(), s, st, st);
    TagGroupFails(s, st);
    var a := Opened(st, "subver");
    OpenMatches("subver", s, st);
    SeqOfOne(Open("subver"), Seq(Class(Lower), Close("subver")), s, st, a);
    ClassFails(Lower, s, a);
    SeqFailsAtOnce(Class(Lower), Close("subver"), s, a);
    AltUnfolds(TagPart(), SubverPart(), s, st);
    TextMatches("-r", s, st);
    if Reads(s, st.pos, "-r", st.pos + 2) {
      ReadsChar(s, st.pos, "-r", st.pos + 2, 0);
    }
    SeqFailsAtOnce(Text("-r"), Digits(), s, st);
    OptSkips(Seq(Text("-r"), Digits()), s, st);
  }

  lemma AdjacentMatches(s: string, p: nat, e: State, e': State)
    requires NoHyphenDigit(s) && 0 < p <= |s|
    requires Takes(VersionAndTags(), s, Start(0), e) && e.pos == p
    requires Takes(VersionAndTags(), s, Start(p), e') && e'.pos == |s| && p < |s|
    ensures FindAll(TagPattern(), s, 0) == [Match(0, e), Match(p, e')]
  {
    hide MatchAll, TagPattern, VersionAndTags, NoHyphenDigit;
    LeadIsSkipped(s, 0, e);
    NoNameInFront(s, Start(p));
    assert FindFrom(TagPattern(), s, p) == Some(Match(p, e'));
    TagPatternFailsFrom(s, |s|);
    NoMatchFrom(TagPattern(), s, |s|);
    assert FindAll(TagPattern(), s, p) == [Match(p, e')];
  }

  lemma TwoMatches(a: string, c: char, b: string, e: State, e': State)
    requires NoHyphenDigit(a) && NoHyphenDigit(b) && Foreign(c) && a != "" && b != ""
    requires var s := a + ([c] + b);
             && Takes(VersionAndTags(), s, Start(0), e) && e.pos == |a|
             && Takes(VersionAndTags(), s, Start(|a| + 1), e') && e'.pos == |s|
    ensures FindAll(TagPattern(), a + ([c] + b), 0) == [Match(0, e), Match(|a| + 1, e')]
  {
    hide MatchAll, TagPattern, VersionAndTags, HyphenDigit;
    var s := a + ([c] + b);
    ForeignIsNone(c);
    assert s[|a|] == c;
    forall q
      ensures !HyphenDigit(s, q)
    {
      HyphenDigitOfAppend(a, [c] + b, q);
      HyphenDigitOfAppendedChar(c, b, q - |a|);
    }
    LeadIsSkipped(s, 0, e);
    NoNameInFront(s, Start(|a|));
    VersionAndTagsFail(s, Start(|a|));
    FirstMatchIsLater(TagPattern(), s, |a|, |a| + 1);
    NoNameInFront(s, Start(|a| + 1));
    assert FindFrom(TagPattern(), s, |a| + 1) == Some(Match(|a| + 1, e'));
    TagPatternFailsFrom(s, |s|);
    NoMatchFrom(TagPattern(), s, |s|);
    assert FindAll(TagPattern(), s, |a|) == [Match(|a| + 1, e')];
  }

  lemma ForeignIsNone(c: char)
    requires Foreign(c)
    ensures !IsDigit(c) && c != '-'
  {
  }

  lemma HyphenDigitOfAppendedChar(c: char, b: string, q: int)
    requires c != '-'
    ensures HyphenDigit([c] + b, q) <==> HyphenDigit(b, q - 1)
  {
  }

  lemma TwoMatchesRead(s: string, m: Match, m': Match)
    requires FindAll(TagPattern(), s, 0) == [m, m'] && "ver" in m'.last.caps
    ensures var tagged := if "tag" in m'.last.caps then m'.last else m.last;
            var lettered := if "subver" in m'.last.caps then m'.last else m.last;
            ToPortage(s) == Ok(Joined(Parts(Captured(m'.last, "ver", s), Captured(tagged, "tag", s),
                                            Captured(lettered, "subver", s))))
  {
    hide FindAll, TagPattern, Joined;
    NoCaptures(s);
    NextCapture([], m, s);
    NextCapture([m], m', s);
    assert [] + [m] == [m] && [m] + [m'] == [m, m'];
  }

  // ---------- Spelled out ----------

  // V, separator, name and digits give V, hyphen, name and digits, for each of the names.
  lemma SpelledTagIsRead(u: string, v: string, sep: string, name: string, digits: string)
    requires (IsLead(u) || IsNamed(u)) && IsDotted(v) && AllDigits(digits)
    requires sep == "" || sep == "-" || sep == "_" || sep == "."
    requires name == "pre" || name == "p" || name == "beta" || name == "alpha" || name == "rc"
    ensures ToPortage(u + (v + (sep + (name + digits)))) == Ok(v + ("-" + (name + digits)))
  {
    hide ToPortage, IsTag, IsDotted, IsLead, IsNamed;
    TagIff(name + digits);
    TagsNormalise(u, v, sep, name + digits);
  }

  // And no other name occurs in a result: it is a dotted number, then nothing or a hyphen,
  // one of the names and digits, then nothing or a hyphen and a letter.
  lemma ResultIsSpelled(t: string) returns (v: string, tag: string, letter: string)
    requires ToPortage(t).Ok?
    ensures ToPortage(t).value == v + (Dashed(tag) + Dashed(letter)) && IsDotted(v)
    ensures tag == "" || exists name, digits :: IsKind(name) && AllDigits(digits) && tag == name + digits
    ensures letter == "" || (|letter| == 1 && letter[0] in "abcdefghijklmnoqrstuvwxyz")
  {
    hide ToPortage, IsTag, IsDotted, FindAll, TagPattern, LastParts;
    OutputShape(t);
    var p := LastParts(FindAll(TagPattern(), t, 0), t);
    v, tag, letter := p.ver, p.tag, p.subver;
    TagIff(tag);
    JoinedText(v, tag, letter);
    if letter != "" {
      Alphabets(letter[0]);
      assert letter[0] in "abcdefghijklmnopqrstuvwxyz" && letter[0] != 'p';
    }
  }

  // The suffixes of an ebuild version, spelled out.
  function SpelledSuffixes(xs: seq<(string, string)>): string {
    if xs == [] then "" else "_" + (xs[0].0 + (xs[0].1 + SpelledSuffixes(xs[1..])))
  }

  predicate AreSpelled(xs: seq<(string, string)>) {
    forall x <- xs :: IsKind(x.0) && AllDigits(x.1)
  }

  lemma {:induction false} SuffixesOf(xs: seq<(string, string)>) returns (ys: seq<Suffix>)
    requires AreSpelled(xs)
    ensures ValidSuffixes(ys) && PrintSuffixes(ys) == SpelledSuffixes(xs)
  {
    if xs == [] {
      ys := [];
    } else {
      var x := xs[0];
      assert x in xs;
      var k := if x.0 == "pre" then 0 else if x.0 == "p" then 1 else if x.0 == "beta" then 2
               else if x.0 == "alpha" then 3 else 4;
      assert NAMES[k] == x.0;
      var rest := SuffixesOf(xs[1..]);
      ys := [Suffix(k, x.1)] + rest;
      assert ys[1..] == rest;
      FirstSuffix(ys);
    }
  }

  // PN-number[letter][_name digits]*[-rREV] is read back for each of the names.
  lemma SpelledStemIsRead(pn: string, number: string, letter: string, xs: seq<(string, string)>, rev: Option<string>)
    requires NameText(pn) && NoHyphenDigit(pn) && IsDotted(number) && AreSpelled(xs) && ValidRevision(rev)
    requires letter == "" || (|letter| == 1 && IsLower(letter[0]))
    ensures var ver := number + (letter + SpelledSuffixes(xs));
            ParseStem(pn + ("-" + (ver + RevisionText(rev)))) ==
            Some(ParsedStem(pn, "", ver, if rev.Some? then rev.value else ""))
  {
    hide ParseStem, SpelledSuffixes, PrintSuffixes;
    var major, ms :| DottedOf(number, major, ms);
    var ys := SuffixesOf(xs);
    var v := Version(major, ms, letter, ys);
    assert major + (PrintMinors(ms) + (letter + SpelledSuffixes(xs))) == number + (letter + SpelledSuffixes(xs));
    ParseUndoesPrint(pn, v, rev);
  }

  // ---------- Two readings in full ----------

  lemma BoostIsRead()
    ensures ToPortage("boost-1.92.0.beta1") == Ok("1.92.0-beta1")
  {
    hide ToPortage;
    assert PrintMinors(["92", "0"]) == ".92.0" by {
      assert ["92", "0"][1..] == ["0"] && ["0"][1..] == [];
      assert PrintMinors(["0"]) == "." + "0" + PrintMinors([]) == ".0";
    }
    assert DottedOf("1.92.0", "1", ["92", "0"]);
    assert IsNamed("boost-") by { assert "boost-"[..5] == "boost"; }
    SpelledTagIsRead("boost-", "1.92.0", ".", "beta", "1");
    assert "boost-" + ("1.92.0" + ("." + ("beta" + "1"))) == "boost-1.92.0.beta1";
    assert "1.92.0" + ("-" + ("beta" + "1")) == "1.92.0-beta1";
  }

  lemma SthIsRead()
    ensures ParseStem("sth-1.2.3_beta1-r25") == Some(ParsedStem("sth", "", "1.2.3_beta1", "25"))
  {
    hide ParseStem, SpelledSuffixes, IsDotted;
    SthVersion();
    var xs := [("beta", "1")];
    SpelledStemIsRead("sth", "1.2.3", "", xs, Some("25"));
    assert "1.2.3" + ("" + "_beta1") == "1.2.3_beta1";
    assert RevisionText(Some("25")) == "-r" + "25" == "-r25";
    assert "sth" + ("-" + ("1.2.3_beta1" + "-r25")) == "sth-1.2.3_beta1-r25";
  }

  lemma SthVersion()
    ensures IsDotted("1.2.3") && SpelledSuffixes([("beta", "1")]) == "_beta1"
  {
    assert PrintMinors(["2", "3"]) == ".2.3" by {
      assert ["2", "3"][1..] == ["3"] && ["3"][1..] == [];
      assert PrintMinors(["3"]) == "." + "3" + PrintMinors([]) == ".3";
    }
    assert DottedOf("1.2.3", "1", ["2", "3"]);
    assert [("beta", "1")][1..] == [];
  }
}
