// The update loop as a whole: read the name, compare, edit and rename, and read the
// new name in the next run.
module UpdateTheorems {
  import opened Wrappers
  import opened TextSearch
  import opened ReplaceSpec
  import opened ReplaceTheorems
  import opened Matching
  import opened Grammar
  import opened EbuildName
  import opened EbuildNameTheorems
  import opened TagVersion
  import opened TagVersionTheorems
  import opened DateName
  import opened Decimal
  import opened Calendar
  import opened Update

  const EBUILD := ".ebuild"

  // ---------- The old version stands alone in the file name ----------

  ghost predicate DotsBeforeDigits(t: string) {
    forall i :: 0 <= i < |t| && t[i] == '.' ==> i + 1 < |t| && IsDigit(t[i + 1])
  }

  lemma DotsAppend(a: string, b: string)
    requires DotsBeforeDigits(a) && DotsBeforeDigits(b)
    ensures DotsBeforeDigits(a + b)
  {
    var t := a + b;
    forall i | 0 <= i < |t| && t[i] == '.'
      ensures i + 1 < |t| && IsDigit(t[i + 1])
    {
      if i < |a| {
        assert a[i] == '.';
      } else {
        assert b[i - |a|] == '.';
      }
    }
  }

  lemma DigitsHaveNoDot(t: string)
    requires AllDigits(t)
    ensures '.' !in t
  {
  }

  lemma {:induction false} MinorsDots(ms: seq<string>)
    requires AreNumbers(ms)
    ensures DotsBeforeDigits(PrintMinors(ms))
  {
    if ms != [] {
      var n := ms[0];
      assert IsNumber(n) && n[0] in n;
      DigitsHaveNoDot(n);
      assert DotsBeforeDigits("." + n);
      MinorsDots(ms[1..]);
      DotsAppend("." + n, PrintMinors(ms[1..]));
    }
  }

  lemma VersionDots(v: Version)
    requires ValidVersion(v)
    ensures DotsBeforeDigits(PrintVersion(v))
  {
    MinorsDots(v.minors);
    SuffixesAreFreeOf(v.suffixes, '.');
    DigitsHaveNoDot(v.major);
    DotsAppend(PrintMinors(v.minors), v.letter + PrintSuffixes(v.suffixes));
    DotsAppend(v.major, PrintMinors(v.minors) + (v.letter + PrintSuffixes(v.suffixes)));
  }

  // A text that is not interrupted: it has no hyphen and every dot in it is followed
  // by a digit. Between a hyphen and either a hyphen or ".e", it overlaps no other
  // occurrence of itself.
  lemma BetweenHyphens(f: string, w: string, p: nat)
    requires w != "" && '-' !in w && DotsBeforeDigits(w)
    requires 0 < p && OccursAt(f, w, p) && f[p - 1] == '-'
    requires p + |w| < |f|
    requires f[p + |w|] == '-' || (f[p + |w|] == '.' && p + |w| + 1 < |f| && !IsDigit(f[p + |w| + 1]))
    ensures Isolated(f, w, p)
  {
    forall q | OccursAt(f, w, q)
      ensures q == p || q + |w| <= p || p + |w| <= q
    {
      OccursWithin(f, w, q);
    }
  }

  function FileName(pn: string, v: Version, rev: Option<string>): string
    requires ValidVersion(v)
  {
    Stem(pn, v, rev) + EBUILD
  }

  // PN-new[-rREV].ebuild
  function FileNameWith(pn: string, new_: string, rev: Option<string>): string {
    pn + ("-" + (new_ + RevisionText(rev))) + EBUILD
  }

  lemma VersionIsIsolated(pn: string, v: Version, rev: Option<string>)
    requires ValidVersion(v) && ValidRevision(rev)
    ensures var f, w, p := FileName(pn, v, rev), PrintVersion(v), |pn| + 1;
            && w != "" && p + |w| <= |f| && Isolated(f, w, p)
            && f[..p] == pn + "-" && f[p + |w|..] == RevisionText(rev) + EBUILD
  {
    hide PrintVersion, Isolated, ValidVersion, DotsBeforeDigits, RevisionText, FileName, FileNameWith, OccursAt;
    var f, w, p := FileName(pn, v, rev), PrintVersion(v), |pn| + 1;
    VersionText(v);
    VersionDots(v);
    var tail := RevisionText(rev) + EBUILD;
    EndOfFileName(rev);
    ThreeParts(pn + "-", w, tail);
    SameFileName(pn, v, rev);
    FileNameInThreeParts(pn, w, rev);
    BetweenHyphens(f, w, p);
  }

  // Behind the version stands a hyphen or the extension.
  lemma EndOfFileName(rev: Option<string>)
    ensures var tail := RevisionText(rev) + EBUILD;
            |tail| >= 2 && (tail[0] == '-' || (tail[0] == '.' && !IsDigit(tail[1])))
  {
  }

  lemma ThreeParts(a: string, w: string, t: string)
    requires a != "" && |t| >= 2
    ensures var f, p, q := a + w + t, |a|, |a| + |w|;
            && f[..p] == a && OccursAt(f, w, p) && f[q..] == t
            && f[p - 1] == a[p - 1] && f[q] == t[0] && f[q + 1] == t[1]
  {
  }

  // Renaming exchanges the version and nothing else exactly when the old version
  // occurs once in the file name.
  lemma RenameIff(pn: string, v: Version, rev: Option<string>, new_: string)
    requires ValidVersion(v) && ValidRevision(rev) && new_ != PrintVersion(v)
    ensures PrintVersion(v) != ""
    ensures NewName(FileName(pn, v, rev), EditVerOrTag(PrintVersion(v), new_)) == FileNameWith(pn, new_, rev)
            <==> LeftCount(FileName(pn, v, rev), PrintVersion(v)) == 1
  {
    hide PrintVersion, ValidVersion, ValidRevision, Isolated, Replaced, LeftCount, FileName, FileNameWith, RevisionText;
    var f, w, p := FileName(pn, v, rev), PrintVersion(v), |pn| + 1;
    VersionIsIsolated(pn, v, rev);
    OnlyThatOccurrenceChangesIff(f, w, new_, p);
    FileNameInThreeParts(pn, new_, rev);
  }

  lemma FileNameInThreeParts(pn: string, new_: string, rev: Option<string>)
    ensures FileNameWith(pn, new_, rev) == (pn + "-") + new_ + (RevisionText(rev) + EBUILD)
  {
  }

  // ---------- String order ----------

  lemma {:induction false} LexLessIrreflexive(a: string)
    ensures !LexLess(a, a)
  {
    if a != "" {
      LexLessIrreflexive(a[1..]);
    }
  }

  lemma {:induction false} LexLessOfPrefix(a: string, b: string)
    requires b != ""
    ensures LexLess(a, a + b)
  {
    if a == "" {
      assert a + b == b;
    } else {
      assert (a + b)[1..] == a[1..] + b;
      LexLessOfPrefix(a[1..], b);
    }
  }

  // ---------- Fetched versions that carry a tag or a letter ----------

  // The version a dotted number stands for.
  lemma DottedVersion(t: string) returns (v: Version)
    requires IsDotted(t)
    ensures ValidVersion(v) && PrintVersion(v) == t
  {
    var major, ms :| DottedOf(t, major, ms);
    v := Version(major, ms, "", []);
    assert PrintMinors(ms) + ("" + "") == PrintMinors(ms);
  }

  lemma DashedHasNoHyphenDigit(x: string)
    requires x != "" ==> '-' !in x && !IsDigit(x[0])
    ensures NoHyphenDigit(Dashed(x))
  {
  }

  lemma TaggedTail(p: Parts, rev: Option<string>)
    requires WellShaped(p) && ValidRevision(rev) && (p.tag != "" || p.subver != "")
    ensures var tail := (Dashed(p.tag) + Dashed(p.subver)) + RevisionText(rev);
            tail[0] == '-' && NoHyphenDigit(tail) && NoRevisionAt(tail, 0)
  {
    if p.tag != "" {
      TagText(p.tag);
    }
    DashedHasNoHyphenDigit(p.tag);
    DashedHasNoHyphenDigit(p.subver);
    if rev.Some? {
      RevisionHasNoHyphenDigit(rev.value);
    }
    var d := Dashed(p.tag) + Dashed(p.subver);
    forall q
      ensures !HyphenDigit(d + RevisionText(rev), q)
    {
      if p.subver != "" {
        HyphenDigitOfAppend(Dashed(p.tag), Dashed(p.subver), q);
      }
      if rev.Some? {
        HyphenDigitOfAppend(d, RevisionText(rev), q);
      }
    }
  }

  lemma ShapeOf(p: Parts)
    requires WellShaped(p)
    ensures IsDotted(p.ver)
  {
  }

  // PN-ver[-tag][-letter][-rREV]
  function FetchedStem(pn: string, p: Parts, rev: Option<string>): string {
    pn + ("-" + (Joined(p) + RevisionText(rev)))
  }

  // The next run reads only the dotted number of the version it wrote itself.
  lemma ParseOfFetchedStem(pn: string, p: Parts, rev: Option<string>)
    requires NameText(pn) && NoHyphenDigit(pn) && WellShaped(p) && ValidRevision(rev)
    ensures ParseStem(FetchedStem(pn, p, rev)) ==
            Some(ParsedStem(pn, "", p.ver,
                            if p.tag == "" && p.subver == "" then RevisionNumber(rev) else ""))
  {
    hide ParseStem, PrintVersion, WellShaped;
    ShapeOf(p);
    var v := DottedVersion(p.ver);
    if p.tag == "" && p.subver == "" {
      ParseUndoesPrint(pn, v, rev);
      assert Joined(p) == p.ver;
    } else {
      var tail := (Dashed(p.tag) + Dashed(p.subver)) + RevisionText(rev);
      TaggedTail(p, rev);
      ParseDropsOtherTail(pn, v, tail);
      assert Joined(p) + RevisionText(rev) == p.ver + tail;
    }
  }

  lemma PrefixOfJoined(p: Parts)
    ensures Joined(p) == p.ver + (Dashed(p.tag) + Dashed(p.subver))
    ensures p.tag == "" && p.subver == "" ==> Joined(p) == p.ver
  {
  }

  // A hyphen in a fetched version comes from a tag or a letter.
  lemma HyphenOfFetched(p: Parts)
    requires WellShaped(p)
    ensures '-' in Joined(p) <==> p.tag != "" || p.subver != ""
  {
    hide IsDotted, IsTag;
    DottedText(p.ver);
    PrefixOfJoined(p);
    if p.tag != "" || p.subver != "" {
      var rest := Dashed(p.tag) + Dashed(p.subver);
      assert rest[0] == '-';
      assert Joined(p)[|p.ver|] == '-';
    }
  }

  // ---------- The commit bump ----------

  // Replacing digits by as many digits keeps the shape of the text.
  lemma {:induction false} ReplacingKeepsShape(s: string, w: string, v: string)
    requires w != "" && SameShape(w, v)
    ensures SameShape(s, ReplaceLeft(s, w, v))
    decreases |s|
  {
    hide Find, SplitLeft, Join, ReplaceLeft;
    ReplaceLeftStep(s, w, v);
    if Find(s, w, 0).Some? {
      FindIsLeftmost(s, w, 0);
      var p := Find(s, w, 0).value;
      var t := s[p + |w|..];
      ReplacingKeepsShape(t, w, v);
      assert s == s[..p] + w + t;
      ShapeOfThree(s[..p], w, t, v, ReplaceLeft(t, w, v));
    }
  }

  lemma ShapeOfThree(a: string, w: string, t: string, v: string, t': string)
    requires SameShape(w, v) && SameShape(t, t')
    ensures SameShape(a + w + t, a + v + t')
  {
  }

  // An occurrence no earlier one runs into is replaced where it stands.
  lemma {:induction false} UndisturbedOccurrence(s: string, w: string, v: string, p: nat)
    requires w != "" && |w| == |v| && OccursAt(s, w, p)
    requires forall q :: p - |w| < q < p ==> !OccursAt(s, w, q)
    ensures |ReplaceLeft(s, w, v)| == |s| && ReplaceLeft(s, w, v)[p..p + |w|] == v
    decreases |s|
  {
    hide Find, SplitLeft, Join, ReplaceLeft, OccursAt;
    OccursWithin(s, w, p);
    ReplacedLength(s, w, v);
    ReplacedIsLeft(s, w, v);
    ReplaceLeftStep(s, w, v);
    FindIsLeftmost(s, w, 0);
    var q := Find(s, w, 0).value;
    if q < p {
      var next := q + |w|;
      OccursInSuffix(s, w, next, p);
      UndisturbedInSuffix(s, w, p, next);
      UndisturbedOccurrence(s[next..], w, v, p - next);
      BehindTheFirst(s[..q], v, ReplaceLeft(s[next..], w, v), p - next, |w|);
    }
  }

  lemma UndisturbedInSuffix(s: string, w: string, p: nat, next: nat)
    requires next <= p <= |s|
    requires forall q :: p - |w| < q < p ==> !OccursAt(s, w, q)
    ensures forall i :: p - next - |w| < i < p - next ==> !OccursAt(s[next..], w, i)
  {
    forall i | p - next - |w| < i < p - next
      ensures !OccursAt(s[next..], w, i)
    {
      if i >= 0 {
        OccursInSuffix(s, w, next, i + next);
      }
    }
  }

  lemma BehindTheFirst(a: string, v: string, rest: string, i: nat, n: nat)
    requires i + n <= |rest|
    ensures (a + v + rest)[|a| + |v| + i..|a| + |v| + i + n] == rest[i..i + n]
  {
  }

  // What makes the first date of a stem move: nine equal digits at its front.
  predicate NineEqualDigits(s: string) {
    |s| >= 9 && IsDigit(s[0]) && forall i :: 0 <= i < 9 ==> s[i] == s[0]
  }

  lemma OverlapWithTheDate(s: string, p: nat, q: int)
    requires Window(s, p) && p - 8 < q < p
    requires OccursAt(s + EBUILD, s[p..p + 8], q)
    ensures 0 <= q && Window(s, q) && Window(s, q + 1)
    ensures forall i :: q <= i < q + 8 ==> s[i] == s[i + (p - q)]
  {
    var f, w := s + EBUILD, s[p..p + 8];
    OccursWithin(f, w, q);
    forall i | q <= i < q + 8
      ensures s[i] == s[i + (p - q)] && IsDigit(s[i])
    {
      assert f[i] == w[i - q] && w[i - q] in w;
    }
    assert IsDigit(s[q + 8]) by {
      assert w[q + 8 - p] == s[q + 8] && w[q + 8 - p] in w;
    }
  }

  lemma NineByShift(s: string)
    requires Window(s, 0) && |s| >= 9 && forall i :: 0 <= i < 8 ==> s[i] == s[i + 1]
    ensures NineEqualDigits(s)
  {
    assert s[0] in s[0..8];
    assert s[0] == s[1] == s[2] == s[3] == s[4] == s[5] == s[6] == s[7] == s[8];
  }

  lemma NothingBeforeTheDate(s: string, p: nat, q: int)
    requires DateAt(s, p) && !NineEqualDigits(s)
    requires p - 8 < q < p
    ensures !OccursAt(s + EBUILD, s[p..p + 8], q)
  {
    hide Window, NineEqualDigits, OccursAt;
    WindowInText(s, p);
    if OccursAt(s + EBUILD, s[p..p + 8], q) {
      OverlapWithTheDate(s, p, q);
      if q == 0 && p == 1 {
        NineByShift(s);
      }
    }
  }

  // The date pattern lands at the same place in a text of the same shape.
  lemma DateKeepsItsPlace(s: string, t: string, p: nat)
    requires SameShape(s, t) && FileText(s) && DateAt(s, p)
    ensures FileText(t) && DateAt(t, p)
  {
    forall c <- t
      ensures In(c, FileChar)
    {
      var i :| 0 <= i < |t| && t[i] == c;
      assert s[i] in s;
    }
    SameWindow(s, t, p);
    forall q | 1 <= q < p
      ensures !Window(t, q)
    {
      SameWindow(s, t, q);
    }
  }

  lemma SameWindow(s: string, t: string, q: nat)
    requires SameShape(s, t)
    ensures Window(s, q) <==> Window(t, q)
  {
    if q + 8 <= |s| {
      assert forall i :: q <= i < q + 8 ==> s[q..q + 8][i - q] == s[i] && t[q..q + 8][i - q] == t[i];
      assert forall i :: q <= i < q + 8 ==> (IsDigit(s[i]) <==> IsDigit(t[i]));
      if Window(s, q) {
        assert forall i :: q <= i < q + 8 ==> s[i] in s[q..q + 8];
      }
      if Window(t, q) {
        assert forall i :: q <= i < q + 8 ==> t[i] in t[q..q + 8];
      }
    }
  }

  // Old and new date as printed, and the stem after the bump.
  function BumpedName(s: string, oldDate: nat, newDate: nat): string {
    Replaced(s + EBUILD, PrintNat(oldDate), PrintNat(newDate))
  }

  function BumpedStem(s: string, oldDate: nat, newDate: nat): string {
    var f := BumpedName(s, oldDate, newDate);
    if |f| < |EBUILD| then "" else f[..|f| - |EBUILD|]
  }

  predicate EightDigits(n: nat) {
    1000_0000 <= n < 1_0000_0000
  }

  lemma EightDigitTexts(a: nat, b: nat)
    requires EightDigits(a) && EightDigits(b)
    ensures |PrintNat(a)| == 8 && SameShape(PrintNat(a), PrintNat(b))
    ensures a != b ==> PrintNat(a) != PrintNat(b)
  {
    hide PrintNat;
    EightDigitsPrinted(a);
    EightDigitsPrinted(b);
    NumOfPrint(a);
    NumOfPrint(b);
    var x, y := PrintNat(a), PrintNat(b);
    assert forall i :: 0 <= i < 8 ==> x[i] in x && y[i] in y;
  }

  // A bump keeps the extension and the shape of the stem.
  lemma BumpKeepsShape(s: string, oldDate: nat, newDate: nat)
    requires EightDigits(oldDate) && EightDigits(newDate)
    ensures BumpedName(s, oldDate, newDate) == BumpedStem(s, oldDate, newDate) + EBUILD
    ensures SameShape(s, BumpedStem(s, oldDate, newDate))
  {
    hide PrintNat, ReplaceLeft, Replaced;
    EightDigitTexts(oldDate, newDate);
    EightDigitTexts(newDate, oldDate);
    var f := s + EBUILD;
    ReplacingKeepsShape(f, PrintNat(oldDate), PrintNat(newDate));
    ReplacedIsLeft(f, PrintNat(oldDate), PrintNat(newDate));
    var g := BumpedName(s, oldDate, newDate);
    var t := g[..|s|];
    assert forall i :: 0 <= i < |EBUILD| ==> f[|s| + i] == EBUILD[i] && !IsDigit(EBUILD[i]);
    assert g[|s|..] == EBUILD;
    assert forall i :: 0 <= i < |s| ==> f[i] == s[i] && g[i] == t[i];
  }

  lemma ReplacedIsLeft(s: string, w: string, v: string)
    requires w != "" && |w| == |v|
    ensures Replaced(s, w, v) == ReplaceLeft(s, w, v)
  {
  }

  // The old date as printed stands where the pattern found it.
  lemma OldDateOccurs(s: string, p: nat, oldDate: nat)
    requires FileText(s) && DateAt(s, p) && DateOf(s) == Some(oldDate) && EightDigits(oldDate)
    ensures p + 8 <= |s| && s[p..p + 8] == PrintNat(oldDate) && OccursAt(s + EBUILD, PrintNat(oldDate), p)
  {
    hide DateOf, PrintNat, Num;
    DatePatternFindsFirstWindow(s, p);
    EightDigitNumeral(s[p..p + 8]);
    assert (s + EBUILD)[p..p + 8] == s[p..p + 8];
  }

  // The date the next run reads stands at the same place.
  lemma NextDate(s: string, p: nat, oldDate: nat, newDate: nat)
    requires FileText(s) && DateAt(s, p) && EightDigits(oldDate) && EightDigits(newDate)
    ensures var t := BumpedStem(s, oldDate, newDate);
            && Window(t, p) && DateOf(t) == Some(Num(t[p..p + 8]))
            && p + 8 <= |t| <= |BumpedName(s, oldDate, newDate)|
            && t[p..p + 8] == BumpedName(s, oldDate, newDate)[p..p + 8]
  {
    hide DateOf, Num, BumpedName, BumpedStem, SameShape, FileText, Window;
    var t := BumpedStem(s, oldDate, newDate);
    BumpKeepsShape(s, oldDate, newDate);
    DateKeepsItsPlace(s, t, p);
    DatePatternFindsFirstWindow(t, p);
    WindowInText(t, p);
  }

  lemma BumpLands(s: string, p: nat, oldDate: nat, newDate: nat)
    requires FileText(s) && DateAt(s, p) && DateOf(s) == Some(oldDate)
    requires EightDigits(oldDate) && EightDigits(newDate) && !NineEqualDigits(s)
    ensures DateOf(BumpedStem(s, oldDate, newDate)) == Some(newDate)
  {
    hide DateOf, PrintNat, Num, Replaced, ReplaceLeft, NineEqualDigits, FileText, OccursAt, SameShape;
    var f, w, v := s + EBUILD, PrintNat(oldDate), PrintNat(newDate);
    OldDateOccurs(s, p, oldDate);
    EightDigitTexts(oldDate, newDate);
    EightDigitTexts(newDate, oldDate);
    forall q | p - |w| < q < p
      ensures !OccursAt(f, w, q)
    {
      NothingBeforeTheDate(s, p, q);
    }
    UndisturbedOccurrence(f, w, v, p);
    ReplacedIsLeft(f, w, v);
    NextDate(s, p, oldDate, newDate);
    NumOfPrint(newDate);
  }

  // Eight equal digits are not a date later than eight other equal digits: only
  // 11111111 is one.
  lemma EqualDigitDates(date: Date, v: string, d: char)
    requires date.month <= 12 && 0 <= date.month && 0 <= date.day <= 31 && '1' <= d <= '9'
    requires |v| == 8 && AllDigits(v) && forall i :: 0 <= i < 8 ==> v[i] == v[0]
    requires Num(v) == date.year * 10000 + date.month * 100 + date.day
    ensures Num(v) <= (d as int - '0' as int) * 1111_1111
  {
    hide Num;
    assert IsDigit(v[0]) by { assert v[0] in v; }
    EightEqualDigits(v);
    var x := v[0] as int - '0' as int;
    MonthOfEqualDigits(x);
    Unpacked(date.year, date.month, date.day);
    assert date.month == x * 11;
  }

  lemma MonthOfEqualDigits(x: int)
    requires 0 <= x <= 9
    ensures x * 1111_1111 / 100 % 100 == x * 11
  {
    Unpacked(x * 1111, x * 11, x * 11);
  }

  lemma BumpMoves(s: string, p: nat, oldDate: nat, stamp: Stamp)
    requires FileText(s) && DateAt(s, p) && DateOf(s) == Some(oldDate)
    requires ValidStamp(stamp) && NineEqualDigits(s) && EightDigits(oldDate)
    requires oldDate < PackedDate(Seconds(stamp)) && EightDigits(PackedDate(Seconds(stamp)))
    ensures DateOf(BumpedStem(s, oldDate, PackedDate(Seconds(stamp)))) != Some(PackedDate(Seconds(stamp)))
  {
    hide DateOf, PrintNat, Num, Replaced, ReplaceLeft, FileText, SameShape, PackedDate, Seconds, BumpedName,
      BumpedStem;
    var newDate := PackedDate(Seconds(stamp));
    var f, w, v := s + EBUILD, PrintNat(oldDate), PrintNat(newDate);
    EightDigitTexts(oldDate, newDate);
    OldDateOccurs(s, p, oldDate);
    FrontWindow(s);
    assert p == 1;
    assert w == s[0..8] == f[0..8] by { EqualFront(s); }
    FrontIsReplaced(s, oldDate, newDate);
    NextDate(s, 1, oldDate, newDate);
    var t := BumpedStem(s, oldDate, newDate);
    var g := BumpedName(s, oldDate, newDate);
    if DateOf(t) == Some(newDate) {
      EightDigitNumeral(t[1..9]);
      ShiftedCopies(g, v);
      NumOfPrint(newDate);
      EightEqualDigits(w);
      NumOfPrint(oldDate);
      PackedDateOfStamp(stamp);
      MonthHasDays(stamp.date.year, stamp.date.month);
      EqualDigitDates(stamp.date, v, w[0]);
    }
  }

  lemma FrontWindow(s: string)
    requires NineEqualDigits(s)
    ensures Window(s, 1)
  {
  }

  lemma EqualFront(s: string)
    requires NineEqualDigits(s)
    ensures s[1..9] == s[0..8]
  {
  }

  lemma FrontIsReplaced(s: string, oldDate: nat, newDate: nat)
    requires EightDigits(oldDate) && EightDigits(newDate)
    requires |s| >= 8 && s[0..8] == PrintNat(oldDate)
    ensures |BumpedName(s, oldDate, newDate)| >= 8
    ensures BumpedName(s, oldDate, newDate)[..8] == PrintNat(newDate)
  {
    hide PrintNat, ReplaceLeft, Replaced, SameShape, Find;
    EightDigitTexts(oldDate, newDate);
    EightDigitTexts(newDate, oldDate);
    var f, w, v := s + EBUILD, PrintNat(oldDate), PrintNat(newDate);
    ReplacedIsLeft(f, w, v);
    ReplaceLeftStep(f, w, v);
    assert f[0..8] == s[0..8];
    assert OccursAt(f, w, 0);
    FindIsLeftmost(f, w, 0);
  }

  // A text that begins with v and repeats it one place further on is one character
  // over and over.
  lemma ShiftedCopies(g: string, v: string)
    requires |v| == 8 && |g| >= 9 && g[..8] == v && g[1..9] == v
    ensures forall i :: 0 <= i < 8 ==> v[i] == v[0]
  {
    forall i | 1 <= i < 8
      ensures v[i] == v[i - 1]
    {
      assert v[i] == g[..8][i] && v[i - 1] == g[1..9][i - 1];
    }
    assert v[0] == v[1] == v[2] == v[3] == v[4] == v[5] == v[6] == v[7];
  }

  // What stands before every occurrence is not touched.
  lemma {:induction false} UntouchedFront(s: string, w: string, v: string, m: nat)
    requires w != "" && m <= |s| && forall q :: OccursAt(s, w, q) ==> m <= q
    ensures ReplaceRight(s, w, v) == s[..m] + ReplaceRight(s[m..], w, v)
    decreases |s|
  {
    hide ReplaceRight, OccursAt, LastOccurrence;
    LastOccurrenceIsRightmost(s, w);
    LastOccurrenceIsRightmost(s[m..], w);
    ReplaceRightStep(s, w, v);
    ReplaceRightStep(s[m..], w, v);
    match LastOccurrence(s, w) {
      case None =>
        if LastOccurrence(s[m..], w).Some? {
          OccursInSuffix(s, w, m, LastOccurrence(s[m..], w).value + m);
        }
      case Some(p) =>
        LastOccurrenceInSuffix(s, w, m);
        forall q | OccursAt(s[..p], w, q)
          ensures m <= q
        {
          OccursInPrefix(s, w, p, q);
        }
        UntouchedFront(s[..p], w, v, m);
        assert s[..p][m..] == s[m..][..p - m] && s[..p][..m] == s[..m];
        assert s[m..][p - m + |w|..] == s[p + |w|..];
    }
  }

  // Digits written for digits leave digits.
  lemma {:induction false} DigitsStay(x: string, w: string, v: string, k: nat)
    requires w != "" && |w| <= |v| && AllDigits(v)
    requires k <= |x| && AllDigits(x[..k]) && (k <= |v| || k == |x|)
    ensures |ReplaceRight(x, w, v)| >= k && AllDigits(ReplaceRight(x, w, v)[..k])
    ensures k == |x| ==> AllDigits(ReplaceRight(x, w, v))
    decreases |x|
  {
    hide ReplaceRight, LastOccurrence, IsDigit;
    ReplaceRightStep(x, w, v);
    match LastOccurrence(x, w) {
      case None =>
        assert k == |x| ==> x[..k] == x;
      case Some(p) =>
        var j := if p < k then p else k;
        assert x[..p][..j] == x[..k][..j];
        assert AllDigits(x[..p][..j]) by { assert forall c <- x[..k][..j] :: c in x[..k]; }
        assert k == |x| ==> p < k;
        DigitsStay(x[..p], w, v, j);
        assert k == |x| ==> AllDigits(x[p + |w|..]) by { assert forall c <- x[p + |w|..] :: c in x; }
    }
  }

  ghost predicate PrintedFromDateOn(s: string, date: nat) {
    forall p, q :: DateAt(s, p) && OccursAt(s + EBUILD, PrintNat(date), q) ==> p <= q
  }

  // A date with a leading zero is printed without it, so that the zero stays in front of
  // the new date.
  lemma LeadingZeroStays(s: string, p: nat, oldDate: nat, newDate: nat)
    requires FileText(s) && DateAt(s, p) && DateOf(s) == Some(oldDate)
    requires 0 < oldDate < 1000_0000 && EightDigits(newDate) && PrintedFromDateOn(s, oldDate)
    ensures DateOf(BumpedStem(s, oldDate, newDate)) != Some(newDate)
  {
    hide DateOf, PrintNat, Num, Replaced, ReplaceRight, OccursAt, FileText;
    var f, w, v, t := s + EBUILD, PrintNat(oldDate), PrintNat(newDate), BumpedStem(s, oldDate, newDate);
    ZeroInFront(s, p, oldDate);
    EightDigitsPrinted(newDate);
    forall q | OccursAt(f, w, q)
      ensures p + 1 <= q
    {
      assert p <= q;
      OccursWithin(f, w, q);
      assert f[q] == w[0] && f[p] == s[p];
    }
    UntouchedFront(f, w, v, p + 1);
    var x := f[p + 1..];
    assert x[..7] == s[p..p + 8][1..];
    assert AllDigits(x[..7]) by { assert forall c <- x[..7] :: c in s[p..p + 8]; }
    DigitsStay(x, w, v, 7);
    ReplacedLength(f, w, v);
    LengthGrows(LeftCount(f, w), |v| - |w|);
    assert BumpedName(s, oldDate, newDate) == ReplaceRight(f, w, v) by { ReplacedIsRight(f, w, v); }
    assert |t| >= |s| && t <= ReplaceRight(f, w, v);
    assert t[..p + 1] == s[..p + 1];
    assert t[p + 1..p + 8] == ReplaceRight(x, w, v)[..7];
    StillFirst(s, t, p);
    if DateOf(t).Some? {
      var r := DateOfNeedsWindow(t);
      DatePatternFindsFirstWindow(t, r);
      assert r == p;
      assert Pow10(7) == 1000_0000 by { Pow7And8(); }
      LeadingZeroShrinks(t[p..p + 8]);
    }
  }

  lemma ZeroInFront(s: string, p: nat, oldDate: nat)
    requires FileText(s) && DateAt(s, p) && DateOf(s) == Some(oldDate) && 0 < oldDate < 1000_0000
    ensures p + 8 <= |s| && s[p] == '0' && AllDigits(s[p..p + 8])
    ensures PrintNat(oldDate)[0] != '0' && |PrintNat(oldDate)| < 8
  {
    hide DateOf, PrintNat, Num, FileText;
    DatePatternFindsFirstWindow(s, p);
    NumBounds(s[p..p + 8]);
    NoLeadingZero(oldDate);
    NumOfPrint(oldDate);
    NumBounds(PrintNat(oldDate));
    Pow7And8();
    if |PrintNat(oldDate)| >= 8 {
      PowGrows(7, |PrintNat(oldDate)| - 1);
    }
  }

  lemma LengthGrows(n: nat, d: int)
    requires d >= 0
    ensures n * d >= 0
  {
  }

  lemma ReplacedIsRight(s: string, w: string, v: string)
    requires w != "" && |w| < |v|
    ensures Replaced(s, w, v) == ReplaceRight(s, w, v)
  {
  }

  // The front is the same and digits follow, so the first date starts where it did.
  lemma StillFirst(s: string, t: string, p: nat)
    requires DateAt(s, p) && p + 8 <= |t| && t[..p + 1] == s[..p + 1] && AllDigits(t[p + 1..p + 8])
    ensures DateAt(t, p)
  {
    forall i | p <= i < p + 8
      ensures IsDigit(t[i])
    {
      if i == p {
        assert t[i] == t[..p + 1][i] == s[..p + 1][i] == s[p..p + 8][0];
      } else {
        assert t[i] == t[p + 1..p + 8][i - p - 1];
      }
    }
    forall q | 1 <= q < p
      ensures !Window(t, q)
    {
      SharedWindow(s, t, p, q);
    }
  }

  lemma SharedWindow(s: string, t: string, p: nat, q: nat)
    requires Window(s, p) && p + 8 <= |t| && t[..p + 1] == s[..p + 1] && q < p
    ensures Window(t, q) ==> Window(s, q)
  {
    if Window(t, q) {
      forall i | q <= i < q + 8
        ensures IsDigit(s[i])
      {
        if i < p {
          assert s[i] == s[..p + 1][i] == t[..p + 1][i] == t[q..q + 8][i - q];
        } else {
          assert s[i] == s[p..p + 8][i - p];
        }
      }
    }
  }

  // After a commit bump the stem shows exactly the new date, unless the stem begins
  // with nine equal digits or the old date has a leading zero.
  lemma CommitBumpLandsIff(s: string, oldDate: nat, stamp: Stamp)
    requires DateOf(s) == Some(oldDate)
    requires EightDigits(oldDate) || (0 < oldDate && PrintedFromDateOn(s, oldDate))
    requires ValidStamp(stamp) && stamp.date.year >= 1000
    requires oldDate < PackedDate(Seconds(stamp))
    ensures DateOf(BumpedStem(s, oldDate, PackedDate(Seconds(stamp)))) == Some(PackedDate(Seconds(stamp)))
            <==> EightDigits(oldDate) && !NineEqualDigits(s)
  {
    hide DateOf, BumpedStem, NineEqualDigits, PackedDate, Seconds, FileText, PrintedFromDateOn;
    EightDigitsIff(stamp);
    var p := DateOfNeedsWindow(s);
    if !EightDigits(oldDate) {
      LeadingZeroStays(s, p, oldDate, PackedDate(Seconds(stamp)));
    } else if NineEqualDigits(s) {
      BumpMoves(s, p, oldDate, stamp);
    } else {
      BumpLands(s, p, oldDate, PackedDate(Seconds(stamp)));
    }
  }

  // ---------- The next run after a commit bump ----------

  lemma {:induction false} TextIsDigitBlind(t: string)
    requires forall c <- t :: !IsDigit(c)
    ensures DigitBlind(Text(t))
  {
    if t != "" {
      assert t[0] in t && forall c <- t[1..] :: c in t;
      TextIsDigitBlind(t[1..]);
    }
  }

  lemma {:induction false} OneOfIsDigitBlind(ts: seq<string>)
    requires |ts| >= 1 && forall t <- ts :: forall c <- t :: !IsDigit(c)
    ensures DigitBlind(OneOf(ts))
  {
    assert ts[0] in ts && forall t <- ts[1..] :: t in ts;
    TextIsDigitBlind(ts[0]);
    if |ts| > 1 {
      OneOfIsDigitBlind(ts[1..]);
    }
  }

  lemma VersionPatternIsDigitBlind()
    ensures DigitBlind(VersionPattern()) && DigitBlind(Digits())
  {
    hide OneOf;
    OneOfIsDigitBlind(NAMES);
    assert DigitBlind(AnyDigits());
    assert DigitBlind(Seq(Lit('.'), Digits()));
    assert DigitBlind(Minors());
    assert DigitBlind(Seq(SuffixName(), AnyDigits()));
    assert DigitBlind(OneSuffix());
    assert DigitBlind(SuffixLoop());
    assert DigitBlind(Opt(Class(Lower)));
    assert DigitBlind(Seq(Opt(Class(Lower)), SuffixLoop()));
    assert DigitBlind(Seq(Minors(), Seq(Opt(Class(Lower)), SuffixLoop())));
  }

  lemma PatternIsDigitBlind()
    ensures DigitBlind(Pattern())
  {
    hide VersionPattern, Digits, Text;
    VersionPatternIsDigitBlind();
    TextIsDigitBlind("-r");
    var revision := Seq(Open("rev"), Seq(Digits(), Close("rev")));
    assert DigitBlind(Seq(Digits(), Close("rev")));
    assert DigitBlind(revision);
    assert DigitBlind(Seq(Text("-r"), revision));
    assert DigitBlind(RevisionPart());
    assert DigitBlind(Seq(VersionPattern(), Seq(Close("ver"), RevisionPart())));
    assert DigitBlind(Seq(Lit('-'), Seq(Open("ver"), Seq(VersionPattern(), Seq(Close("ver"), RevisionPart())))));
    assert DigitBlind(AfterName());
    assert DigitBlind(Seq(Text("-r"), Digits()));
    assert DigitBlind(Seq(Opt(Seq(Text("-r"), Digits())), Close("pn_inval")));
    assert DigitBlind(Seq(VersionPattern(), Seq(Opt(Seq(Text("-r"), Digits())), Close("pn_inval"))));
    assert DigitBlind(InvalidPart());
    assert DigitBlind(NameEnd());
    assert DigitBlind(Seq(Star(Class(NameChar), false), NameEnd()));
    assert DigitBlind(Seq(Class(Word), Seq(Star(Class(NameChar), false), NameEnd())));
  }

  lemma {:induction false} CaptureLengths(ms: seq<Match>, group: string, s: string, t: string)
    requires |s| == |t|
    ensures |LastCapture(ms, group, s)| == |LastCapture(ms, group, t)|
  {
    if ms != [] && group !in ms[|ms| - 1].last.caps {
      CaptureLengths(ms[..|ms| - 1], group, s, t);
    }
  }

  // A text of the same shape is a name, and a name of a valid package, if and only if
  // the other one is.
  lemma ShapeKeepsValidity(s: string, t: string)
    requires SameShape(s, t)
    ensures ParseStem(s).Some? <==> ParseStem(t).Some?
    ensures ParseStem(s).Some? ==> (ParseStem(s).value.pn_inval == "" <==> ParseStem(t).value.pn_inval == "")
  {
    hide Pattern, FindAll, FindFrom, DigitBlind, LastCapture;
    PatternIsDigitBlind();
    FindAllDependsOnShape(Pattern(), s, t, 0);
    CaptureLengths(FindAll(Pattern(), s, 0), "pn_inval", s, t);
  }

  // ---------- The file that is written ----------

  lemma OverwriteIsExactIff(old_: string, content: string)
    ensures Overwritten(old_, content) == content <==> |old_| <= |content|
  {
    if |old_| > |content| {
      assert |Overwritten(old_, content)| == |old_|;
    }
  }

  // With commits of equal length, and a worktree file as long as the source file, the
  // file afterwards is exactly the edited content.
  lemma CommitFileIsExact(source: string, old_: string, oldCommit: string, newCommit: string)
    requires oldCommit != "" && |oldCommit| == |newCommit| && |old_| == |source|
    ensures Overwritten(old_, Replaced(source, oldCommit, newCommit)) == Replaced(source, oldCommit, newCommit)
    ensures |Replaced(source, oldCommit, newCommit)| == |source|
  {
    hide Replaced, LeftCount;
    ReplacedLength(source, oldCommit, newCommit);
    OverwriteIsExactIff(old_, Replaced(source, oldCommit, newCommit));
  }

  // An edit with a lost commit deletes the old commit and leaves a stale tail behind
  // whenever the old commit occurs at all.
  lemma LostCommitLeavesStaleTail(source: string, old_: string, oldCommit: string)
    requires oldCommit != "" && |old_| == |source|
    ensures Overwritten(old_, Replaced(source, oldCommit, "")) == Replaced(source, oldCommit, "")
            <==> LeftCount(source, oldCommit) == 0
  {
    hide Replaced, LeftCount, Overwritten;
    ReplacedLength(source, oldCommit, "");
    OverwriteIsExactIff(old_, Replaced(source, oldCommit, ""));
    Shrinks(LeftCount(source, oldCommit), |oldCommit|);
  }

  lemma Shrinks(n: nat, k: nat)
    requires k > 0
    ensures n * (0 - k) >= 0 <==> n == 0
  {
  }

  // ---------- Reading an ebuild ----------

  // What is known about an ebuild with a well-formed name.
  lemma InfoOfStem(pn: string, v: Version, rev: Option<string>, env: Environment)
    requires NameText(pn) && NoHyphenDigit(pn) && ValidVersion(v) && ValidRevision(rev)
    ensures IsReadable(Stem(pn, v, rev), Some(env)) ==>
              var info := InfoOf(Stem(pn, v, rev), env);
              && info.pn == pn && info.ver == PrintVersion(v) && info.rev == (if rev.Some? then rev.value else "")
              && Some(info.service) == env.service && info.segs == env.segs
  {
    hide PrintVersion, ParseStem, Stem, DateOf, FirstHash;
    ParseUndoesPrint(pn, v, rev);
  }

  // ---------- The directory after an attempt ----------

  // A commit is written if it can be, and then moved if it can be: the file holds the
  // edited text, and behind it what was there before.
  lemma CommitAttemptLeaves(files: map<string, string>, name: string, variable: string, o: CommitInfo, n: CommitInfo,
                            source: Source, steps: Steps)
    requires o.commit != ""
    ensures var after := FilesAfter(files, EditCommit(variable, o, n), name, source, steps);
            var to := if steps.rename then NewName(name, EditCommit(variable, o, n)) else name;
            if name in files && source.Content? && steps.write then
              var content := Replaced(source.text, o.commit, n.commit);
              && after.Keys == files.Keys - {name} + {to}
              && |after[to]| == (if |files[name]| > |content| then |files[name]| else |content|)
              && (forall i :: 0 <= i < |after[to]| ==>
                    after[to][i] == if i < |content| then content[i] else files[name][i])
              && forall k <- files :: k != name && k != to ==> after[k] == files[k]
            else after == files
  {
    hide NewName, Replaced, Overwritten;
    if name in files && source.Content? {
      OverwrittenText(files[name], Replaced(source.text, o.commit, n.commit));
    }
  }

  // A version is only moved, if it can be, and whatever becomes of the manifest.
  lemma VersionAttemptLeaves(files: map<string, string>, name: string, o: string, n: string, source: Source,
                             steps: Steps)
    requires o != ""
    ensures var after := FilesAfter(files, EditVerOrTag(o, n), name, source, steps);
            var to := NewName(name, EditVerOrTag(o, n));
            if name in files && steps.rename then
              && after.Keys == files.Keys - {name} + {to} && after[to] == files[name]
              && forall k <- files :: k != name && k != to ==> after[k] == files[k]
            else after == files
  {
    hide NewName, Replaced;
  }

  // ---------- The directory after a bump ----------

  const ALL_SUCCEED := Steps(true, true, true)

  // A version bump moves the ebuild to its new name and leaves every content as it was.
  lemma VersionBumpOnDisk(files: map<string, string>, pn: string, v: Version, rev: Option<string>, new_: Version,
                          source: Source)
    requires ValidVersion(v) && ValidVersion(new_) && ValidRevision(rev)
    requires PrintVersion(new_) != PrintVersion(v)
    requires FileName(pn, v, rev) in files && LeftCount(FileName(pn, v, rev), PrintVersion(v)) == 1
    ensures PrintVersion(v) != ""
    ensures FilesAfter(files, EditVerOrTag(PrintVersion(v), PrintVersion(new_)), FileName(pn, v, rev), source,
                       ALL_SUCCEED)
            == Renamed(files, FileName(pn, v, rev), FileName(pn, new_, rev))
  {
    hide FileName, FileNameWith, LeftCount, PrintVersion, Renamed, ValidVersion;
    RenameIff(pn, v, rev, PrintVersion(new_));
    assert FileName(pn, new_, rev) == FileNameWith(pn, PrintVersion(new_), rev) by { SameFileName(pn, new_, rev); }
  }

  lemma SameFileName(pn: string, v: Version, rev: Option<string>)
    requires ValidVersion(v)
    ensures FileName(pn, v, rev) == FileNameWith(pn, PrintVersion(v), rev)
  {
    hide PrintVersion;
  }

  // A commit bump leaves the edited content, and nothing else, under the new name
  // exactly when the file it overwrites is not longer than the edited content.
  lemma CommitBumpOnDiskIff(files: map<string, string>, name: string, variable: string, o: CommitInfo, n: CommitInfo,
                            source: string)
    requires name in files && o.commit != ""
    ensures var edit := EditCommit(variable, o, n);
            FilesAfter(files, edit, name, Content(source), ALL_SUCCEED)
            == (files - {name})[NewName(name, edit) := Replaced(source, o.commit, n.commit)]
            <==> |files[name]| <= |source| + LeftCount(source, o.commit) * (|n.commit| - |o.commit|)
  {
    hide Replaced, LeftCount, Overwritten, NewName;
    var edit := EditCommit(variable, o, n);
    var to, content := NewName(name, edit), Replaced(source, o.commit, n.commit);
    ReplacedLength(source, o.commit, n.commit);
    OverwriteIsExactIff(files[name], content);
    var after := FilesAfter(files, edit, name, Content(source), ALL_SUCCEED);
    assert after == (files - {name})[to := Overwritten(files[name], content)];
    assert after[to] == Overwritten(files[name], content);
  }

  lemma RevisionTextsDiffer(a: Option<string>, b: Option<string>)
    ensures RevisionText(a) == RevisionText(b) <==> a == b
  {
    if a.Some? && b.Some? {
      assert RevisionText(a)[2..] == a.value && RevisionText(b)[2..] == b.value;
    }
  }

  lemma NewNamesDiffer(pn: string, n: string, a: Option<string>, b: Option<string>)
    ensures FileNameWith(pn, n, a) == FileNameWith(pn, n, b) <==> a == b
  {
    hide RevisionText;
    RevisionTextsDiffer(a, b);
    FileNameInThreeParts(pn, n, a);
    FileNameInThreeParts(pn, n, b);
    var front := (pn + "-") + n;
    var f, g := FileNameWith(pn, n, a), FileNameWith(pn, n, b);
    assert f[|front|..|f| - |EBUILD|] == RevisionText(a) && g[|front|..|g| - |EBUILD|] == RevisionText(b);
  }
}
