// Inputs at which properties fail that one would like the code to have. When they hold
// is said by the theorems of the other modules.
module Failures {
  import opened Wrappers
  import opened TextSearch
  import opened ReplaceSpec
  import opened ReplaceTheorems
  import opened Matching
  import opened Grammar
  import opened Decimal
  import opened Calendar
  import opened EbuildName
  import opened EbuildNameTheorems
  import opened TagVersion
  import opened TagVersionTheorems
  import opened DateName
  import opened Update
  import opened UpdateTheorems
  import opened Github
  import opened PerEbuild
  import opened NextRun
  import opened Directory
  import opened Collect
  import opened Groups
  import opened Dispatch

  // ---------- Tags ----------

  // A letter is lost when a result is read again.
  lemma LetterIsLost()
    ensures ToPortage("1a") == Ok("1-a") && ToPortage("1-a") == Ok("1")
  {
    hide ToPortage;
    OneIsDotted();
    assert IsSubver("a");
    LetterIsSplitOff("", "1", "a");
    assert "" + ("1" + "a") == "1a" && "1" + ("-" + "a") == "1-a";
    ReadingAResultAgain(Parts("1", "", "a"));
    assert Joined(Parts("1", "", "a")) == "1-a" && "1" + Dashed("") == "1";
  }

  lemma OneIsDotted()
    ensures IsDotted("1")
  {
    assert "1" == "1" + PrintMinors([]);
    assert DottedOf("1", "1", []);
  }

  // ---------- Renames ----------

  lemma AbsentNeedle(s: string, w: string, v: string, c: char)
    requires c in w && c !in s
    ensures Replaced(s, w, v) == s
  {
    hide Find, RFind, ReplaceLeft, ReplaceRight;
    LastOccurrenceIsRightmost(s, w);
    FirstAndLast(s, w);
    if LastOccurrence(s, w).Some? {
      OccurrenceCarries(s, w, LastOccurrence(s, w).value, c);
    }
    ReplaceLeftStep(s, w, v);
    ReplaceRightStep(s, w, v);
  }

  // A needle of one character, with a text on each side that is known already.
  lemma ReplacingOneChar(a: string, c: char, b: string, v: string)
    ensures Replaced(a + [c] + b, [c], v) == Replaced(a, [c], v) + v + Replaced(b, [c], v)
  {
    hide Replaced;
    var s := a + [c] + b;
    assert s[|a|..|a| + 1] == [c];
    ReplacedAtIsolated(s, [c], v, |a|);
    assert s[..|a|] == a && s[|a| + 1..] == b;
  }

  // The version also stands in the name of the package, and is exchanged there twice.
  lemma NameIsExchangedToo()
    ensures NewName("foo11-1.ebuild", EditVerOrTag("1", "2024")) == "foo20242024-2024.ebuild"
  {
    hide Replaced;
    AbsentNeedle("foo", "1", "2024", '1');
    AbsentNeedle("", "1", "2024", '1');
    AbsentNeedle("-", "1", "2024", '1');
    AbsentNeedle(".ebuild", "1", "2024", '1');
    ReplacingOneChar("-", '1', ".ebuild", "2024");
    ReplacingOneChar("", '1', "-" + ['1'] + ".ebuild", "2024");
    ReplacingOneChar("foo", '1', "" + ['1'] + ("-" + ['1'] + ".ebuild"), "2024");
    assert "foo" + ['1'] + ("" + ['1'] + ("-" + ['1'] + ".ebuild")) == "foo11-1.ebuild";
  }

  lemma FooIsRenamed(old_: char, n: string)
    requires IsDigit(old_)
    ensures NewName("foo-" + [old_] + ".ebuild", EditVerOrTag([old_], n)) == "foo-" + n + ".ebuild"
  {
    hide Replaced;
    AbsentNeedle("foo-", [old_], n, old_);
    AbsentNeedle(".ebuild", [old_], n, old_);
    ReplacingOneChar("foo-", old_, ".ebuild", n);
  }

  // Two releases of foo are bumped to 3, and only the second is left.
  lemma OneOfTwoIsLost()
    ensures var files := map["foo-1.ebuild" := "a", "foo-2.ebuild" := "b"];
            var once := FilesAfter(files, EditVerOrTag("1", "3"), "foo-1.ebuild", Absent, ALL_SUCCEED);
            FilesAfter(once, EditVerOrTag("2", "3"), "foo-2.ebuild", Absent, ALL_SUCCEED) == map["foo-3.ebuild" := "b"]
  {
    hide NewName;
    FooIsRenamed('1', "3");
    FooIsRenamed('2', "3");
    assert "foo-" + ['1'] + ".ebuild" == "foo-1.ebuild" && "foo-" + ['2'] + ".ebuild" == "foo-2.ebuild";
    assert "foo-" + "3" + ".ebuild" == "foo-3.ebuild";
    var files := map["foo-1.ebuild" := "a", "foo-2.ebuild" := "b"];
    var once := FilesAfter(files, EditVerOrTag("1", "3"), "foo-1.ebuild", Absent, ALL_SUCCEED);
    assert once == map["foo-2.ebuild" := "b", "foo-3.ebuild" := "a"];
  }

  // ---------- Releases ----------

  lemma FooStem(t: string)
    requires IsNumber(t)
    ensures ParseStem("foo-" + t) == Some(ParsedStem("foo", "", t, ""))
  {
    hide ParseStem;
    var v := Version(t, [], "", []);
    assert PrintVersion(v) == t + ("" + ("" + "")) == t;
    ParseUndoesPrint("foo", v, None);
    assert Stem("foo", v, None) == "foo-" + t;
  }

  // The first run on foo-1, for a version that the feed of releases names.
  lemma FooIsOutdated(web: Web, link: seq<string>, stamp: int, n: string)
    requires web("w", "foo", Releases) == Ok([Child(true, link, stamp)])
    requires |link| > 4 && ToPortage(link[4]) == Ok(n) && LexLess("1", n)
    ensures var env := Environment([], Some(GithubService), ["w", "foo"]);
            && LatestInfo(GithubService, ["w", "foo"], web, false) == Ok(FetchedVersion(n))
            && Proposes("foo-1", Some(env), web, EditVerOrTag("1", n))
            && NewName("foo-1.ebuild", EditVerOrTag("1", n)) == "foo-" + n + ".ebuild"
  {
    hide ParseStem, ToPortage, DateOf, NewName, LexLess, Window;
    var env := Environment([], Some(GithubService), ["w", "foo"]);
    assert FirstEntry([Child(true, link, stamp)]) == Some(Child(true, link, stamp));
    FooStem("1");
    FooIsRenamed('1', n);
    assert "foo-" + "1" == "foo-1" && "foo-" + ['1'] + ".ebuild" == "foo-1.ebuild";
    assert DateOf("foo-1").None? by { HoldsDateIff("foo-1"); ShortHasNoWindow("foo-1"); }
    ReleaseOutcome("foo-1", env, web, n);
  }

  // foo is bumped to 20240101, and the next run cannot read it.
  lemma DateLikeVersionIsLost(web: Web, link: seq<string>, stamp: int)
    requires web("w", "foo", Releases) == Ok([Child(true, link, stamp)])
    requires |link| > 4 && link[4] == "20240101"
    ensures var env := Some(Environment([], Some(GithubService), ["w", "foo"]));
            && Proposes("foo-1", env, web, EditVerOrTag("1", "20240101"))
            && NewName("foo-1.ebuild", EditVerOrTag("1", "20240101")) == "foo-20240101.ebuild"
            && DateOf("foo-20240101").Some? && StageFails("foo-20240101", env, web)
  {
    hide NewName, ParseStem, ToPortage, DateOf, Proposes, FileText, Window;
    PlainNumber("20240101");
    assert LexLess("1", "20240101");
    FooIsOutdated(web, link, stamp, "20240101");
    assert "foo-" + "20240101" + ".ebuild" == "foo-20240101.ebuild";
    DatedText("foo-20240101");
    HoldsDateIff("foo-20240101");
  }

  lemma PlainNumber(t: string)
    requires IsNumber(t)
    ensures ToPortage(t) == Ok(t)
  {
    hide ToPortage;
    assert t == t + PrintMinors([]);
    assert DottedOf(t, t, []);
    TagsNormalise("", t, "", "");
    assert "" + (t + ("" + "")) == t;
  }

  lemma ShortHasNoWindow(s: string)
    requires |s| < 9
    ensures forall p: nat :: 1 <= p ==> !Window(s, p)
  {
  }

  lemma DatedText(t: string)
    requires t == "foo-20240101" || t == "foo-20200101"
    ensures FileText(t) && Window(t, 4)
  {
    assert t[4..12] == "20240101" || t[4..12] == "20200101";
  }

  // foo is bumped to the tag 2rc1, and the next run proposes the same again.
  lemma TagIsProposedAgain(web: Web, link: seq<string>, stamp: int)
    requires web("w", "foo", Releases) == Ok([Child(true, link, stamp)])
    requires |link| > 4 && link[4] == "2rc1"
    ensures var env := Some(Environment([], Some(GithubService), ["w", "foo"]));
            && Proposes("foo-1", env, web, EditVerOrTag("1", "2-rc1"))
            && NewName("foo-1.ebuild", EditVerOrTag("1", "2-rc1")) == "foo-2-rc1.ebuild"
            && Proposes("foo-2-rc1", env, web, EditVerOrTag("2", "2-rc1"))
  {
    hide NewName, ParseStem, ToPortage, DateOf, Proposes, StageFails, ProposesNothing, LatestInfo, FileText, Window;
    var env := Environment([], Some(GithubService), ["w", "foo"]);
    TwoIsTagged();
    assert LexLess("1", "2-rc1");
    FooIsOutdated(web, link, stamp, "2-rc1");
    assert "foo-" + "2-rc1" + ".ebuild" == "foo-2-rc1.ebuild";
    TaggedFoo();
    assert LexLess("2", "2-rc1") by { assert "2-rc1"[1..] == "-rc1"; }
    ReleaseOutcome("foo-2-rc1", env, web, "2-rc1");
  }

  lemma TwoIsTagged()
    ensures ToPortage("2rc1") == Ok("2-rc1")
  {
    hide ToPortage;
    assert "2" == "2" + PrintMinors([]);
    assert DottedOf("2", "2", []);
    assert TagOf("rc1", 4, "1");
    TagsNormalise("", "2", "", "rc1");
    assert "" + ("2" + ("" + "rc1")) == "2rc1" && "2" + ("-" + "rc1") == "2-rc1";
  }

  lemma TaggedFoo()
    ensures IsName("foo-2-rc1") && ParseStem("foo-2-rc1").value.ver == "2" && DateOf("foo-2-rc1").None?
  {
    hide ParseStem, DateOf;
    var v := Version("2", [], "", []);
    assert PrintVersion(v) == "2" + ("" + ("" + "")) == "2";
    ParseDropsOtherTail("foo", v, "-rc1");
    assert StemWith("foo", v, "-rc1") == "foo-2-rc1";
    HoldsDateIff("foo-2-rc1");
    assert forall p: nat :: 1 <= p && Window("foo-2-rc1", p) ==> p == 1;
    assert !Window("foo-2-rc1", 1) by { assert "foo-2-rc1"[1..9][0] == 'o' && 'o' in "foo-2-rc1"[1..9]; }
  }

  // ---------- Commits ----------

  const NEW_YEAR := Stamp(Date(2024, 1, 1), 0, 0, 0)

  // A numeral is read and printed digit by digit.
  lemma Numeral(t: string, n: nat, c: char)
    requires IsDigit(c) && PrintNat(n) == t && n > 0
    ensures PrintNat(n * 10 + (c as int - '0' as int)) == t + [c]
  {
  }

  lemma FourDigits(a: char, b: char, c: char, d: char)
    requires '1' <= a <= '9' && IsDigit(b) && IsDigit(c) && IsDigit(d)
    ensures PrintNat((a as int - '0' as int) * 1000 + (b as int - '0' as int) * 100
                     + (c as int - '0' as int) * 10 + (d as int - '0' as int)) == [a, b, c, d]
  {
    var x := a as int - '0' as int;
    assert PrintNat(x) == [a];
    hide PrintNat;
    Numeral([a], x, b);
    var y := x * 10 + (b as int - '0' as int);
    Numeral([a, b], y, c);
    Numeral([a, b, c], y * 10 + (c as int - '0' as int), d);
  }

  lemma FourMore(t: string, n: nat, a: char, b: char, c: char, d: char)
    requires n > 0 && PrintNat(n) == t && IsDigit(a) && IsDigit(b) && IsDigit(c) && IsDigit(d)
    ensures PrintNat(n * 10000 + (a as int - '0' as int) * 1000 + (b as int - '0' as int) * 100
                     + (c as int - '0' as int) * 10 + (d as int - '0' as int)) == t + [a, b, c, d]
  {
    hide PrintNat;
    var x := n * 10 + (a as int - '0' as int);
    var y := x * 10 + (b as int - '0' as int);
    Numeral(t, n, a);
    Numeral(t + [a], x, b);
    Numeral(t + [a] + [b], y, c);
    Numeral(t + [a] + [b] + [c], y * 10 + (c as int - '0' as int), d);
    assert t + [a] + [b] + [c] + [d] == t + [a, b, c, d];
  }

  lemma Numerals()
    ensures PrintNat(11111111) == "11111111" && PrintNat(20240101) == "20240101"
    ensures PrintNat(20200101) == "20200101" && PrintNat(12024) == "12024"
    ensures AllDigits("11111111") && Num("11111111") == 11111111
    ensures AllDigits("20200101") && Num("20200101") == 20200101
  {
    hide Num, PrintNat;
    FourDigits('1', '1', '1', '1');
    FourMore("1111", 1111, '1', '1', '1', '1');
    FourDigits('2', '0', '2', '4');
    FourMore("2024", 2024, '0', '1', '0', '1');
    FourDigits('2', '0', '2', '0');
    FourMore("2020", 2020, '0', '1', '0', '1');
    FourDigits('1', '2', '0', '2');
    Numeral("1202", 1202, '4');
    NumOfPrint(11111111);
    NumOfPrint(20200101);
  }

  lemma NewYearIsPacked()
    ensures ValidStamp(NEW_YEAR) && PackedDate(Seconds(NEW_YEAR)) == 20240101
  {
    hide PackedDate, Seconds;
    assert ValidStamp(NEW_YEAR);
    PackedDateOfStamp(NEW_YEAR);
  }

  // Nine equal digits: the new date is written one place too early, and a smaller one is
  // read.
  lemma DateIsShifted()
    ensures DateOf("111111111-1") == Some(11111111)
    ensures BumpedStem("111111111-1", 11111111, 20240101) == "202401011-1"
    ensures DateOf("202401011-1").Some? && DateOf("202401011-1").value < 20240101
  {
    hide Num, PrintNat, DateOf, Replaced, ReplaceLeft, Find;
    Numerals();
    var s, w, v, t := "111111111-1", "11111111", "20240101", "202401011-1";
    DateInFront(s, "1", w, "-1");
    DateInFront(t, "2", "02401011", "-1");
    LeadingZeroShrinks("02401011");
    Pow7And8();
    BumpedStemOf(s, 11111111, 20240101);
    assert s[0..8] == w && OccursAt(s, w, 0);
    FindIsLeftmost(s, w, 0);
    ReplaceLeftStep(s, w, v);
    FindIsLeftmost("1-1", w, 0);
    ReplaceLeftStep("1-1", w, v);
    ReplacedIsLeft(s, w, v);
    assert s[8..] == "1-1";
  }

  // A date behind one other character is the one that is read.
  lemma DateInFront(s: string, a: string, date: string, b: string)
    requires |a| == 1 && |date| == 8 && AllDigits(date) && s == a + date + b && FileText(s)
    ensures DateOf(s) == Some(Num(date))
  {
    hide DateOf, Num, FileText;
    assert s[1..9] == date;
    DatePatternFindsFirstWindow(s, 1);
  }

  lemma CommitIsOutdated(stem: string, o: nat, h: string, segs: seq<string>, web: Web, n: string)
    requires IsName(stem) && DateOf(stem) == Some(o) && o < 20240101 && IsCommitHash(h)
    requires LatestInfo(GithubService, segs, web, true) == Ok(FetchedCommit(CommitInfo(20240101, n)))
    ensures Proposes(stem, Some(Environment([("COMMIT", h)], Some(GithubService), segs)), web,
                     EditCommit("COMMIT", CommitInfo(o, h), CommitInfo(20240101, n)))
  {
    hide ParseStem, DateOf, LatestInfo;
  }

  lemma FetchedOnNewYear(segs: seq<string>, web: Web, link: seq<string>)
    requires web(Segment(segs, 0), Segment(segs, 1), FeedOf(segs, true)) ==
             Ok([Child(true, link, Seconds(NEW_YEAR))])
    requires IsTagSource(segs) ==> ToPortage(NamedBy(link, true)).Ok?
    ensures LatestInfo(GithubService, segs, web, true) ==
            Ok(FetchedCommit(CommitInfo(20240101, if IsTagSource(segs) then "" else NamedBy(link, true))))
  {
    hide ToPortage, PackedDate, NamedBy, Seconds, ValidStamp;
    NewYearIsPacked();
    assert FirstEntry([Child(true, link, Seconds(NEW_YEAR))]) == Some(Child(true, link, Seconds(NEW_YEAR)));
  }

  // The ebuild with nine equal digits is bumped to a commit, can be read, and is proposed
  // again.
  lemma ShiftedDateIsProposedAgain(web: Web, link: seq<string>, h: string, n: string)
    requires web("w", "foo", Commits) == Ok([Child(true, link, Seconds(NEW_YEAR))])
    requires |link| == 4 && link[3] == n && IsCommitHash(h) && IsCommitHash(n)
    ensures var env, env' := Environment([("COMMIT", h)], Some(GithubService), ["w", "foo"]),
                             Environment([("COMMIT", n)], Some(GithubService), ["w", "foo"]);
            && Proposes("111111111-1", Some(env), web,
                        EditCommit("COMMIT", CommitInfo(11111111, h), CommitInfo(20240101, n)))
            && BumpedStem("111111111-1", 11111111, 20240101) == "202401011-1"
            && !StageFails("202401011-1", Some(env'), web) && !ProposesNothing("202401011-1", Some(env'), web)
  {
    hide ParseStem, DateOf, LatestInfo, BumpedStem, Proposes, StageFails, ProposesNothing, Seconds, NineEqualDigits,
      IsCommitHash, FirstHash, IsName, NewName;
    var segs := ["w", "foo"];
    var env, env' := Environment([("COMMIT", h)], Some(GithubService), segs),
                     Environment([("COMMIT", n)], Some(GithubService), segs);
    FetchedOnNewYear(segs, web, link);
    DateIsShifted();
    PlainStem("111111111", "1");
    assert "111111111" + "-" + "1" == "111111111-1";
    CommitIsOutdated("111111111-1", 11111111, h, segs, web, n);
    CommitBumpNextRun("111111111-1", env, web, "COMMIT", CommitInfo(11111111, h), CommitInfo(20240101, n), env');
    OneHash("COMMIT", n);
  }

  lemma OneHash(name: string, n: string)
    ensures FirstHash([(name, n)]).Some? <==> IsCommitHash(n)
  {
    assert [(name, n)][1..] == [];
  }

  lemma PlainStem(pn: string, t: string)
    requires NameText(pn) && NoHyphenDigit(pn) && IsNumber(t)
    ensures IsName(pn + "-" + t)
  {
    hide ParseStem;
    var v := Version(t, [], "", []);
    assert PrintVersion(v) == t + ("" + ("" + "")) == t;
    ParseUndoesPrint(pn, v, None);
    assert Stem(pn, v, None) == pn + "-" + t;
  }

  // An ebuild of a commit with the address of a tag loses its commit, and the next run
  // fails.
  lemma CommitIsLost(web: Web, link: seq<string>, h: string)
    requires web("w", "foo", Tags) == Ok([Child(true, link, Seconds(NEW_YEAR))])
    requires |link| > 4 && link[4] == "1" && IsCommitHash(h)
    ensures var segs := ["w", "foo", "archive", "refs"];
            var env, env' := Environment([("COMMIT", h)], Some(GithubService), segs),
                             Environment([("COMMIT", "")], Some(GithubService), segs);
            && Proposes("foo-20200101", Some(env), web,
                        EditCommit("COMMIT", CommitInfo(20200101, h), CommitInfo(20240101, "")))
            && BumpedStem("foo-20200101", 20200101, 20240101) == "foo-20240101"
            && StageFails("foo-20240101", Some(env'), web)
  {
    hide ParseStem, DateOf, LatestInfo, BumpedStem, Proposes, StageFails, ProposesNothing, Seconds, NineEqualDigits,
      IsCommitHash, FirstHash, IsName, NewName, ToPortage;
    var segs := ["w", "foo", "archive", "refs"];
    var env, env' := Environment([("COMMIT", h)], Some(GithubService), segs),
                     Environment([("COMMIT", "")], Some(GithubService), segs);
    PlainNumber("1");
    FetchedOnNewYear(segs, web, link);
    FooIsDated();
    PlainStem("foo", "20200101");
    assert "foo" + "-" + "20200101" == "foo-20200101";
    CommitIsOutdated("foo-20200101", 20200101, h, segs, web, "");
    CommitBumpNextRun("foo-20200101", env, web, "COMMIT", CommitInfo(20200101, h), CommitInfo(20240101, ""), env');
    OneHash("COMMIT", "");
    assert !IsCommitHash("") by { NoHash(); }
  }

  lemma NoHash()
    ensures !IsCommitHash("")
  {
  }

  lemma OnlyHere(a: string, w: string, b: string, v: string)
    requires w != "" && w[0] !in a && w[0] !in b && w[0] !in w[1..]
    ensures Replaced(a + w + b, w, v) == a + v + b
  {
    hide Replaced;
    var s := a + w + b;
    assert s[|a|..|a| + |w|] == w;
    assert forall i :: 1 <= i < |w| ==> w[i] in w[1..];
    forall i | 0 <= i < |s| && i != |a|
      ensures s[i] != w[0]
    {
      assert s[i] == if i < |a| then a[i] else if i < |a| + |w| then w[i - |a|] else b[i - |a| - |w|];
    }
    forall q | OccursAt(s, w, q)
      ensures q == |a|
    {
      OccursWithin(s, w, q);
      assert s[q] == w[0];
    }
    ReplacedAtIsolated(s, w, v, |a|);
    AbsentNeedle(a, w, v, w[0]);
    AbsentNeedle(b, w, v, w[0]);
    assert s[..|a|] == a && s[|a| + |w|..] == b;
  }

  lemma FooIsDated()
    ensures DateOf("foo-20200101") == Some(20200101)
    ensures BumpedStem("foo-20200101", 20200101, 20240101) == "foo-20240101"
  {
    hide *;
    FooDate();
    FooBumped();
  }

  lemma FooDate()
    ensures DateOf("foo-20200101") == Some(20200101)
  {
    hide Num, PrintNat, DateOf;
    Numerals();
    assert "foo-20200101"[4..12] == "20200101";
    DateBehindFoo("foo-20200101");
  }

  lemma FooBumped()
    ensures BumpedStem("foo-20200101", 20200101, 20240101) == "foo-20240101"
  {
    hide Num, PrintNat, Replaced, ReplaceLeft, BumpedStem;
    Numerals();
    BumpedStemOf("foo-20200101", 20200101, 20240101);
    var w, v := "20200101", "20240101";
    assert "foo-20200101" == "foo-" + w && "foo-20240101" == "foo-" + v;
    ReplacedIsLeft("foo-20200101", w, v);
    UntouchedFoo(w, v);
  }

  lemma FooNewName(o: string, n: string)
    ensures NewName("foo-20200101.ebuild", EditCommit("COMMIT", CommitInfo(20200101, o), CommitInfo(20240101, n)))
            == "foo-20240101.ebuild"
  {
    hide Num, PrintNat, Replaced, BumpedStem;
    FooBumped();
    BumpedStemOf("foo-20200101", 20200101, 20240101);
    assert "foo-20200101" + EBUILD == "foo-20200101.ebuild" && "foo-20240101" + EBUILD == "foo-20240101.ebuild";
  }

  lemma DateBehindFoo(s: string)
    requires |s| == 12 && s[..4] == "foo-" && AllDigits(s[4..12])
    ensures DateOf(s) == Some(Num(s[4..12]))
  {
    hide DateOf, Num;
    assert s[3] == s[..4][3] == '-';
    forall q | 1 <= q < 4
      ensures !Window(s, q)
    {
      WindowDigits(s, q);
    }
    forall c <- s
      ensures In(c, FileChar)
    {
      assert c in s[..4] || c in s[4..12];
    }
    DatePatternFindsFirstWindow(s, 4);
  }

  lemma UntouchedFoo(w: string, v: string)
    requires |w| == 8 && |v| == 8 && IsDigit(w[0])
    ensures ReplaceLeft("foo-" + w, w, v) == "foo-" + v
  {
    hide Find, ReplaceLeft;
    var s := "foo-" + w;
    assert s[4..] == w && s[4..12] == s[4..];
    assert OccursAt(s, w, 4);
    FindIsLeftmost(s, w, 0);
    var q := Find(s, w, 0).value;
    assert s[q] == s[q..q + 8][0] == w[0];
    assert q == 4;
    ReplaceLeftStep(s, w, v);
    FindIsLeftmost("", w, 0);
    ReplaceLeftStep("", w, v);
    assert s[..4] == "foo-" && s[12..] == "";
  }

  // A date with leading zeros keeps them, and the new date is not the one that is read.
  lemma ZerosStay()
    ensures DateOf("foo-00012024") == Some(12024)
    ensures BumpedStem("foo-00012024", 12024, 20240101) == "foo-00020240101"
    ensures DateOf("foo-00020240101") != Some(20240101)
  {
    hide *;
    ZerosAreRead();
    ZerosAreKept();
    ZerosAreReadAgain();
  }

  lemma ZerosAreRead()
    ensures DateOf("foo-00012024") == Some(12024)
  {
    hide Num, DateOf;
    var s := "foo-00012024";
    assert s[4..12] == "00012024";
    ZerosCountNothing();
    DateBehindFoo(s);
  }

  lemma ZerosAreKept()
    ensures BumpedStem("foo-00012024", 12024, 20240101) == "foo-00020240101"
  {
    hide Num, PrintNat, Replaced, BumpedStem;
    Numerals();
    BumpedStemOf("foo-00012024", 12024, 20240101);
    OnlyHere("foo-000", "12024", "", "20240101");
    assert "foo-00012024" == "foo-000" + "12024" + "";
    assert "foo-00020240101" == "foo-000" + "20240101" + "";
  }

  lemma ZerosAreReadAgain()
    ensures DateOf("foo-00020240101") != Some(20240101)
  {
    hide Num, DateOf, FileText, DateAt;
    var t := "foo-00020240101";
    if DateOf(t).Some? {
      var p := DateOfNeedsWindow(t);
      ZeroWindow(t, p);
      DatePatternFindsFirstWindow(t, p);
      LeadingZeroShrinks(t[4..12]);
      Pow7And8();
    }
  }

  lemma ZeroWindow(t: string, p: nat)
    requires t == "foo-00020240101" && DateAt(t, p)
    ensures p == 4 && t[4..12] == "00020240" && AllDigits(t[4..12])
  {
    assert t[4..12] == "00020240";
    assert Window(t, 4);
    WindowDigits(t, p);
    assert t[3] == '-';
  }

  lemma WindowDigits(s: string, p: nat)
    ensures Window(s, p) ==> forall i :: p <= i < p + 8 ==> IsDigit(s[i])
  {
    if Window(s, p) {
      assert forall i :: p <= i < p + 8 ==> s[i] == s[p..p + 8][i - p];
    }
  }

  lemma ZerosCountNothing()
    ensures AllDigits("00012024") && Num("00012024") == 12024
  {
    hide Num, PrintNat;
    Numerals();
    NumOfPrint(12024);
    ZeroCountsNothing("12024");
    ZeroCountsNothing("012024");
    ZeroCountsNothing("0012024");
    assert "0" + "12024" == "012024" && "0" + "012024" == "0012024" && "0" + "0012024" == "00012024";
  }

  lemma {:induction false} ZeroCountsNothing(t: string)
    requires AllDigits(t)
    ensures AllDigits("0" + t) && Num("0" + t) == Num(t)
  {
    if t != "" {
      var front, c := t[..|t| - 1], t[|t| - 1];
      assert c in t && forall x <- front :: x in t;
      ZeroCountsNothing(front);
      assert "0" + t == ("0" + front) + [c] && t == front + [c];
      NumAppend("0" + front, c);
      NumAppend(front, c);
    }
  }

  // With an empty new commit, the text that should be empty is still the old commit.
  lemma OldTextIsKept(h: string)
    requires h != ""
    ensures var job := JobData(EditCommit("COMMIT", CommitInfo(20200101, h), CommitInfo(20240101, "")),
                               "foo-20200101.ebuild", h);
            Replaced(h, h, "") == "" && Apply(map[job.name := h], job) == map["foo-20240101.ebuild" := h]
  {
    hide NewName, Replaced, Apply, Overwritten;
    var job := JobData(EditCommit("COMMIT", CommitInfo(20200101, h), CommitInfo(20240101, "")),
                       "foo-20200101.ebuild", h);
    ReplacingTheWhole(h, "");
    FooNewName(h, "");
    ApplyMoves(map[job.name := h], job);
    NothingWritten(h);
  }

  lemma NothingWritten(h: string)
    ensures Overwritten(h, "") == h
  {
  }

  // ---------- Dispatch ----------

  // Two ungrouped changes of one package get one folder.
  lemma OneFolderForTwo(pv: string)
    ensures var plan := Plan([0, 0], 0);
            |plan| == 2 && plan[0].members == [0] && plan[1].members == [1]
            && FolderName(plan[0], [pv, pv]) == FolderName(plan[1], [pv, pv])
  {
    assert [0, 0][..1] == [0] && [0][..0] == [];
    assert Range([0], 0) == [0] && Range([0, 0], 0) == [0, 1];
  }

  // The only ebuild has an update, which is applied, and the code is NoEbuildFound.
  lemma UpdatedIsNotFound(d: Diff)
    ensures var os, trace := [Outcome.Change(d)], [WorktreeEnds(0, true), ApplyEnds(0, true)];
            var r := RunOf(GroupsCollection(0, map[]), os, true, trace);
            && r.Some? && Quiet(r.value) && FinalCode(RunCode(r.value), Outcome.Failed in os,
                                                      Outcome.NothingToChange in os) == NoEbuildFound
  {
    var os, trace := [Outcome.Change(d)], [WorktreeEnds(0, true), ApplyEnds(0, true)];
    assert os[..0] == [] && trace[..1] == [WorktreeEnds(0, true)] && trace[..1][..0] == [];
    assert ChangesOf(os) == [d];
    var plan := PlanOf(GroupsCollection(0, map[]), os);
    OneWorktree(d.package);
    assert plan == [Worktree(0, [0])];
    var start := Initial(plan, 1, None);
    var once := Next(plan, start, WorktreeEnds(0, true));
    assert Exec(plan, start, []) == Some(start);
    assert Exec(plan, start, trace[..1]) == Some(once);
    assert once.changes == [Applying];
  }

  lemma OneWorktree(pv: string)
    ensures Plan(KeysOf(map[], [pv]), 0) == [Worktree(0, [0])]
  {
    var keys := KeysOf(map[], [pv]);
    assert keys == [0] && keys[..0] == [];
    assert Range(keys, 0) == [0];
  }
}
