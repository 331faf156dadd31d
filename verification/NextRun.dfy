// What the next run makes of an ebuild that this run has edited and renamed.
module NextRun {
  import opened Wrappers
  import opened TextSearch
  import opened ReplaceSpec
  import opened ReplaceTheorems
  import opened Matching
  import opened EbuildName
  import opened EbuildNameTheorems
  import opened TagVersion
  import opened TagVersionTheorems
  import opened DateName
  import opened Decimal
  import opened Update
  import opened UpdateTheorems
  import opened RenamedStems
  import opened Github
  import opened PerEbuild

  // The address of the renamed ebuild may contain its version or commit, but it still
  // leads to the same project, and to a tag or not as before.
  predicate SameProject(a: Environment, b: Environment) {
    && a.service == b.service
    && Segment(a.segs, 0) == Segment(b.segs, 0) && Segment(a.segs, 1) == Segment(b.segs, 1)
    && IsTagSource(a.segs) == IsTagSource(b.segs)
  }

  lemma SameProjectSameAnswer(a: Environment, b: Environment, web: Web, isCommit: bool)
    requires SameProject(a, b)
    ensures a.service == b.service
    ensures a.service.Some? ==> LatestInfo(a.service.value, a.segs, web, isCommit) ==
                                LatestInfo(b.service.value, b.segs, web, isCommit)
  {
  }

  predicate IsName(stem: string) {
    ParseStem(stem).Some? && ParseStem(stem).value.pn_inval == ""
  }

  // A stem without a date is compared by its version.
  lemma ReleaseOutcome(stem: string, env: Environment, web: Web, n: string)
    requires IsName(stem) && DateOf(stem).None? && env.service.Some?
    requires LatestInfo(env.service.value, env.segs, web, false) == Ok(FetchedVersion(n))
    ensures !StageFails(stem, Some(env), web)
    ensures ProposesNothing(stem, Some(env), web) <==> !LexLess(ParseStem(stem).value.ver, n)
    ensures LexLess(ParseStem(stem).value.ver, n) ==>
              Proposes(stem, Some(env), web, EditVerOrTag(ParseStem(stem).value.ver, n))
  {
    hide ParseStem, DateOf, LatestInfo, FirstHash, LexLess;
    if LexLess(ParseStem(stem).value.ver, n) {
      assert Proposes(stem, Some(env), web, EditVerOrTag(ParseStem(stem).value.ver, n));
    }
  }

  // A stem with a date needs a commit variable, and is compared by its date with the
  // feed of commits or tags.
  lemma CommitOutcome(stem: string, env: Environment, web: Web)
    requires IsName(stem) && DateOf(stem).Some? && env.service.Some?
    ensures var latest := LatestInfo(env.service.value, env.segs, web, true);
            && (StageFails(stem, Some(env), web) <==> FirstHash(env.commitVars).None? || latest.Err?)
            && (forall edit :: Proposes(stem, Some(env), web, edit) ==> edit.EditCommit?)
            && (!StageFails(stem, Some(env), web) ==>
                  latest.value.FetchedCommit?
                  && (ProposesNothing(stem, Some(env), web) <==> DateOf(stem).value >= latest.value.info.date))
  {
    hide ParseStem, DateOf, LatestInfo, FirstHash;
    var latest := LatestInfo(env.service.value, env.segs, web, true);
    KindOfLatest(env.service.value, env.segs, web, true);
    if FirstHash(env.commitVars).Some? && latest.Ok? && DateOf(stem).value < latest.value.info.date {
      var variable := FirstHash(env.commitVars).value;
      assert Proposes(stem, Some(env), web,
                      EditCommit(variable.0, CommitInfo(DateOf(stem).value, variable.1), latest.value.info));
    }
  }

  // A release with the address of a tag is compared with what its feed of tags names.
  lemma TagReleaseIsProposed(stem: string, env: Environment, web: Web, feed: seq<Child>, k: nat, n: string)
    requires IsName(stem) && DateOf(stem).None? && env.service == Some(GithubService)
    requires |env.segs| > 3 && env.segs[3] == "refs" && web(env.segs[0], env.segs[1], Tags) == Ok(feed)
    requires k < |feed| && feed[k].isEntry && forall i :: 0 <= i < k ==> !feed[i].isEntry
    requires |feed[k].link| > 4 && ToPortage(feed[k].link[4]) == Ok(n)
    ensures LexLess(ParseStem(stem).value.ver, n) ==>
              Proposes(stem, Some(env), web, EditVerOrTag(ParseStem(stem).value.ver, n))
    ensures !LexLess(ParseStem(stem).value.ver, n) ==> ProposesNothing(stem, Some(env), web)
  {
    hide ParseStem, DateOf, ToPortage, FetchedOver, LexLess;
    TagAddressAnswer(env.segs, web, false, k);
    ReleaseOutcome(stem, env, web, n);
  }

  // ---------- The version bump ----------

  // A fetched version is empty or has the shape of a normalised tag.
  lemma ShapeOfFetched(service: Service, segs: seq<string>, web: Web, n: string) returns (p: Parts)
    requires LatestInfo(service, segs, web, false) == Ok(FetchedVersion(n)) && n != ""
    ensures WellShaped(p) && n == Joined(p)
  {
    hide ToPortage, WellShaped, FindAll, TagPattern, LastParts, Joined;
    var feed := web(Segment(segs, 0), Segment(segs, 1), FeedOf(segs, false)).value;
    var name := NamedBy(FirstEntry(feed).value.link, false);
    OutputShape(name);
    p := LastParts(FindAll(TagPattern(), name, 0), name);
  }

  // A fetched version, put in place of the old one, is read up to its first hyphen, and
  // is greater than what is read exactly when it has one.
  lemma FetchedIsReadAgain(pn: string, w: string, rev: Option<string>, p: Parts)
    requires NameText(pn) && NoHyphenDigit(pn) && ValidRevision(rev) && IsNeedle(w) && WellShaped(p)
    ensures w != ""
    ensures var t := RenamedStem(pn, w, rev, Joined(p)); IsName(t) && ParseStem(t).value.ver == p.ver
    ensures LexLess(p.ver, Joined(p)) <==> '-' in Joined(p)
  {
    hide *;
    NeedleIsThere(w);
    var v, d := FetchedIsNewText(p);
    RenamedStemIsRead(pn, w, rev, v, d);
    IsNameMeans(RenamedStem(pn, w, rev, Joined(p)));
    PrefixOfJoined(p);
    HyphenOfFetched(p);
    if p.tag == "" && p.subver == "" {
      LexLessIrreflexive(p.ver);
    } else {
      DashedIsThere(p);
      LexLessOfPrefix(p.ver, Dashed(p.tag) + Dashed(p.subver));
    }
  }

  lemma IsNameMeans(stem: string)
    ensures IsName(stem) <==> ParseStem(stem).Some? && ParseStem(stem).value.pn_inval == ""
  {
    hide ParseStem;
  }

  lemma DashedIsThere(p: Parts)
    requires p.tag != "" || p.subver != ""
    ensures Dashed(p.tag) + Dashed(p.subver) != ""
  {
  }

  // After the bump that a run proposes for a release ebuild, the next run with the same
  // feeds: without a date in the new stem, it proposes nothing exactly when the fetched
  // version has no hyphen, and the same version again when it has one. With a date in
  // the new stem the ebuild is no release any more: it fails unless there is a commit
  // variable and a feed that can be read, and versions are not compared.
  lemma VersionBumpNextRun(pn: string, v: Version, rev: Option<string>, env: Environment, web: Web, n: string,
                           env': Environment)
    requires NameText(pn) && NoHyphenDigit(pn) && ValidVersion(v) && ValidRevision(rev)
    requires SameProject(env, env')
    ensures PrintVersion(v) != ""
    ensures Proposes(Stem(pn, v, rev), Some(env), web, EditVerOrTag(PrintVersion(v), n)) ==>
              var t := RenamedStem(pn, PrintVersion(v), rev, n);
              && NewName(FileName(pn, v, rev), EditVerOrTag(PrintVersion(v), n)) == t + EBUILD
              && IsName(t)
              && (DateOf(t).None? ==>
                    && !StageFails(t, Some(env'), web)
                    && (ProposesNothing(t, Some(env'), web) <==> '-' !in n)
                    && ('-' in n ==> Proposes(t, Some(env'), web, EditVerOrTag(ParseStem(t).value.ver, n))))
              && (DateOf(t).Some? ==>
                    && (StageFails(t, Some(env'), web) <==>
                          FirstHash(env'.commitVars).None?
                          || LatestInfo(env'.service.value, env'.segs, web, true).Err?)
                    && forall edit :: Proposes(t, Some(env'), web, edit) ==> edit.EditCommit?)
  {
    hide *;
    RenameExchanges(pn, v, rev, n);
    VersionIsNeedle(v);
    if Proposes(Stem(pn, v, rev), Some(env), web, EditVerOrTag(PrintVersion(v), n)) {
      var t := RenamedStem(pn, PrintVersion(v), rev, n);
      FirstRunOfRelease(Stem(pn, v, rev), env, web, PrintVersion(v), n);
      var p := ShapeOfFetched(env.service.value, env.segs, web, n);
      FetchedIsReadAgain(pn, PrintVersion(v), rev, p);
      SameProjectSameAnswer(env, env', web, false);
      if DateOf(t).None? {
        ReleaseOutcome(t, env', web, n);
      } else {
        CommitOutcome(t, env', web);
      }
    }
  }

  // For an ebuild without a commit variable the next run proposes nothing exactly when
  // the fetched version has no hyphen and the new stem has no date, and fails exactly
  // when it has one.
  lemma VersionBumpSettlesIff(pn: string, v: Version, rev: Option<string>, env: Environment, web: Web, n: string,
                              env': Environment)
    requires NameText(pn) && NoHyphenDigit(pn) && ValidVersion(v) && ValidRevision(rev)
    requires SameProject(env, env') && FirstHash(env'.commitVars).None?
    ensures PrintVersion(v) != ""
    ensures Proposes(Stem(pn, v, rev), Some(env), web, EditVerOrTag(PrintVersion(v), n)) ==>
              var t := RenamedStem(pn, PrintVersion(v), rev, n);
              var dated := FileText(t) && exists p: nat :: 1 <= p && Window(t, p);
              && (ProposesNothing(t, Some(env'), web) <==> '-' !in n && !dated)
              && (StageFails(t, Some(env'), web) <==> dated)
  {
    hide *;
    VersionBumpNextRun(pn, v, rev, env, web, n, env');
    var t := RenamedStem(pn, PrintVersion(v), rev, n);
    HoldsDateIff(t);
    NothingIsNoFailure(t, env', web);
  }

  lemma FirstRunOfRelease(stem: string, env: Environment, web: Web, o: string, n: string)
    requires Proposes(stem, Some(env), web, EditVerOrTag(o, n))
    ensures DateOf(stem).None? && env.service.Some? && LexLess(o, n) && o != n && n != ""
    ensures LatestInfo(env.service.value, env.segs, web, false) == Ok(FetchedVersion(n))
  {
    hide ParseStem, DateOf, LatestInfo, FirstHash;
    LexLessIrreflexive(o);
  }

  // A bump to any version that PMS allows, were it fetched: the new stem is read with the
  // new version, and has the same name and revision exactly when the old version occurs
  // once in the file name. The next run can read it unless it holds a date and there is
  // no commit variable, and without a date it proposes nothing.
  lemma VersionBumpSettles(pn: string, v: Version, rev: Option<string>, n: Version, env': Environment, web: Web)
    requires NameText(pn) && NoHyphenDigit(pn) && ValidVersion(v) && ValidVersion(n) && ValidRevision(rev)
    requires PrintVersion(n) != PrintVersion(v) && env'.service.Some?
    ensures PrintVersion(v) != ""
    ensures var t := RenamedStem(pn, PrintVersion(v), rev, PrintVersion(n));
            && NewName(FileName(pn, v, rev), EditVerOrTag(PrintVersion(v), PrintVersion(n))) == t + EBUILD
            && IsName(t) && ParseStem(t).value.ver == PrintVersion(n)
            && (t == Stem(pn, n, rev) <==> LeftCount(FileName(pn, v, rev), PrintVersion(v)) == 1)
            && (IsReadable(t, Some(env')) <==> DateOf(t).None? || FirstHash(env'.commitVars).Some?)
            && (LatestInfo(env'.service.value, env'.segs, web, false) == Ok(FetchedVersion(PrintVersion(n))) ==>
                  && (DateOf(t).None? ==> ProposesNothing(t, Some(env'), web))
                  && (FirstHash(env'.commitVars).None? ==> (StageFails(t, Some(env'), web) <==> DateOf(t).Some?)))
  {
    hide PrintVersion, LeftCount, ParseStem, DateOf, FirstHash, Replaced, LexLess, Stem, FileName, FileNameWith,
      ValidVersion, ValidRevision, NameText, NoHyphenDigit, LatestInfo, ProposesNothing, RenamedStem, IsNeedle,
      IsNewText, NewName;
    var w, x := PrintVersion(v), PrintVersion(n);
    VersionIsNeedle(v);
    NeedleIsThere(w);
    var t := RenamedStem(pn, w, rev, x);
    VersionIsNewText(n);
    RenameExchanges(pn, v, rev, x);
    assert x + "" == x;
    RenamedStemIsRead(pn, w, rev, n, "");
    RenameIff(pn, v, rev, x);
    SameFileName(pn, n, rev);
    assert FileName(pn, n, rev) == Stem(pn, n, rev) + EBUILD by { FileNameOf(pn, n, rev); }
    SameFront(t, Stem(pn, n, rev), EBUILD);
    LexLessIrreflexive(x);
    if DateOf(t).None? && LatestInfo(env'.service.value, env'.segs, web, false) == Ok(FetchedVersion(x)) {
      ReleaseOutcome(t, env', web, x);
    }
  }

  lemma FileNameOf(pn: string, v: Version, rev: Option<string>)
    requires ValidVersion(v)
    ensures FileName(pn, v, rev) == Stem(pn, v, rev) + EBUILD
  {
  }

  lemma SameFront(a: string, b: string, x: string)
    ensures a + x == b + x <==> a == b
  {
    assert a == (a + x)[..|a + x| - |x|] && b == (b + x)[..|b + x| - |x|];
  }

  // ---------- The commit bump ----------

  // The environment of the edited ebuild: the values as they were, with the commit
  // replaced in them as it was in the text of the ebuild.
  function EditedVars(vars: seq<(string, string)>, o: string, n: string): (r: seq<(string, string)>)
    requires o != ""
    ensures |r| == |vars|
  {
    seq(|vars|, i requires 0 <= i < |vars| => (vars[i].0, Replaced(vars[i].1, o, n)))
  }

  lemma ReplacingTheWhole(w: string, v: string)
    requires w != ""
    ensures Replaced(w, w, v) == v
  {
    FindIsLeftmost(w, w, 0);
    LastOccurrenceIsRightmost(w, w);
    assert OccursAt(w, w, 0);
    ReplaceLeftStep(w, w, v);
    ReplaceRightStep(w, w, v);
    assert w[|w|..] == "" && w[..0] == "";
    FindIsLeftmost("", w, 0);
    LastOccurrenceIsRightmost("", w);
    ReplaceLeftStep("", w, v);
    ReplaceRightStep("", w, v);
  }

  lemma NothingToReplace(s: string, w: string, v: string)
    requires w != "" && |s| == |w| && s != w
    ensures Replaced(s, w, v) == s
  {
    FindIsLeftmost(s, w, 0);
    LastOccurrenceIsRightmost(s, w);
    assert s[0..|w|] == s;
    ReplaceLeftStep(s, w, v);
    ReplaceRightStep(s, w, v);
  }

  // Exchanging one commit for another makes no commit of a text that was none.
  lemma HashStays(t: string, o: string, n: string)
    requires IsCommitHash(o) && IsCommitHash(n)
    ensures IsCommitHash(Replaced(t, o, n)) <==> IsCommitHash(t)
    ensures t == o ==> Replaced(t, o, n) == n
  {
    hide Replaced, LeftCount;
    ReplacedLength(t, o, n);
    if t == o {
      ReplacingTheWhole(o, n);
    } else if |t| == 40 {
      NothingToReplace(t, o, n);
    }
  }

  lemma {:induction false} FirstHashAfterEdit(vars: seq<(string, string)>, name: string, o: string, n: string)
    requires FirstHash(vars) == Some((name, o)) && IsCommitHash(n)
    ensures o != "" && FirstHash(EditedVars(vars, o, n)) == Some((name, n))
  {
    hide Replaced, IsCommitHash;
    HashIsThere(o);
    HashStays(vars[0].1, o, n);
    if !IsCommitHash(vars[0].1) {
      FirstHashAfterEdit(vars[1..], name, o, n);
      assert EditedVars(vars, o, n)[1..] == EditedVars(vars[1..], o, n);
    }
  }

  lemma HashIsThere(t: string)
    requires IsCommitHash(t)
    ensures t != ""
  {
  }

  // With one commit variable, the edited ebuild has a commit exactly when the new one
  // is a commit.
  lemma OneVariable(vars: seq<(string, string)>, name: string, o: string, n: string)
    requires FirstHash(vars) == Some((name, o)) && |vars| == 1
    ensures o != "" && (FirstHash(EditedVars(vars, o, n)).Some? <==> IsCommitHash(n))
  {
    hide Replaced;
    ReplacingTheWhole(o, n);
    assert EditedVars(vars, o, n)[1..] == [];
    assert vars[1..] == [];
  }

  lemma FirstRunOfCommit(stem: string, env: Environment, web: Web, variable: string, o: CommitInfo, n: CommitInfo)
    requires Proposes(stem, Some(env), web, EditCommit(variable, o, n))
    ensures IsName(stem) && DateOf(stem) == Some(o.date) && env.service.Some? && o.date < n.date
    ensures FirstHash(env.commitVars) == Some((variable, o.commit)) && IsCommitHash(o.commit) && o.commit != ""
    ensures LatestInfo(env.service.value, env.segs, web, true) == Ok(FetchedCommit(n))
  {
    hide ParseStem, DateOf, LatestInfo;
  }

  // The fetched commit is what the first entry names, and lost for the address of a tag.
  lemma FetchedCommitOf(env: Environment, web: Web, n: CommitInfo)
    requires env.service.Some? && LatestInfo(env.service.value, env.segs, web, true) == Ok(FetchedCommit(n))
    requires n.date > 0
    ensures var answer := web(Segment(env.segs, 0), Segment(env.segs, 1), FeedOf(env.segs, true));
            && answer.Ok? && FirstEntry(answer.value).Some?
            && n.commit == if IsTagSource(env.segs) then "" else NamedBy(FirstEntry(answer.value).value.link, true)
  {
    hide ToPortage, NamedBy;
  }

  lemma DateIsNeedle(date: nat)
    ensures IsNeedle(PrintNat(date))
  {
    hide PrintNat;
    var w := PrintNat(date);
    assert w[0] in w;
    assert forall i :: 0 <= i < |w| ==> w[i] in w;
  }

  lemma BumpedStemOf(s: string, o: nat, n: nat)
    ensures BumpedName(s, o, n) == BumpedStem(s, o, n) + EBUILD
    ensures BumpedStem(s, o, n) == Replaced(s, PrintNat(o), PrintNat(n))
  {
    hide Replaced, PrintNat, IsNeedle;
    DateIsNeedle(o);
    ExtensionStays(s, PrintNat(o), PrintNat(n));
  }

  // The next run reads the new date if old and new have eight digits and the stem does
  // not begin with nine equal ones.
  lemma BumpedStemIsRead(s: string, o: nat, n: nat)
    requires IsName(s) && DateOf(s) == Some(o) && EightDigits(o) && EightDigits(n)
    ensures IsName(BumpedStem(s, o, n)) && DateOf(BumpedStem(s, o, n)).Some?
    ensures !NineEqualDigits(s) ==> DateOf(BumpedStem(s, o, n)) == Some(n)
  {
    hide DateOf, BumpedStem, NineEqualDigits, SameShape, ParseStem, FileText, Window;
    var p := DateOfNeedsWindow(s);
    BumpKeepsShape(s, o, n);
    NextDate(s, p, o, n);
    ShapeKeepsValidity(s, BumpedStem(s, o, n));
    if !NineEqualDigits(s) {
      BumpLands(s, p, o, n);
    }
  }

  // After the bump that a run proposes for a commit ebuild, the next run with the same
  // feeds: a new stem that is no name fails. With a date in it, the run fails exactly when
  // the edited ebuild has no commit any more, and otherwise proposes nothing exactly when
  // that date is not below the fetched one.
  lemma CommitBumpNextRun(s: string, env: Environment, web: Web, variable: string, o: CommitInfo, n: CommitInfo,
                          env': Environment)
    requires SameProject(env, env')
    ensures Proposes(s, Some(env), web, EditCommit(variable, o, n)) ==>
              var t := BumpedStem(s, o.date, n.date);
              && NewName(s + EBUILD, EditCommit(variable, o, n)) == t + EBUILD
              && (!IsName(t) ==> StageFails(t, Some(env'), web))
              && (IsName(t) && DateOf(t).Some? ==>
                    && (StageFails(t, Some(env'), web) <==> FirstHash(env'.commitVars).None?)
                    && (ProposesNothing(t, Some(env'), web) <==>
                          FirstHash(env'.commitVars).Some? && DateOf(t).value >= n.date))
              && (EightDigits(o.date) && EightDigits(n.date) ==>
                    && IsName(t) && DateOf(t).Some?
                    && (!NineEqualDigits(s) ==> DateOf(t) == Some(n.date)))
  {
    hide DateOf, BumpedStem, NineEqualDigits, ParseStem, LatestInfo, FirstHash, Proposes, ProposesNothing, SameProject,
      Replaced, IsName;
    if Proposes(s, Some(env), web, EditCommit(variable, o, n)) {
      FirstRunOfCommit(s, env, web, variable, o, n);
      var t := BumpedStem(s, o.date, n.date);
      BumpedStemOf(s, o.date, n.date);
      IsNameMeans(t);
      SameProjectSameAnswer(env, env', web, true);
      if EightDigits(o.date) && EightDigits(n.date) {
        BumpedStemIsRead(s, o.date, n.date);
      }
      if IsName(t) && DateOf(t).Some? {
        CommitOutcome(t, env', web);
        NothingIsNoFailure(t, env', web);
      }
    }
  }

  lemma NothingIsNoFailure(stem: string, env: Environment, web: Web)
    ensures ProposesNothing(stem, Some(env), web) ==> !StageFails(stem, Some(env), web)
  {
  }

  // With one commit variable, and a date in the new stem that is not below the fetched
  // one, a commit bump settles the ebuild exactly when what was fetched is a commit; with
  // the address of a tag it is not, and the next run fails.
  lemma CommitBumpSettlesIff(s: string, env: Environment, web: Web, variable: string, o: CommitInfo, n: CommitInfo,
                             env': Environment)
    requires o.commit != "" && SameProject(env, env')
    requires env'.commitVars == EditedVars(env.commitVars, o.commit, n.commit)
    ensures Proposes(s, Some(env), web, EditCommit(variable, o, n)) ==>
              var t := BumpedStem(s, o.date, n.date);
              && (IsCommitHash(n.commit) ==> FirstHash(env'.commitVars) == Some((variable, n.commit)))
              && (IsName(t) && DateOf(t).Some? ==>
                    && (IsCommitHash(n.commit) ==>
                          (ProposesNothing(t, Some(env'), web) <==> DateOf(t).value >= n.date))
                    && (|env.commitVars| == 1 ==>
                          && (ProposesNothing(t, Some(env'), web) <==>
                                IsCommitHash(n.commit) && DateOf(t).value >= n.date)
                          && (StageFails(t, Some(env'), web) <==> !IsCommitHash(n.commit))
                          && (IsTagSource(env.segs) ==> StageFails(t, Some(env'), web))))
              && (EightDigits(o.date) && EightDigits(n.date) && !NineEqualDigits(s) ==>
                    IsName(t) && DateOf(t) == Some(n.date))
  {
    hide DateOf, BumpedStem, NineEqualDigits, LatestInfo, FirstHash, Proposes, StageFails, ProposesNothing, SameProject,
      EditedVars, FirstEntry, NamedBy, NewName, IsTagSource, FeedOf, IsName;
    if Proposes(s, Some(env), web, EditCommit(variable, o, n)) {
      FirstRunOfCommit(s, env, web, variable, o, n);
      CommitBumpNextRun(s, env, web, variable, o, n, env');
      if IsCommitHash(n.commit) {
        FirstHashAfterEdit(env.commitVars, variable, o.commit, n.commit);
      }
      if |env.commitVars| == 1 {
        OneVariable(env.commitVars, variable, o.commit, n.commit);
        FetchedCommitOf(env, web, n);
      }
    }
  }
}
