// The latest version or commit of a GitHub project, from the source address of the
// ebuild and the decoded feed.
module Github {
  import opened Wrappers
  import opened Calendar
  import opened TagVersion
  import opened TagVersionTheorems
  import opened Update

  // A child of the feed: whether it is an entry, the segments of its link, and the
  // seconds of its "updated" stamp since the epoch.
  datatype Child = Child(isEntry: bool, link: seq<string>, updated: int)

  datatype Feed = Tags | Commits | Releases

  // What a request for a feed of a project gives: its decoded children, or an error of
  // the request or the decoder.
  type Web = (string, string, Feed) -> Result<seq<Child>, string>

  function Segment(segs: seq<string>, k: nat): string {
    if k < |segs| then segs[k] else ""
  }

  predicate IsTagSource(segs: seq<string>) {
    |segs| > 3 && segs[3] == "refs"
  }

  function FeedOf(segs: seq<string>, isCommit: bool): Feed {
    if IsTagSource(segs) then Tags else if isCommit then Commits else Releases
  }

  method ReadSource(segs: seq<string>, isCommit: bool)
    returns (workspace: string, repo: string, isTag: bool, feed: Feed)
    ensures workspace == Segment(segs, 0) && repo == Segment(segs, 1)
    ensures isTag == IsTagSource(segs) && feed == FeedOf(segs, isCommit)
  {
    workspace, repo, isTag := "", "", false;
    var k := 0;
    while k < |segs|
      invariant k <= |segs|
      invariant workspace == (if k > 0 then segs[0] else "") && repo == (if k > 1 then segs[1] else "")
      invariant !isTag && (k > 3 ==> segs[3] != "refs")
    {
      if k == 0 {
        workspace := segs[k];
      } else if k == 1 {
        repo := segs[k];
      } else if k == 3 {
        if segs[k] == "refs" {
          isTag := true;
          break;
        }
      }
      k := k + 1;
    }
    feed := if isTag then Tags else if isCommit then Commits else Releases;
  }

  // The segment of a link that names the commit, version or tag: the fifth one, or for
  // a commit the fourth one when there is no fifth.
  function NamedBy(link: seq<string>, isCommit: bool): string {
    if |link| > 4 then link[4] else if isCommit && |link| > 3 then link[3] else ""
  }

  method ReadLink(link: seq<string>, isCommit: bool) returns (name: string)
    ensures name == NamedBy(link, isCommit)
  {
    name := "";
    for k := 0 to |link|
      invariant name == NamedBy(link[..k], isCommit)
    {
      if k == 3 && isCommit {
        name := link[k];
      }
      if k == 4 {
        name := link[k];
      }
    }
    assert link[..|link|] == link;
  }

  function FirstEntry(feed: seq<Child>): Option<Child> {
    if feed == [] then None
    else if feed[0].isEntry then Some(feed[0])
    else FirstEntry(feed[1..])
  }

  function FetchedFrom(segs: seq<string>, feed: seq<Child>, isCommit: bool): Result<Fetched, string>
  {
    match FirstEntry(feed)
    case None => Ok(if isCommit then FetchedCommit(CommitInfo(0, "")) else FetchedVersion(""))
    case Some(c) =>
      var name := NamedBy(c.link, isCommit);
      if IsTagSource(segs) || !isCommit then
        match ToPortage(name)
        case Err(e) => Err(e)
        case Ok(v) =>
          Ok(if isCommit then FetchedCommit(CommitInfo(PackedDate(c.updated), "")) else FetchedVersion(v))
      else Ok(FetchedCommit(CommitInfo(PackedDate(c.updated), name)))
  }

  function WithoutV(t: string): string {
    if t != "" && t[0] == 'v' then t[1..] else t
  }

  function FetchedOver(segs: seq<string>, web: Web, isCommit: bool): Result<Fetched, string> {
    match web(Segment(segs, 0), Segment(segs, 1), FeedOf(segs, isCommit))
    case Err(e) => Err(e)
    case Ok(feed) => FetchedFrom(segs, feed, isCommit)
  }

  method GithubFetchVersion(segs: seq<string>, web: Web, isCommit: bool) returns (res: Result<Fetched, string>)
    ensures res == FetchedOver(segs, web, isCommit)
  {
    hide ToPortage, PackedDate;
    var newVersion, newCommit := "", "";
    var newDate: nat := 0;
    var workspace, repo, isTag, kind := ReadSource(segs, isCommit);
    var answer := web(workspace, repo, kind);
    if answer.Err? {
      return Err(answer.error);
    }
    var feed := answer.value;
    var k := 0;
    assert feed[0..] == feed;
    while k < |feed|
      invariant k <= |feed|
      invariant FirstEntry(feed) == FirstEntry(feed[k..])
      invariant newVersion == "" && newCommit == "" && newDate == 0
    {
      if !feed[k].isEntry {
        assert feed[k..][1..] == feed[k + 1..];
        k := k + 1;
        continue;
      }
      var c := feed[k];
      assert FirstEntry(feed) == Some(c);
      var name := ReadLink(c.link, isCommit);
      if isTag || !isCommit {
        var v := TagToPortageVersion(name);
        if v.Err? {
          return Err(v.error);
        }
        newVersion := v.value;
        ResultStartsWithDigit(name);
      } else {
        newCommit := name;
      }
      if isCommit {
        newDate := PackedDate(c.updated);
      }
      break;
    }
    if isCommit {
      return Ok(FetchedCommit(CommitInfo(newDate, newCommit)));
    }
    return Ok(FetchedVersion(WithoutV(newVersion)));
  }

  // ---------- What can be relied on ----------

  // The entry at k is the first one of the feed.
  predicate IsFirstEntry(feed: seq<Child>, k: nat) {
    k < |feed| && feed[k].isEntry && forall i :: 0 <= i < k ==> !feed[i].isEntry
  }

  lemma {:induction false} FirstEntryAt(feed: seq<Child>, k: nat)
    ensures IsFirstEntry(feed, k) ==> FirstEntry(feed) == Some(feed[k])
    ensures (forall c <- feed :: !c.isEntry) ==> FirstEntry(feed) == None
  {
    if feed != [] && !feed[0].isEntry {
      FirstEntryAt(feed[1..], if k > 0 then k - 1 else 0);
    }
  }

  // For the address of a tag, only the feed of tags is asked, whatever the kind of the
  // ebuild.
  lemma TagAddressAnswer(segs: seq<string>, web: Web, isCommit: bool, k: nat)
    requires |segs| > 3 && segs[3] == "refs"
    ensures match web(segs[0], segs[1], Tags)
            case Err(e) => FetchedOver(segs, web, isCommit) == Err(e)
            case Ok(feed) =>
              && ((forall c <- feed :: !c.isEntry) ==>
                    FetchedOver(segs, web, isCommit) ==
                    Ok(if isCommit then FetchedCommit(CommitInfo(0, "")) else FetchedVersion("")))
              && (IsFirstEntry(feed, k) ==>
                    var link := feed[k].link;
                    var name := if |link| > 4 then link[4] else if isCommit && |link| == 4 then link[3] else "";
                    match ToPortage(name)
                    case Err(e) => FetchedOver(segs, web, isCommit) == Err(e)
                    case Ok(v) =>
                      FetchedOver(segs, web, isCommit) ==
                      Ok(if isCommit then FetchedCommit(CommitInfo(PackedDate(feed[k].updated), ""))
                         else FetchedVersion(v)))
  {
    hide ToPortage, PackedDate, FirstEntry, IsFirstEntry;
    var answer := web(segs[0], segs[1], Tags);
    if answer.Ok? {
      FirstEntryAt(answer.value, k);
    }
  }

  // For any other address, only the feed of commits is asked for a commit ebuild.
  lemma CommitAnswer(segs: seq<string>, web: Web, k: nat)
    requires |segs| > 3 ==> segs[3] != "refs"
    ensures match web(if |segs| > 0 then segs[0] else "", if |segs| > 1 then segs[1] else "", Commits)
            case Err(e) => FetchedOver(segs, web, true) == Err(e)
            case Ok(feed) =>
              && ((forall c <- feed :: !c.isEntry) ==>
                    FetchedOver(segs, web, true) == Ok(FetchedCommit(CommitInfo(0, ""))))
              && (IsFirstEntry(feed, k) ==>
                    var link := feed[k].link;
                    var name := if |link| > 4 then link[4] else if |link| == 4 then link[3] else "";
                    FetchedOver(segs, web, true) ==
                    Ok(FetchedCommit(CommitInfo(PackedDate(feed[k].updated), name))))
  {
    hide ToPortage, PackedDate, FirstEntry, IsFirstEntry;
    var answer := web(if |segs| > 0 then segs[0] else "", if |segs| > 1 then segs[1] else "", Commits);
    if answer.Ok? {
      FirstEntryAt(answer.value, k);
    }
  }

  // And only the feed of releases for any other ebuild.
  lemma ReleaseAnswer(segs: seq<string>, web: Web, k: nat)
    requires |segs| > 3 ==> segs[3] != "refs"
    ensures match web(if |segs| > 0 then segs[0] else "", if |segs| > 1 then segs[1] else "", Releases)
            case Err(e) => FetchedOver(segs, web, false) == Err(e)
            case Ok(feed) =>
              && ((forall c <- feed :: !c.isEntry) ==> FetchedOver(segs, web, false) == Ok(FetchedVersion("")))
              && (IsFirstEntry(feed, k) ==>
                    var link := feed[k].link;
                    match ToPortage(if |link| > 4 then link[4] else "")
                    case Err(e) => FetchedOver(segs, web, false) == Err(e)
                    case Ok(v) => FetchedOver(segs, web, false) == Ok(FetchedVersion(v)))
  {
    hide ToPortage, PackedDate, FirstEntry, IsFirstEntry;
    var answer := web(if |segs| > 0 then segs[0] else "", if |segs| > 1 then segs[1] else "", Releases);
    if answer.Ok? {
      FirstEntryAt(answer.value, k);
    }
  }

  // Only the first entry counts.
  lemma OnlyFirstEntryCounts(segs: seq<string>, before: seq<Child>, c: Child, after: seq<Child>, isCommit: bool)
    requires forall x <- before :: !x.isEntry
    requires c.isEntry
    ensures FetchedFrom(segs, before + [c] + after, isCommit) == FetchedFrom(segs, [c], isCommit)
  {
    hide ToPortage, PackedDate, NamedBy;
    FirstOfFeed(before, c, after);
  }

  lemma {:induction false} FirstOfFeed(before: seq<Child>, c: Child, after: seq<Child>)
    requires (forall x <- before :: !x.isEntry) && c.isEntry
    ensures FirstEntry(before + [c] + after) == Some(c) == FirstEntry([c])
  {
    var feed := before + [c] + after;
    if before != [] {
      assert feed[1..] == before[1..] + [c] + after;
      FirstOfFeed(before[1..], c, after);
    }
  }

  // The first stamp of the feed decides the date.
  lemma DateOfFeed(segs: seq<string>, feed: seq<Child>, t: Stamp)
    requires ValidStamp(t) && FirstEntry(feed).Some? && FirstEntry(feed).value.updated == Seconds(t)
    ensures var r := FetchedFrom(segs, feed, true);
            r.Ok? ==> && r.value.FetchedCommit?
                      && r.value.info.date == t.date.year * 10000 + t.date.month * 100 + t.date.day
  {
    hide ToPortage, PackedDate, NamedBy, Seconds;
    PackedDateOfStamp(t);
  }
}
