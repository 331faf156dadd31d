// One ebuild in one run: read it, ask for the latest version, and decide.
module PerEbuild {
  import opened Wrappers
  import opened EbuildName
  import opened EbuildNameLimits
  import opened DateName
  import opened Update
  import opened Github

  function LatestInfo(service: Service, segs: seq<string>, web: Web, isCommit: bool): Result<Fetched, string> {
    match service
    case GithubService => FetchedOver(segs, web, isCommit)
    case OtherService => Err("This service is not yet supported")
  }

  method GetLatestInfo(data: EbuildData, web: Web) returns (res: Result<Fetched, string>)
    ensures res == LatestInfo(data.service, data.segs, web, data.commitSpecific.Some?)
  {
    match data.service {
      case GithubService =>
        res := GithubFetchVersion(data.segs, web, data.commitSpecific.Some?);
      case OtherService =>
        res := Err("This service is not yet supported");
    }
  }

  // A commit is fetched exactly for commit ebuilds.
  lemma KindOfLatest(service: Service, segs: seq<string>, web: Web, isCommit: bool)
    ensures var r := LatestInfo(service, segs, web, isCommit);
            r.Ok? ==> (r.value.FetchedCommit? <==> isCommit)
  {
  }

  // Only GitHub is asked.
  lemma OtherServicesFail(stem: string, env: Environment, web: Web)
    requires env.service == Some(OtherService)
    ensures StageFails(stem, Some(env), web)
  {
    hide ParseStem, DateOf, FirstHash;
  }

  // ---------- What a run makes of an ebuild ----------

  // Some stage fails: the name, the environment or the feed.
  ghost predicate StageFails(stem: string, env: Option<Environment>, web: Web) {
    !IsReadable(stem, env)
    || LatestInfo(env.value.service.value, env.value.segs, web, DateOf(stem).Some?).Err?
  }

  // No stage fails, and the edit exchanges what the ebuild has for what was fetched,
  // which is greater.
  ghost predicate Proposes(stem: string, env: Option<Environment>, web: Web, edit: Edit) {
    && !StageFails(stem, env, web)
    && var latest := LatestInfo(env.value.service.value, env.value.segs, web, DateOf(stem).Some?);
       match edit
       case EditCommit(variable, o, n) =>
         && DateOf(stem) == Some(o.date) && FirstHash(env.value.commitVars) == Some((variable, o.commit))
         && latest == Ok(FetchedCommit(n)) && o.date < n.date
       case EditVerOrTag(o, n) =>
         && DateOf(stem) == None && ParseStem(stem).value.ver == o
         && latest == Ok(FetchedVersion(n)) && LexLess(o, n)
  }

  ghost predicate ProposesNothing(stem: string, env: Option<Environment>, web: Web) {
    !StageFails(stem, env, web) && forall edit :: !Proposes(stem, env, web, edit)
  }

  function Needle(edit: Edit): string {
    match edit
    case EditCommit(_, o, _) => o.commit
    case EditVerOrTag(o, _) => o
  }

  // An error exactly when a stage fails, and otherwise an edit exactly when it is an
  // update. Nothing is required: the comparison finds a date whenever it looks for one,
  // and every edit has something to replace.
  method LogicPerEbuild(stem: string, env: Option<Environment>, web: Web) returns (res: Result<Option<Edit>, string>)
    ensures res.Err? <==> StageFails(stem, env, web)
    ensures forall edit :: res == Ok(Some(edit)) <==> Proposes(stem, env, web, edit)
    ensures res == Ok(None) <==> ProposesNothing(stem, env, web)
    ensures res.Ok? && res.value.Some? ==> Needle(res.value.value) != ""
  {
    hide ParseStem, DateOf, LatestInfo, FirstHash, LexLess;
    var info := GetEbuildInfo(stem, env);
    if info.Err? {
      return Err(info.error);
    }
    var data := info.value;
    VersionIsNeverEmpty(stem);
    KindOfLatest(data.service, data.segs, web, data.commitSpecific.Some?);
    var latest := GetLatestInfo(data, web);
    if latest.Err? {
      return Err(latest.error);
    }
    var fetched := latest.value;
    var isChanged := false;
    match fetched {
      case FetchedCommit(info) =>
        if data.commitSpecific.value.date < info.date {
          isChanged := true;
        }
      case FetchedVersion(ver) =>
        if LexLess(data.ver, ver) {
          isChanged := true;
        }
    }
    if isChanged {
      match fetched {
        case FetchedCommit(info) =>
          var c := data.commitSpecific.value;
          var edit := EditCommit(c.envVarName, CommitInfo(c.date, c.commit), info);
          assert Proposes(stem, env, web, edit);
          return Ok(Some(edit));
        case FetchedVersion(ver) =>
          var edit := EditVerOrTag(data.ver, ver);
          assert Proposes(stem, env, web, edit);
          return Ok(Some(edit));
      }
    }
    return Ok(None);
  }
}
