// One ebuild: what is known about it, whether the fetched version is newer, and the
// edit that brings it up to date.
module Update {
  import opened Wrappers
  import opened ReplaceSpec
  import opened StringReplace
  import opened EbuildName
  import opened DateName
  import opened Decimal

  datatype CommitInfo = CommitInfo(date: nat, commit: string)

  datatype EbuildCommit = EbuildCommit(date: nat, commit: string, envVarName: string)

  datatype Service = GithubService | OtherService

  datatype EbuildData = EbuildData(pn: string, ver: string, rev: string, service: Service, segs: seq<string>,
                                   commitSpecific: Option<EbuildCommit>)

  // What the environment file of the ebuild gives: the variables with COMMIT in their
  // name and their values in order, the service of the first source address, if it is
  // known, and the segments of that address.
  datatype Environment = Environment(commitVars: seq<(string, string)>, service: Option<Service>, segs: seq<string>)

  datatype Fetched = FetchedCommit(info: CommitInfo) | FetchedVersion(ver: string)

  datatype Edit =
    | EditCommit(envVarName: string, oldInfo: CommitInfo, newInfo: CommitInfo)
    | EditVerOrTag(oldVer: string, newVer: string)

  // ---------- Reading an ebuild ----------

  predicate IsHexDigit(c: char) {
    '0' <= c <= '9' || 'a' <= c <= 'f'
  }

  // [0-9a-f]{40}
  predicate IsCommitHash(t: string) {
    |t| == 40 && forall c <- t :: IsHexDigit(c)
  }

  // Only these forty characters make a commit.
  lemma CommitHashIff(t: string)
    ensures IsCommitHash(t) <==> |t| == 40 && forall c <- t :: c in "0123456789abcdef"
  {
    forall c: char
      ensures IsHexDigit(c) <==> c in "0123456789abcdef"
    {
    }
  }

  // The first variable whose value is a commit.
  function FirstHash(vars: seq<(string, string)>): (r: Option<(string, string)>)
    ensures r.Some? ==> IsCommitHash(r.value.1)
  {
    if vars == [] then None
    else if IsCommitHash(vars[0].1) then Some(vars[0])
    else FirstHash(vars[1..])
  }

  // The information exists exactly when every check passes.
  predicate IsReadable(stem: string, env: Option<Environment>) {
    && ParseStem(stem).Some? && ParseStem(stem).value.pn_inval == ""
    && env.Some?
    && (DateOf(stem).Some? ==> FirstHash(env.value.commitVars).Some?)
    && env.value.service.Some?
  }

  function InfoOf(stem: string, env: Environment): EbuildData
    requires IsReadable(stem, Some(env))
  {
    var p := ParseStem(stem).value;
    EbuildData(p.pn, p.ver, p.rev, env.service.value, env.segs,
               if DateOf(stem).Some?
               then
                 var (name, commit) := FirstHash(env.commitVars).value;
                 Some(EbuildCommit(DateOf(stem).value, commit, name))
               else None)
  }

  method GetEbuildInfo(stem: string, env: Option<Environment>) returns (res: Result<EbuildData, string>)
    ensures res.Ok? <==> IsReadable(stem, env)
    ensures res.Ok? ==> res.value == InfoOf(stem, env.value)
  {
    hide DateOf, ParseStem, FirstHash;
    var date: nat := 0;
    var isCommit := false;
    if DateOf(stem).Some? {
      date := DateOf(stem).value;
      isCommit := true;
    }
    var parsed := ParseEbuildName(stem);
    if parsed.None? {
      return Err("Failed to parse the ebuild's name.");
    }
    if parsed.value.pn_inval != "" {
      return Err("Ebuild's name is invalid, it contains next invalid part: " + parsed.value.pn_inval);
    }
    if env.None? {
      return Err("Failed to run ebuild.sh");
    }
    var variable := FirstHash(env.value.commitVars);
    if isCommit && variable.None? {
      return Err("Regex for getting commit failed");
    }
    if env.value.service.None? {
      return Err("Failed to understand what service is an URI.");
    }
    var commit: Option<EbuildCommit> := None;
    if isCommit {
      commit := Some(EbuildCommit(date, variable.value.1, variable.value.0));
    }
    return Ok(EbuildData(parsed.value.pn, parsed.value.ver, parsed.value.rev, env.value.service.value, env.value.segs,
                         commit));
  }

  // ---------- Is there an update? ----------

  // std::string operator<
  predicate LexLess(a: string, b: string) {
    b != "" && (a == "" || a[0] < b[0] || (a[0] == b[0] && LexLess(a[1..], b[1..])))
  }

  // ---------- Applying the update ----------

  // Writing from offset 0 into an existing file that is not truncated.
  function Overwritten(old_: string, content: string): string {
    if |old_| <= |content| then content else content + old_[|content|..]
  }

  lemma OverwrittenText(old_: string, content: string)
    ensures var t := Overwritten(old_, content);
            && |t| == (if |old_| > |content| then |old_| else |content|)
            && forall i :: 0 <= i < |t| ==> t[i] == if i < |content| then content[i] else old_[i]
  {
  }

  function Renamed(files: map<string, string>, from: string, to: string): map<string, string>
    requires from in files
  {
    if from == to then files else (files - {from})[to := files[from]]
  }

  function NewName(fileName: string, edit: Edit): string
    requires edit.EditVerOrTag? ==> edit.oldVer != ""
  {
    match edit
    case EditCommit(_, o, n) => Replaced(fileName, PrintNat(o.date), PrintNat(n.date))
    case EditVerOrTag(o, n) => Replaced(fileName, o, n)
  }

  // Which of the foreign steps succeed.
  datatype Steps = Steps(write: bool, rename: bool, manifest: bool)

  // The ebuild in the repository: its text, or that reading it fails, or that it is
  // not there.
  datatype Source = Content(text: string) | Unreadable | Absent

  // How an operation ends; an exception leaves the whole run.
  datatype Ending = Done | Error | Exception

  function Rewritten(files: map<string, string>, name: string, source: string, o: string, n: string)
    : map<string, string>
    requires name in files && o != ""
  {
    files[name := Overwritten(files[name], Replaced(source, o, n))]
  }

  // The directory after an attempt: a commit is first written and then moved, a
  // version is only moved; what happened before a failing step stays.
  function FilesAfter(files: map<string, string>, edit: Edit, name: string, source: Source, steps: Steps)
    : map<string, string>
    requires edit.EditVerOrTag? ==> edit.oldVer != ""
    requires edit.EditCommit? ==> edit.oldInfo.commit != ""
  {
    if name !in files || (edit.EditCommit? && !(source.Content? && steps.write)) then files
    else
      var edited :=
        if edit.EditCommit? then Rewritten(files, name, source.text, edit.oldInfo.commit, edit.newInfo.commit)
        else files;
      if steps.rename then Renamed(edited, name, NewName(name, edit)) else edited
  }

  // The directory of one package in a worktree.
  class PackageDir {
    var files: map<string, string>

    constructor (files: map<string, string>)
      ensures this.files == files
    {
      this.files := files;
    }

    method StringToFile(content: string, name: string, ok: bool) returns (r: Ending)
      modifies this
      ensures r.Exception? <==> name !in old(files)
      ensures r.Done? <==> name in old(files) && ok
      ensures files == if r.Done? then old(files)[name := Overwritten(old(files)[name], content)] else old(files)
      ensures r.Done? ==>
                && |files[name]| == (if |old(files)[name]| > |content| then |old(files)[name]| else |content|)
                && forall i :: 0 <= i < |files[name]| ==>
                     files[name][i] == if i < |content| then content[i] else old(files)[name][i]
    {
      if name !in files {
        return Exception;
      }
      if !ok {
        return Error;
      }
      OverwrittenText(files[name], content);
      files := files[name := Overwritten(files[name], content)];
      return Done;
    }

    method Rename(from: string, to: string, ok: bool) returns (done: bool)
      modifies this
      ensures done <==> from in old(files) && ok
      ensures files == if done then Renamed(old(files), from, to) else old(files)
    {
      done := from in files && ok;
      if done && from != to {
        var content := files[from];
        files := files - {from};
        files := files[to := content];
      }
    }

    method ApplyChange(edit: Edit, fileName: string, source: Source, steps: Steps) returns (r: Ending)
      requires edit.EditVerOrTag? ==> edit.oldVer != ""
      requires edit.EditCommit? ==> edit.oldInfo.commit != ""
      modifies this
      ensures r.Done? <==> && fileName in old(files) && steps.rename
                           && (edit.EditCommit? ==> source.Content? && steps.write)
                           && (edit.EditVerOrTag? ==> steps.manifest)
      ensures r.Exception? <==> && edit.EditCommit? && !source.Unreadable?
                                && (source.Absent? || fileName !in old(files))
      ensures files == FilesAfter(old(files), edit, fileName, source, steps)
    {
      match edit {
        case EditCommit(_, o, n) =>
          match source {
            case Absent =>
              return Exception;
            case Unreadable =>
              return Error;
            case Content(text) =>
              var edited := Replace(text, o.commit, n.commit);
              var newName := Replace(fileName, PrintNat(o.date), PrintNat(n.date));
              r := StringToFile(edited, fileName, steps.write);
              if r.Done? {
                var renamed := Rename(fileName, newName, steps.rename);
                r := if renamed then Done else Error;
              }
          }
        case EditVerOrTag(o, n) =>
          var newName := Replace(fileName, o, n);
          var renamed := Rename(fileName, newName, steps.rename);
          r := if renamed && steps.manifest then Done else Error;
      }
    }
  }
}
