// The version inside a release tag: the pattern, the loop that reads its groups and
// the text that is put together from them.
module TagVersion {
  import opened Wrappers
  import opened Matching
  import opened Grammar
  import opened EbuildName

  // ((?<name>[\w][\w+-]*?)-)?
  function NamePrefix(): Regex {
    Seq(Open("name"), Seq(Class(Word), Seq(Star(Class(NameChar), false), Seq(Close("name"), Lit('-')))))
  }

  // [-_\.]?(?<tag>(pre|p|beta|alpha|rc)\d*)
  function TagPart(): Regex {
    Seq(Opt(Class(AnyOf("-_."))), TagGroup())
  }

  function TagGroup(): Regex {
    Seq(Open("tag"), Seq(SuffixName(), Seq(AnyDigits(), Close("tag"))))
  }

  // (?<subver>[a-z])
  function SubverPart(): Regex {
    Seq(Open("subver"), Seq(Class(Lower), Close("subver")))
  }

  function TagLoop(): Regex {
    Star(Alt(TagPart(), SubverPart()), true)
  }

  // (-r(\d+))?
  function IgnoredRevision(): Regex {
    Opt(Seq(Text("-r"), Digits()))
  }

  // (?<ver>(\d+)(\.\d+)*)(...)*(-r(\d+))?
  function VersionAndTags(): Regex {
    Seq(Open("ver"), Seq(Digits(), Seq(Minors(), Seq(Close("ver"), Tail()))))
  }

  function Tail(): Regex {
    Seq(TagLoop(), IgnoredRevision())
  }

  function TagPattern(): Regex {
    Seq(Opt(NamePrefix()), VersionAndTags())
  }

  // ---------- The function ----------

  datatype Parts = Parts(ver: string, tag: string, subver: string)

  function LastParts(ms: seq<Match>, s: string): Parts {
    Parts(LastCapture(ms, "ver", s), LastCapture(ms, "tag", s), LastCapture(ms, "subver", s))
  }

  function Dashed(t: string): string {
    if t == "" then "" else "-" + t
  }

  function Joined(p: Parts): string {
    p.ver + (Dashed(p.tag) + Dashed(p.subver))
  }

  function ToPortage(tagOrVersion: string): Result<string, string> {
    var ms := FindAll(TagPattern(), tagOrVersion, 0);
    if ms == [] then Err("Failed to parse version of fetched version : " + tagOrVersion)
    else Ok(Joined(LastParts(ms, tagOrVersion)))
  }

  const TAG_GROUPS: seq<string> := ["name", "ver", "tag", "subver"]

  method TagToPortageVersion(tagOrVersion: string) returns (res: Result<string, string>)
    ensures res == ToPortage(tagOrVersion)
  {
    hide FindFrom, TagPattern, MatchAll, LastCapture;
    var entered := false;
    var ver, tag, subver := "", "", "";
    ghost var seen: seq<Match> := [];
    NoCaptures(tagOrVersion);
    var from := 0;
    var found := FindFrom(TagPattern(), tagOrVersion, from);
    while found.Some?
      invariant found == FindFrom(TagPattern(), tagOrVersion, from)
      invariant FindAll(TagPattern(), tagOrVersion, 0) == seen + FindAll(TagPattern(), tagOrVersion, from)
      invariant entered <==> seen != []
      invariant Parts(ver, tag, subver) == LastParts(seen, tagOrVersion)
      decreases |tagOrVersion| - from
    {
      entered := true;
      var m := found.value;
      ghost var next := seen + [m];
      NextCapture(seen, m, tagOrVersion);
      var k := 0;
      while k < |TAG_GROUPS|
        invariant k <= |TAG_GROUPS|
        invariant ver == LastCapture(if k > 1 then next else seen, "ver", tagOrVersion)
        invariant tag == LastCapture(if k > 2 then next else seen, "tag", tagOrVersion)
        invariant subver == LastCapture(if k > 3 then next else seen, "subver", tagOrVersion)
      {
        if TAG_GROUPS[k] !in m.last.caps {
          k := k + 1;
          continue;
        }
        var subpattern := Slice(tagOrVersion, m.last.caps[TAG_GROUPS[k]]);
        if TAG_GROUPS[k] == "ver" {
          ver := subpattern;
        } else if TAG_GROUPS[k] == "tag" {
          tag := subpattern;
        } else if TAG_GROUPS[k] == "subver" {
          subver := subpattern;
        }
        k := k + 1;
      }
      seen := next;
      from := After(m);
      found := FindFrom(TagPattern(), tagOrVersion, from);
    }
    assert FindAll(TagPattern(), tagOrVersion, from) == [];
    assert FindAll(TagPattern(), tagOrVersion, 0) == seen;
    if !entered {
      return Err("Failed to parse version of fetched version : " + tagOrVersion);
    }
    ghost var parts := Parts(ver, tag, subver);
    if tag != "" {
      tag := "-" + tag;
    }
    if subver != "" {
      subver := "-" + subver;
    }
    assert ver + tag + subver == Joined(parts);
    return Ok(ver + tag + subver);
  }
}
