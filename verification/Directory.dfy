// Several changes in the directory of one package: what is left, and when the order in
// which they are applied does not matter.
module Directory {
  import opened Wrappers
  import opened ReplaceSpec
  import opened EbuildName
  import opened EbuildNameTheorems
  import opened Update
  import opened UpdateTheorems

  predicate HasNeedle(edit: Edit) {
    match edit
    case EditCommit(_, o, _) => o.commit != ""
    case EditVerOrTag(o, _) => o != ""
  }

  // A change to an ebuild, with the text of the ebuild in the repository.
  datatype JobData = JobData(edit: Edit, name: string, source: string)

  // Every edit that is proposed has something to replace.
  type Job = j: JobData | HasNeedle(j.edit) witness JobData(EditVerOrTag("1", "2"), "", "")

  function Target(j: Job): string {
    NewName(j.name, j.edit)
  }

  function Apply(files: map<string, string>, j: Job): map<string, string> {
    FilesAfter(files, j.edit, j.name, Content(j.source), ALL_SUCCEED)
  }

  function ApplyAll(files: map<string, string>, js: seq<Job>): map<string, string>
    decreases |js|
  {
    if js == [] then files else ApplyAll(Apply(files, js[0]), js[1..])
  }

  // The text of the ebuild after the change.
  function TextAfter(files: map<string, string>, j: Job): string
    requires j.name in files
  {
    match j.edit
    case EditCommit(_, o, n) => Overwritten(files[j.name], Replaced(j.source, o.commit, n.commit))
    case EditVerOrTag(_, _) => files[j.name]
  }

  // A change that renames a file of the directory.
  predicate Moves(files: map<string, string>, j: Job) {
    j.name in files && Target(j) != j.name
  }

  lemma ApplyMoves(files: map<string, string>, j: Job)
    requires Moves(files, j)
    ensures Apply(files, j) == (files - {j.name})[Target(j) := TextAfter(files, j)]
  {
    hide NewName, Replaced, Overwritten;
  }

  // ---------- Two changes ----------

  // Neither goes where the other comes from or goes to.
  predicate Apart(a: Job, b: Job) {
    a.name != b.name && Target(a) != b.name && Target(b) != a.name && Target(a) != Target(b)
  }

  lemma StaysMoving(files: map<string, string>, a: Job, b: Job)
    requires Moves(files, a) && Moves(files, b) && a.name != b.name
    ensures Moves(Apply(files, a), b)
    ensures Target(a) != b.name ==> TextAfter(Apply(files, a), b) == TextAfter(files, b)
  {
    hide NewName, Replaced, Overwritten, FilesAfter;
    ApplyMoves(files, a);
  }

  // The two orders give the same directory exactly when neither change goes where the
  // other comes from, and they go to different places or bring the same text.
  lemma PairCommutesIff(files: map<string, string>, a: Job, b: Job)
    requires Moves(files, a) && Moves(files, b) && a.name != b.name
    ensures Apply(Apply(files, a), b) == Apply(Apply(files, b), a) <==>
            && Target(a) != b.name && Target(b) != a.name
            && (Target(a) != Target(b) || TextAfter(files, a) == TextAfter(files, b))
  {
    hide NewName, Replaced, Overwritten, FilesAfter, TextAfter, Apply, Target;
    StaysMoving(files, a, b);
    StaysMoving(files, b, a);
    ApplyMoves(files, a);
    ApplyMoves(files, b);
    ApplyMoves(Apply(files, a), b);
    ApplyMoves(Apply(files, b), a);
    var x, y := Apply(Apply(files, a), b), Apply(Apply(files, b), a);
    if Target(a) == b.name {
      assert b.name !in x && b.name in y;
    } else if Target(b) == a.name {
      assert a.name in x && a.name !in y;
    } else if Target(a) == Target(b) {
      assert x[Target(b)] == TextAfter(files, b) && y[Target(a)] == TextAfter(files, a);
    }
  }

  // How many files are left after two changes.
  lemma PairCount(files: map<string, string>, a: Job, b: Job)
    requires Moves(files, a) && Moves(files, b) && a.name != b.name
    ensures |Apply(Apply(files, a), b)| == |files|
            - (if Target(a) in files then 1 else 0)
            - (if Target(b) == Target(a) || (Target(b) in files && Target(b) != a.name) then 1 else 0)
  {
    hide NewName, Replaced, Overwritten, FilesAfter, TextAfter, Apply, Target;
    StaysMoving(files, a, b);
    MoveCount(files, a);
    MoveCount(Apply(files, a), b);
    ApplyMoves(files, a);
  }

  lemma MoveCount(files: map<string, string>, j: Job)
    requires Moves(files, j)
    ensures |Apply(files, j)| == if Target(j) in files then |files| - 1 else |files|
  {
    hide NewName, Replaced, Overwritten, FilesAfter, TextAfter, Apply;
    ApplyMoves(files, j);
    var after := Apply(files, j);
    assert after.Keys == files.Keys - {j.name} + {Target(j)};
    assert |after| == |after.Keys| && |files| == |files.Keys|;
  }

  lemma OtherVersionOtherName(pn: string, x: string, y: string, rev: Option<string>)
    ensures FileNameWith(pn, x, rev) == FileNameWith(pn, y, rev) ==> x == y
  {
    hide RevisionText;
    FileNameInThreeParts(pn, x, rev);
    FileNameInThreeParts(pn, y, rev);
    var p, end := |pn| + 1, RevisionText(rev) + EBUILD;
    var f, g := FileNameWith(pn, x, rev), FileNameWith(pn, y, rev);
    assert f[p..|f| - |end|] == x && g[p..|g| - |end|] == y;
  }

  // Two outdated ebuilds of a package are bumped to the same version. A file is lost for
  // the first one exactly when its new name is taken, and for the second one exactly when
  // the revisions agree or its new name is still taken.
  lemma TwoBumpsCollideIff(files: map<string, string>, pn: string, v: Version, a: Option<string>,
                           w: Version, b: Option<string>, n: string)
    requires ValidVersion(v) && ValidVersion(w) && ValidRevision(a) && ValidRevision(b)
    requires n != PrintVersion(v) && n != PrintVersion(w)
    requires FileName(pn, v, a) in files && FileName(pn, w, b) in files && FileName(pn, v, a) != FileName(pn, w, b)
    requires LeftCount(FileName(pn, v, a), PrintVersion(v)) == 1 && LeftCount(FileName(pn, w, b), PrintVersion(w)) == 1
    ensures PrintVersion(v) != "" && PrintVersion(w) != ""
    ensures var first := JobData(EditVerOrTag(PrintVersion(v), n), FileName(pn, v, a), "");
            var second := JobData(EditVerOrTag(PrintVersion(w), n), FileName(pn, w, b), "");
            |Apply(Apply(files, first), second)| == |files|
            - (if FileNameWith(pn, n, a) in files then 1 else 0)
            - (if a == b || (FileNameWith(pn, n, b) in files && FileNameWith(pn, n, b) != FileName(pn, v, a)) then 1
               else 0)
  {
    hide FileName, FileNameWith, LeftCount, PrintVersion, ValidVersion, ValidRevision, NewName, Apply;
    RenameIff(pn, v, a, n);
    RenameIff(pn, w, b, n);
    NewNamesDiffer(pn, n, a, b);
    SameFileName(pn, v, a);
    SameFileName(pn, w, b);
    OtherVersionOtherName(pn, n, PrintVersion(v), a);
    OtherVersionOtherName(pn, n, PrintVersion(w), b);
    var first := JobData(EditVerOrTag(PrintVersion(v), n), FileName(pn, v, a), "");
    var second := JobData(EditVerOrTag(PrintVersion(w), n), FileName(pn, w, b), "");
    PairCount(files, first, second);
  }

  // ---------- Any number of changes ----------

  // No change occurs twice, and any two are apart.
  ghost predicate AllApart(files: map<string, string>, js: seq<Job>) {
    && (forall j <- js :: Moves(files, j) && multiset(js)[j] == 1)
    && forall a, b :: a in js && b in js && a != b ==> Apart(a, b)
  }

  lemma RestIsApart(files: map<string, string>, js: seq<Job>)
    requires js != [] && AllApart(files, js)
    ensures Moves(files, js[0]) && forall j <- js[1..] :: j in js && j != js[0] && Apart(js[0], j)
    ensures AllApart(Apply(files, js[0]), js[1..])
  {
    hide Apply, Target, Apart, Moves;
    var a := js[0];
    assert js == [a] + js[1..] && a in js;
    assert forall j <- js[1..] :: j in js && multiset(js)[j] == multiset([a])[j] + multiset(js[1..])[j];
    forall j <- js[1..]
      ensures Moves(Apply(files, a), j) && Apart(a, j)
    {
      assert Apart(a, j);
      StayApart(files, a, j);
    }
  }

  lemma StayApart(files: map<string, string>, a: Job, b: Job)
    requires Moves(files, a) && Moves(files, b) && Apart(a, b)
    ensures Moves(Apply(files, a), b) && TextAfter(Apply(files, a), b) == TextAfter(files, b)
    ensures Apply(Apply(files, a), b) == Apply(Apply(files, b), a)
  {
    hide Apply, Target, TextAfter;
    StaysMoving(files, a, b);
    PairCommutesIff(files, a, b);
  }

  lemma {:induction false} FrontFirst(files: map<string, string>, js: seq<Job>, i: nat)
    requires i < |js| && AllApart(files, js)
    ensures ApplyAll(files, js) == ApplyAll(Apply(files, js[i]), js[..i] + js[i + 1..])
    decreases i
  {
    hide Apply, Target, Apart, Moves, AllApart;
    var b := js[i];
    if i > 0 {
      RestIsApart(files, js);
      var a, rest := js[0], js[1..i] + js[i + 1..];
      assert b == js[1..][i - 1] && b in js[1..];
      FrontFirst(Apply(files, a), js[1..], i - 1);
      assert js[1..][..i - 1] + js[1..][i..] == rest;
      assert js[..i] + js[i + 1..] == [a] + rest;
      assert ([a] + rest)[1..] == rest;
      Both(files, js, a, b);
    } else {
      assert js[..0] + js[1..] == js[1..];
    }
  }

  lemma Both(files: map<string, string>, js: seq<Job>, a: Job, b: Job)
    requires AllApart(files, js) && a in js && b in js && a != b
    ensures Apply(Apply(files, a), b) == Apply(Apply(files, b), a)
  {
    hide Apply, Target, Apart, Moves;
    StayApart(files, a, b);
  }

  // Changes that are apart leave the same directory in whatever order they are applied.
  lemma {:induction false} AnyOrder(files: map<string, string>, xs: seq<Job>, ys: seq<Job>)
    requires multiset(xs) == multiset(ys) && AllApart(files, xs)
    ensures ApplyAll(files, xs) == ApplyAll(files, ys)
    decreases |xs|
  {
    hide Apply, Target, Apart, Moves, AllApart;
    SameMembers(files, xs, ys);
    if xs == [] {
      assert |multiset(xs)| == |multiset(ys)|;
    } else {
      var i := IndexOf(xs, ys);
      FrontFirst(files, ys, i);
      RestIsApart(files, xs);
      AnyOrder(Apply(files, xs[0]), xs[1..], ys[..i] + ys[i + 1..]);
    }
  }

  lemma IndexOf(xs: seq<Job>, ys: seq<Job>) returns (i: nat)
    requires xs != [] && multiset(xs) == multiset(ys)
    ensures i < |ys| && ys[i] == xs[0] && multiset(xs[1..]) == multiset(ys[..i] + ys[i + 1..])
  {
    var a := xs[0];
    assert a in multiset(xs) && a in multiset(ys);
    i :| 0 <= i < |ys| && ys[i] == a;
    assert ys == ys[..i] + [a] + ys[i + 1..];
    assert xs == [a] + xs[1..];
    assert multiset(xs[1..]) == multiset(xs) - multiset{a};
    assert multiset(ys[..i] + ys[i + 1..]) == multiset(ys) - multiset{a};
  }

  lemma SameMembers(files: map<string, string>, xs: seq<Job>, ys: seq<Job>)
    requires multiset(xs) == multiset(ys) && AllApart(files, xs)
    ensures AllApart(files, ys)
  {
    hide Apart, Moves;
    forall j
      ensures j in xs <==> j in ys
    {
      assert j in xs <==> j in multiset(xs);
      assert j in ys <==> j in multiset(ys);
    }
  }

  predicate Touches(js: seq<Job>, name: string) {
    exists j <- js :: j.name == name || Target(j) == name
  }

  // A file that no change touches stays as it is.
  lemma {:induction false} OthersStay(files: map<string, string>, js: seq<Job>, k: string)
    requires AllApart(files, js) && !Touches(js, k)
    ensures var after := ApplyAll(files, js); (k in after <==> k in files) && (k in files ==> after[k] == files[k])
    decreases |js|
  {
    hide Apply, Target, Apart, TextAfter, AllApart;
    if js != [] {
      var a, rest := js[0], js[1..];
      assert a in js;
      RestIsApart(files, js);
      ApplyMoves(files, a);
      assert forall j <- rest :: j in js;
      OthersStay(Apply(files, a), rest, k);
    }
  }

  // Changes that are apart all arrive: every one leaves its old name and brings its own
  // text to its new one.
  lemma {:induction false} AllArrive(files: map<string, string>, js: seq<Job>, j: Job)
    requires AllApart(files, js) && j in js
    ensures Moves(files, j)
    ensures var after := ApplyAll(files, js);
            j.name !in after && Target(j) in after && after[Target(j)] == TextAfter(files, j)
    decreases |js|
  {
    hide Apply, Target, TextAfter, AllApart;
    var a, rest := js[0], js[1..];
    RestIsApart(files, js);
    ApplyMoves(files, a);
    if j == a {
      OthersStay(Apply(files, a), rest, a.name);
      OthersStay(Apply(files, a), rest, Target(a));
    } else {
      assert j in rest;
      MemberMoves(files, js, j);
      StayApart(files, a, j);
      AllArrive(Apply(files, a), rest, j);
    }
  }

  lemma MemberMoves(files: map<string, string>, js: seq<Job>, j: Job)
    requires AllApart(files, js) && j in js
    ensures Moves(files, j)
  {
  }
}
