// The tasks that create the worktrees and apply the changes, as steps of one run in
// any order, and the code the program returns.
module Dispatch {
  import opened Wrappers
  import opened Groups
  import opened Collect

  datatype ReturnCode =
    | Success
    | PartialSuccess
    | AllHaveFailed
    | NoEbuildFound
    | FailedGitFetch
    | FailedMakingGitToMakeWorktrees
    | FailedApplyChange
    | FailParsePromptResult

  predicate IsFailure(c: ReturnCode) {
    c != Success && c != PartialSuccess
  }

  datatype WorktreeStatus = Creating | Created | Gone

  datatype ChangeStatus = Waiting | Applying | Ended

  // Where the tasks are, the shared return code, whether the nursery is cancelled, and
  // whether an exception is leaving it.
  datatype Run = Run(worktrees: seq<WorktreeStatus>, changes: seq<ChangeStatus>,
                     code: Option<ReturnCode>, cancelled: bool, thrown: bool)

  // A task ends well or badly, throws because a file is missing, or is dropped after a
  // cancellation.
  datatype Event =
    | WorktreeEnds(worktree: nat, ok: bool)
    | WorktreeDropped(worktree: nat)
    | ApplyEnds(change: nat, ok: bool)
    | ApplyThrows(change: nat)
    | ApplyDropped(change: nat)

  predicate IsBad(e: Event) {
    match e
    case WorktreeEnds(_, ok) => !ok
    case ApplyEnds(_, ok) => !ok
    case ApplyThrows(_) => true
    case _ => false
  }

  // ---------- Steps ----------

  function Initial(plan: seq<Worktree>, n: nat, code: Option<ReturnCode>): Run {
    Run(seq(|plan|, _ => Creating), seq(n, _ => Waiting), code, false, false)
  }

  // All members of a worktree start to be applied.
  function StartAll(changes: seq<ChangeStatus>, members: seq<nat>): (r: seq<ChangeStatus>)
    ensures |r| == |changes|
    ensures forall c :: 0 <= c < |changes| ==> r[c] == if c in members then Applying else changes[c]
  {
    seq(|changes|, c requires 0 <= c < |changes| => if c in members then Applying else changes[c])
  }

  predicate Fits(plan: seq<Worktree>, r: Run) {
    |r.worktrees| == |plan|
  }

  predicate Enabled(r: Run, e: Event) {
    match e
    case WorktreeEnds(w, _) => w < |r.worktrees| && r.worktrees[w] == Creating
    case WorktreeDropped(w) => r.cancelled && w < |r.worktrees| && r.worktrees[w] == Creating
    case ApplyEnds(c, _) => c < |r.changes| && r.changes[c] == Applying
    case ApplyThrows(c) => c < |r.changes| && r.changes[c] == Applying
    case ApplyDropped(c) => r.cancelled && c < |r.changes| && r.changes[c] == Applying
  }

  function Next(plan: seq<Worktree>, r: Run, e: Event): (r': Run)
    requires Fits(plan, r) && Enabled(r, e)
    ensures Fits(plan, r') && |r'.changes| == |r.changes|
  {
    match e
    case WorktreeEnds(w, ok) =>
      if ok then r.(worktrees := r.worktrees[w := Created], changes := StartAll(r.changes, plan[w].members))
      else r.(worktrees := r.worktrees[w := Gone], code := Some(FailedMakingGitToMakeWorktrees), cancelled := true)
    case WorktreeDropped(w) => r.(worktrees := r.worktrees[w := Gone])
    case ApplyEnds(c, ok) =>
      if ok then r.(changes := r.changes[c := Ended])
      else r.(changes := r.changes[c := Ended], code := Some(FailedApplyChange), cancelled := true)
    case ApplyThrows(c) => r.(changes := r.changes[c := Ended], cancelled := true, thrown := true)
    case ApplyDropped(c) => r.(changes := r.changes[c := Ended])
  }

  // The run after a trace of events, if every event was possible.
  function Exec(plan: seq<Worktree>, start: Run, trace: seq<Event>): (r: Option<Run>)
    requires Fits(plan, start)
    ensures r.Some? ==> Fits(plan, r.value) && |r.value.changes| == |start.changes|
  {
    if trace == [] then Some(start)
    else
      var m := |trace| - 1;
      match Exec(plan, start, trace[..m])
      case None => None
      case Some(r) => if Enabled(r, trace[m]) then Some(Next(plan, r, trace[m])) else None
  }

  predicate Owns(plan: seq<Worktree>, w: nat, c: nat) {
    w < |plan| && c in plan[w].members
  }

  // Every change belongs to exactly one worktree.
  ghost predicate Partitions(plan: seq<Worktree>, n: nat) {
    && (forall c: nat :: c < n ==> HasOwner(plan, c))
    && (forall v: nat, w: nat, c: nat :: Owns(plan, v, c) && Owns(plan, w, c) ==> v == w)
  }

  ghost predicate HasOwner(plan: seq<Worktree>, c: nat) {
    exists w: nat :: Owns(plan, w, c)
  }

  lemma {:induction false} FlattenMember(ws: seq<Worktree>, w: nat, c: nat)
    requires w < |ws| && c in ws[w].members
    ensures c in Flatten(ws)
    ensures multiset(Flatten(ws))[c] >= multiset(ws[w].members)[c]
  {
    var m := |ws| - 1;
    if w < m {
      FlattenMember(ws[..m], w, c);
    }
  }

  lemma {:induction false} FlattenTwice(ws: seq<Worktree>, v: nat, w: nat, c: nat)
    requires v < w < |ws| && c in ws[v].members && c in ws[w].members
    ensures multiset(Flatten(ws))[c] >= 2
  {
    var m := |ws| - 1;
    if w < m {
      FlattenTwice(ws[..m], v, w, c);
    } else {
      FlattenMember(ws[..m], v, c);
    }
  }

  lemma {:induction false} MemberOfFlatten(ws: seq<Worktree>, c: nat) returns (w: nat)
    requires c in Flatten(ws)
    ensures w < |ws| && c in ws[w].members
  {
    var m := |ws| - 1;
    if c in ws[m].members {
      w := m;
    } else {
      w := MemberOfFlatten(ws[..m], c);
    }
  }

  lemma {:induction false} UpToCounts(n: nat, c: nat)
    ensures multiset(UpTo(n))[c] == if c < n then 1 else 0
  {
    if n > 0 {
      UpToCounts(n - 1, c);
    }
  }

  // The plan made from any keys is such a partition.
  lemma PlanPartitions(keys: seq<nat>, n: nat)
    requires forall k <- keys :: k <= n
    ensures Partitions(Plan(keys, n), |keys|)
  {
    hide Plan, Flatten;
    var plan := Plan(keys, n);
    EveryChangeOnce(keys, n);
    forall c: nat | c < |keys|
      ensures HasOwner(plan, c)
    {
      UpToCounts(|keys|, c);
      assert c in multiset(Flatten(plan));
      var w := MemberOfFlatten(plan, c);
      assert Owns(plan, w, c);
    }
    forall v: nat, w: nat, c: nat | Owns(plan, v, c) && Owns(plan, w, c)
      ensures v == w
    {
      UpToCounts(|keys|, c);
      if v < w {
        FlattenTwice(plan, v, w, c);
      } else if w < v {
        FlattenTwice(plan, w, v, c);
      }
    }
  }

  // ---------- What every reachable run keeps ----------

  predicate HasEnded(trace: seq<Event>, c: nat) {
    ApplyEnds(c, true) in trace || ApplyEnds(c, false) in trace
    || ApplyThrows(c) in trace || ApplyDropped(c) in trace
  }

  predicate WorktreeGone(trace: seq<Event>, w: nat) {
    WorktreeEnds(w, false) in trace || WorktreeDropped(w) in trace
  }

  // The status of a worktree tells how its task ended.
  ghost predicate WorktreesTold(trace: seq<Event>, r: Run) {
    forall w :: 0 <= w < |r.worktrees| ==>
      && (r.worktrees[w] == Created <==> WorktreeEnds(w, true) in trace)
      && (r.worktrees[w] == Gone <==> WorktreeGone(trace, w))
  }

  // A change waits exactly as long as its worktree is not created.
  ghost predicate WaitForWorktree(plan: seq<Worktree>, r: Run) {
    forall w: nat, c: nat :: Owns(plan, w, c) && w < |r.worktrees| && c < |r.changes| ==>
      (r.changes[c] == Waiting <==> r.worktrees[w] != Created)
  }

  // A change has ended exactly when its task has.
  ghost predicate EndingsTold(trace: seq<Event>, r: Run) {
    forall c :: 0 <= c < |r.changes| ==> (r.changes[c] == Ended <==> HasEnded(trace, c))
  }

  // The code the program returns because of the run: an exception ends in a handler
  // outside and makes it forget the shared code.
  function RunCode(r: Run): Option<ReturnCode> {
    if r.thrown then Some(FailParsePromptResult) else r.code
  }

  // Cancelled means that something failed, and then the code is a failure.
  ghost predicate CodeTold(trace: seq<Event>, start: Run, r: Run) {
    && (r.cancelled <==> exists e <- trace :: IsBad(e))
    && (r.thrown <==> exists e <- trace :: e.ApplyThrows?)
    && (if r.cancelled then RunCode(r).Some? && IsFailure(RunCode(r).value) else r.code == start.code && !r.thrown)
  }

  lemma InTrace(trace: seq<Event>, e: Event)
    ensures forall x :: x in trace + [e] <==> x in trace || x == e
  {
  }

  lemma WorktreesStep(plan: seq<Worktree>, trace: seq<Event>, r: Run, e: Event)
    requires Fits(plan, r) && Enabled(r, e) && WorktreesTold(trace, r)
    ensures WorktreesTold(trace + [e], Next(plan, r, e))
  {
    InTrace(trace, e);
  }

  lemma WaitStep(plan: seq<Worktree>, r: Run, e: Event)
    requires Fits(plan, r) && Enabled(r, e) && Partitions(plan, |r.changes|) && WaitForWorktree(plan, r)
    ensures WaitForWorktree(plan, Next(plan, r, e))
  {
    var r' := Next(plan, r, e);
    forall w: nat, c: nat | Owns(plan, w, c) && w < |r'.worktrees| && c < |r'.changes|
      ensures r'.changes[c] == Waiting <==> r'.worktrees[w] != Created
    {
      if e.WorktreeEnds? && e.ok && c in plan[e.worktree].members {
        assert Owns(plan, e.worktree, c);
      }
    }
  }

  lemma EndingsStep(plan: seq<Worktree>, trace: seq<Event>, r: Run, e: Event)
    requires Fits(plan, r) && Enabled(r, e) && WaitForWorktree(plan, r) && EndingsTold(trace, r)
    ensures EndingsTold(trace + [e], Next(plan, r, e))
  {
    InTrace(trace, e);
    var r' := Next(plan, r, e);
    forall c | 0 <= c < |r'.changes|
      ensures r'.changes[c] == Ended <==> HasEnded(trace + [e], c)
    {
      if e.WorktreeEnds? && e.ok && c in plan[e.worktree].members {
        assert Owns(plan, e.worktree, c);
      }
    }
  }

  lemma CodeStep(plan: seq<Worktree>, trace: seq<Event>, start: Run, r: Run, e: Event)
    requires Fits(plan, r) && Enabled(r, e) && CodeTold(trace, start, r)
    ensures CodeTold(trace + [e], start, Next(plan, r, e))
  {
    InTrace(trace, e);
    if IsBad(e) {
      assert e in trace + [e];
    }
  }

  ghost predicate Inv(plan: seq<Worktree>, trace: seq<Event>, start: Run, r: Run) {
    && WorktreesTold(trace, r) && WaitForWorktree(plan, r) && EndingsTold(trace, r) && CodeTold(trace, start, r)
  }

  lemma {:induction false} InvHolds(plan: seq<Worktree>, n: nat, code: Option<ReturnCode>, trace: seq<Event>)
    requires Partitions(plan, n)
    requires Exec(plan, Initial(plan, n, code), trace).Some?
    ensures Inv(plan, trace, Initial(plan, n, code), Exec(plan, Initial(plan, n, code), trace).value)
  {
    var start := Initial(plan, n, code);
    if trace != [] {
      hide WorktreesTold, WaitForWorktree, EndingsTold, CodeTold, Partitions, Next, Enabled, Initial, Fits;
      var m := |trace| - 1;
      assert |start.changes| == n by { InitialSize(plan, n, code); }
      InvHolds(plan, n, code, trace[..m]);
      var r, e := Exec(plan, start, trace[..m]).value, trace[m];
      assert trace == trace[..m] + [e];
      WorktreesStep(plan, trace[..m], r, e);
      WaitStep(plan, r, e);
      EndingsStep(plan, trace[..m], r, e);
      CodeStep(plan, trace[..m], start, r, e);
    } else {
      InvInitially(plan, n, code);
    }
  }

  lemma InvInitially(plan: seq<Worktree>, n: nat, code: Option<ReturnCode>)
    ensures Inv(plan, [], Initial(plan, n, code), Initial(plan, n, code))
  {
    assert WaitForWorktree(plan, Initial(plan, n, code));
    assert CodeTold([], Initial(plan, n, code), Initial(plan, n, code));
  }

  lemma InitialSize(plan: seq<Worktree>, n: nat, code: Option<ReturnCode>)
    ensures |Initial(plan, n, code).changes| == n && Fits(plan, Initial(plan, n, code))
  {
  }

  // ---------- Every run ----------

  lemma {:induction false} PrefixRuns(plan: seq<Worktree>, start: Run, trace: seq<Event>, j: nat)
    requires Fits(plan, start) && Exec(plan, start, trace).Some? && j < |trace|
    ensures Exec(plan, start, trace[..j]).Some? && Enabled(Exec(plan, start, trace[..j]).value, trace[j])
  {
    hide Next, Enabled;
    var m := |trace| - 1;
    if j < m {
      PrefixRuns(plan, start, trace[..m], j);
      assert trace[..m][..j] == trace[..j];
    }
  }

  // A change is applied only after its own worktree was created.
  lemma AppliedAfterOwnWorktree(plan: seq<Worktree>, n: nat, code: Option<ReturnCode>, trace: seq<Event>,
                                j: nat, w: nat)
    requires Partitions(plan, n) && Exec(plan, Initial(plan, n, code), trace).Some?
    requires j < |trace| && (trace[j].ApplyEnds? || trace[j].ApplyThrows?) && Owns(plan, w, trace[j].change)
    ensures exists i :: 0 <= i < j && trace[i] == WorktreeEnds(w, true)
  {
    hide Exec, Next;
    PrefixRuns(plan, Initial(plan, n, code), trace, j);
    InvHolds(plan, n, code, trace[..j]);
    assert WorktreeEnds(w, true) in trace[..j];
    var i :| 0 <= i < j && trace[..j][i] == WorktreeEnds(w, true);
    assert trace[i] == WorktreeEnds(w, true);
  }

  // No change is applied twice.
  lemma AppliedAtMostOnce(plan: seq<Worktree>, n: nat, code: Option<ReturnCode>, trace: seq<Event>, i: nat, j: nat)
    requires Partitions(plan, n) && Exec(plan, Initial(plan, n, code), trace).Some?
    requires i < j < |trace|
    requires trace[i].ApplyEnds? || trace[i].ApplyThrows?
    requires trace[j].ApplyEnds? || trace[j].ApplyThrows?
    ensures trace[i].change != trace[j].change
  {
    hide Exec, Next, Partitions;
    PrefixRuns(plan, Initial(plan, n, code), trace, j);
    InvHolds(plan, n, code, trace[..j]);
    assert trace[..j][i] == trace[i];
    assert trace[i] in trace[..j];
    assert HasEnded(trace[..j], trace[i].change);
  }

  // A failed step always shows in the return code, and without one the code stays.
  // Exceptions are what happened in the run, no more and no less.
  lemma FailureIsReported(plan: seq<Worktree>, n: nat, code: Option<ReturnCode>, trace: seq<Event>)
    requires Partitions(plan, n) && Exec(plan, Initial(plan, n, code), trace).Some?
    ensures var r := Exec(plan, Initial(plan, n, code), trace).value;
            if exists e <- trace :: IsBad(e) then RunCode(r).Some? && IsFailure(RunCode(r).value)
            else RunCode(r) == code
    ensures Exec(plan, Initial(plan, n, code), trace).value.thrown <==> exists e <- trace :: e.ApplyThrows?
  {
    hide Exec, Next, Partitions;
    InvHolds(plan, n, code, trace);
  }

  // Once a step has failed, the code is that of a failed step.
  lemma {:induction false} StepFailures(plan: seq<Worktree>, n: nat, code: Option<ReturnCode>, trace: seq<Event>)
    requires Exec(plan, Initial(plan, n, code), trace).Some?
    ensures var r := Exec(plan, Initial(plan, n, code), trace).value;
            r.code == code || r.code == Some(FailedMakingGitToMakeWorktrees) || r.code == Some(FailedApplyChange)
  {
    if trace != [] {
      StepFailures(plan, n, code, trace[..|trace| - 1]);
    }
  }

  // The last failed step before which nothing is lost: no later step failed.
  predicate LastFailure(trace: seq<Event>, j: int) {
    0 <= j < |trace| && IsBad(trace[j]) && !trace[j].ApplyThrows? && forall i :: j < i < |trace| ==> !IsBad(trace[i])
  }

  // The code is that of the last failed step.
  lemma {:induction false} LastFailureDecides(plan: seq<Worktree>, n: nat, code: Option<ReturnCode>, trace: seq<Event>,
                                              j: int)
    requires Exec(plan, Initial(plan, n, code), trace).Some? && LastFailure(trace, j)
    ensures Exec(plan, Initial(plan, n, code), trace).value.code ==
            Some(if trace[j].WorktreeEnds? then FailedMakingGitToMakeWorktrees else FailedApplyChange)
  {
    var m := |trace| - 1;
    if j < m {
      assert trace[..m][j] == trace[j];
      LastFailureDecides(plan, n, code, trace[..m], j);
    }
  }

  predicate Quiet(r: Run) {
    && (forall w :: 0 <= w < |r.worktrees| ==> r.worktrees[w] != Creating)
    && (forall c :: 0 <= c < |r.changes| ==> r.changes[c] != Applying)
  }

  // A run without a failed step that has come to its end applied every change.
  lemma CompleteRunAppliesAll(plan: seq<Worktree>, n: nat, code: Option<ReturnCode>, trace: seq<Event>, c: nat)
    requires Partitions(plan, n) && Exec(plan, Initial(plan, n, code), trace).Some?
    requires Quiet(Exec(plan, Initial(plan, n, code), trace).value) && c < n
    requires forall e <- trace :: !IsBad(e)
    ensures ApplyEnds(c, true) in trace
  {
    hide Exec, Next;
    var r := Exec(plan, Initial(plan, n, code), trace).value;
    InvHolds(plan, n, code, trace);
    NothingDropped(plan, n, code, trace);
    assert HasOwner(plan, c);
    var w: nat :| Owns(plan, w, c);
    assert r.worktrees[w] == Created by {
      assert !WorktreeGone(trace, w);
    }
    assert HasEnded(trace, c);
  }

  lemma {:induction false} NothingDropped(plan: seq<Worktree>, n: nat, code: Option<ReturnCode>, trace: seq<Event>)
    requires Partitions(plan, n) && Exec(plan, Initial(plan, n, code), trace).Some?
    requires forall e <- trace :: !IsBad(e)
    ensures forall e <- trace :: !e.WorktreeDropped? && !e.ApplyDropped?
  {
    hide Next, Partitions;
    if trace != [] {
      var m := |trace| - 1;
      assert trace == trace[..m] + [trace[m]];
      assert forall e <- trace[..m] :: e in trace;
      NothingDropped(plan, n, code, trace[..m]);
      InvHolds(plan, n, code, trace[..m]);
    }
  }

  // ---------- Every run ends ----------

  function CountCreating(xs: seq<WorktreeStatus>): nat {
    if xs == [] then 0
    else CountCreating(xs[..|xs| - 1]) + if xs[|xs| - 1] == Creating then 1 else 0
  }

  function CountOpen(xs: seq<ChangeStatus>): nat {
    if xs == [] then 0
    else CountOpen(xs[..|xs| - 1]) + if xs[|xs| - 1] == Ended then 0 else 1
  }

  // What is still to do: worktrees to create, and changes to apply.
  function ToDo(r: Run): nat {
    CountCreating(r.worktrees) + CountOpen(r.changes)
  }

  lemma {:induction false} CreatingUpdate(xs: seq<WorktreeStatus>, w: nat, v: WorktreeStatus)
    requires w < |xs| && xs[w] == Creating && v != Creating
    ensures CountCreating(xs[w := v]) == CountCreating(xs) - 1
  {
    var m := |xs| - 1;
    if w < m {
      CreatingUpdate(xs[..m], w, v);
      assert xs[w := v][..m] == xs[..m][w := v];
    } else {
      assert xs[w := v][..m] == xs[..m];
    }
  }

  lemma {:induction false} OpenUpdate(xs: seq<ChangeStatus>, c: nat)
    requires c < |xs| && xs[c] != Ended
    ensures CountOpen(xs[c := Ended]) == CountOpen(xs) - 1
  {
    var m := |xs| - 1;
    if c < m {
      OpenUpdate(xs[..m], c);
      assert xs[c := Ended][..m] == xs[..m][c := Ended];
    } else {
      assert xs[c := Ended][..m] == xs[..m];
    }
  }

  lemma {:induction false} SameOpen(xs: seq<ChangeStatus>, ys: seq<ChangeStatus>)
    requires |xs| == |ys| && forall i :: 0 <= i < |xs| ==> (xs[i] == Ended <==> ys[i] == Ended)
    ensures CountOpen(xs) == CountOpen(ys)
  {
    if xs != [] {
      var m := |xs| - 1;
      SameOpen(xs[..m], ys[..m]);
    }
  }

  // Every event takes one thing off what is to do.
  lemma EventDoesOne(plan: seq<Worktree>, r: Run, e: Event)
    requires Fits(plan, r) && Enabled(r, e) && Partitions(plan, |r.changes|) && WaitForWorktree(plan, r)
    ensures ToDo(Next(plan, r, e)) == ToDo(r) - 1
  {
    hide CountCreating, CountOpen;
    match e
    case WorktreeEnds(w, ok) =>
      CreatingUpdate(r.worktrees, w, if ok then Created else Gone);
      forall c: nat | c < |r.changes| && c in plan[w].members
        ensures r.changes[c] == Waiting
      {
        assert Owns(plan, w, c);
      }
      SameOpen(r.changes, StartAll(r.changes, plan[w].members));
    case WorktreeDropped(w) =>
      CreatingUpdate(r.worktrees, w, Gone);
    case ApplyEnds(c, _) =>
      OpenUpdate(r.changes, c);
    case ApplyThrows(c) =>
      OpenUpdate(r.changes, c);
    case ApplyDropped(c) =>
      OpenUpdate(r.changes, c);
  }

  lemma InitialToDo(plan: seq<Worktree>, n: nat, code: Option<ReturnCode>)
    ensures ToDo(Initial(plan, n, code)) == |plan| + n
  {
    AllCreating(seq(|plan|, _ => Creating));
    AllOpen(seq(n, _ => Waiting));
  }

  lemma {:induction false} AllCreating(xs: seq<WorktreeStatus>)
    requires forall i :: 0 <= i < |xs| ==> xs[i] == Creating
    ensures CountCreating(xs) == |xs|
  {
    if xs != [] {
      AllCreating(xs[..|xs| - 1]);
    }
  }

  lemma {:induction false} AllOpen(xs: seq<ChangeStatus>)
    requires forall i :: 0 <= i < |xs| ==> xs[i] == Waiting
    ensures CountOpen(xs) == |xs|
  {
    if xs != [] {
      AllOpen(xs[..|xs| - 1]);
    }
  }

  // A run has at most one event for every worktree and every change.
  lemma {:induction false} RunIsBounded(plan: seq<Worktree>, n: nat, code: Option<ReturnCode>, trace: seq<Event>)
    requires Partitions(plan, n) && Exec(plan, Initial(plan, n, code), trace).Some?
    ensures |trace| + ToDo(Exec(plan, Initial(plan, n, code), trace).value) == |plan| + n
  {
    hide Next, Enabled, Partitions, WaitForWorktree, WorktreesTold, EndingsTold, CodeTold, ToDo, Initial;
    InitialToDo(plan, n, code);
    InitialSize(plan, n, code);
    if trace != [] {
      var m := |trace| - 1;
      RunIsBounded(plan, n, code, trace[..m]);
      InvHolds(plan, n, code, trace[..m]);
      EventDoesOne(plan, Exec(plan, Initial(plan, n, code), trace[..m]).value, trace[m]);
    }
  }

  // ---------- The return code of the program ----------

  function FinalCode(code: Option<ReturnCode>, hasAnyFailed: bool, isAnySuccessful: bool): ReturnCode {
    if code.Some? then code.value
    else if hasAnyFailed && isAnySuccessful then PartialSuccess
    else if hasAnyFailed && !isAnySuccessful then AllHaveFailed
    else if !isAnySuccessful then NoEbuildFound
    else Success
  }

  // The end of the program, from the shared code and the record of the scan.
  method ChooseReturnCode(code: Option<ReturnCode>, changes: PackagesToUpdate, ghost os: seq<Outcome>)
    returns (r: ReturnCode)
    requires changes.Records(os)
    ensures r == FinalCode(code, Outcome.Failed in os, Outcome.NothingToChange in os)
  {
    if code.Some? {
      return code.value;
    }
    if changes.hasAnyFailed && changes.isAnySuccessful {
      return PartialSuccess;
    } else if changes.hasAnyFailed && !changes.isAnySuccessful {
      return AllHaveFailed;
    } else if !changes.isAnySuccessful {
      return NoEbuildFound;
    } else {
      return Success;
    }
  }

  // The packages of the changes that were collected.
  function PackagesOf(os: seq<Outcome>): (pvs: seq<string>)
    ensures |pvs| == |ChangesOf(os)|
  {
    PackagesIn(ChangesOf(os))
  }

  // The worktrees for the collected outcomes under a group file.
  function PlanOf(groups: GroupsCollection, os: seq<Outcome>): seq<Worktree> {
    Plan(KeysOf(groups.groups, PackagesOf(os)), groups.amount)
  }

  // The run after a trace, from the fetch of the repository and the outcomes collected.
  function RunOf(groups: GroupsCollection, os: seq<Outcome>, fetched: bool, trace: seq<Event>): Option<Run> {
    var plan := PlanOf(groups, os);
    Exec(plan, Initial(plan, |ChangesOf(os)|, if fetched then None else Some(FailedGitFetch)), trace)
  }

  lemma PlanOfPartitions(file: seq<seq<string>>, groups: GroupsCollection, os: seq<Outcome>)
    requires groups.amount == |file| && NumbersGroups(groups.groups, file)
    ensures Partitions(PlanOf(groups, os), |ChangesOf(os)|)
  {
    hide Plan, Partitions;
    var pvs := PackagesOf(os);
    KeysAreGroupNumbers(file, groups.groups, pvs);
    PlanPartitions(KeysOf(groups.groups, pvs), groups.amount);
  }

  // Every group owns a change, so that the code can look up the first one of each; no
  // run gets beyond that point otherwise.
  ghost predicate CanDispatch(groups: GroupsCollection, os: seq<Outcome>) {
    EveryGroupOwnsAChange(KeysOf(groups.groups, PackagesOf(os)), groups.amount)
  }

  // The code tells how a run that can dispatch went, for any interleaving. When every
  // ebuild found an update and all were applied, the code is NoEbuildFound, as when there
  // was no ebuild at all.
  lemma ReturnCodeTells(file: seq<seq<string>>, groups: GroupsCollection, os: seq<Outcome>, fetched: bool,
                        trace: seq<Event>)
    requires groups.amount == |file| && NumbersGroups(groups.groups, file)
    requires CanDispatch(groups, os) && RunOf(groups, os, fetched, trace).Some?
    ensures var final := FinalCode(RunCode(RunOf(groups, os, fetched, trace).value),
                                   Outcome.Failed in os, Outcome.NothingToChange in os);
            var stepFailed := !fetched || exists e <- trace :: IsBad(e);
            && (stepFailed ==> IsFailure(final) && !final.AllHaveFailed? && !final.NoEbuildFound?)
            && (final.Success? <==> !stepFailed && Outcome.Failed !in os && Outcome.NothingToChange in os)
            && (final.PartialSuccess? <==> !stepFailed && Outcome.Failed in os && Outcome.NothingToChange in os)
            && (final.AllHaveFailed? <==> !stepFailed && Outcome.Failed in os && Outcome.NothingToChange !in os)
            && (final.NoEbuildFound? <==> !stepFailed && forall o <- os :: o.Change?)
            && (final.FailParsePromptResult? <==> exists e <- trace :: e.ApplyThrows?)
            && (!fetched && !(exists e <- trace :: IsBad(e)) ==> final == FailedGitFetch)
            && (!(exists e <- trace :: e.ApplyThrows?) ==>
                  forall j :: LastFailure(trace, j) ==>
                    final == if trace[j].WorktreeEnds? then FailedMakingGitToMakeWorktrees else FailedApplyChange)
  {
    hide Exec, PlanOf, Partitions, Initial;
    PlanOfPartitions(file, groups, os);
    forall j | LastFailure(trace, j)
      ensures RunOf(groups, os, fetched, trace).value.code ==
              Some(if trace[j].WorktreeEnds? then FailedMakingGitToMakeWorktrees else FailedApplyChange)
    {
      LastFailureDecides(PlanOf(groups, os), |ChangesOf(os)|, if fetched then None else Some(FailedGitFetch), trace, j);
    }
    FailureIsReported(PlanOf(groups, os), |ChangesOf(os)|, if fetched then None else Some(FailedGitFetch), trace);
    StepFailures(PlanOf(groups, os), |ChangesOf(os)|, if fetched then None else Some(FailedGitFetch), trace);
    assert (forall o <- os :: o.Change?) <==> Outcome.Failed !in os && Outcome.NothingToChange !in os;
  }

  // A run that ended with a code of success applied every change, each after its own
  // worktree.
  lemma SuccessMeansApplied(file: seq<seq<string>>, groups: GroupsCollection, os: seq<Outcome>, fetched: bool,
                            trace: seq<Event>, c: nat)
    requires groups.amount == |file| && NumbersGroups(groups.groups, file)
    requires CanDispatch(groups, os) && RunOf(groups, os, fetched, trace).Some?
    requires Quiet(RunOf(groups, os, fetched, trace).value)
    requires !IsFailure(FinalCode(RunCode(RunOf(groups, os, fetched, trace).value),
                                  Outcome.Failed in os, Outcome.NothingToChange in os))
    requires c < |ChangesOf(os)|
    ensures exists i, j, w: nat :: 0 <= i < j < |trace| && Owns(PlanOf(groups, os), w, c)
                                   && trace[i] == WorktreeEnds(w, true) && trace[j] == ApplyEnds(c, true)
  {
    hide Exec, PlanOf, Initial, ChangesOf, Owns, Quiet;
    ReturnCodeTells(file, groups, os, fetched, trace);
    PlanOfPartitions(file, groups, os);
    var plan, n := PlanOf(groups, os), |ChangesOf(os)|;
    var code := if fetched then None else Some(FailedGitFetch);
    CompleteRunAppliesAll(plan, n, code, trace, c);
    var j :| 0 <= j < |trace| && trace[j] == ApplyEnds(c, true);
    assert HasOwner(plan, c);
    var w: nat :| Owns(plan, w, c);
    AppliedAfterOwnWorktree(plan, n, code, trace, j, w);
  }

  // ---------- When the first change of every group may be looked up ----------

  ghost predicate IsLastGroupOfSome(file: seq<seq<string>>, pvs: seq<string>, k: int) {
    exists i :: 0 <= i < |pvs| && LastGroup(file, pvs[i]) == k
  }

  // Every group owns a change exactly when every group is the last to list the package
  // of some change. No file with a group has this when there is no change, as after a
  // fetch that failed and cancelled the scan.
  lemma GroupsOwnChangesIff(file: seq<seq<string>>, groups: GroupsCollection, os: seq<Outcome>)
    requires groups.amount == |file| && NumbersGroups(groups.groups, file)
    ensures var pvs := PackagesOf(os);
            CanDispatch(groups, os) <==> forall k :: 1 <= k <= |file| ==> IsLastGroupOfSome(file, pvs, k)
    ensures ChangesOf(os) == [] ==> (CanDispatch(groups, os) <==> file == [])
  {
    var pvs := PackagesOf(os);
    var keys := KeysOf(groups.groups, pvs);
    KeysAreGroupNumbers(file, groups.groups, pvs);
    forall k | 1 <= k <= |file|
      ensures k in keys <==> IsLastGroupOfSome(file, pvs, k)
    {
      if IsLastGroupOfSome(file, pvs, k) {
        var i :| 0 <= i < |pvs| && LastGroup(file, pvs[i]) == k;
        assert keys[i] == k;
      }
    }
    if file != [] && pvs == [] {
      assert 1 <= |file| && |file| !in keys;
    }
  }
}
