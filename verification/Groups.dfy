// Which changes go into which worktree.
module Groups {
  import opened Matching
  import opened Grammar
  import opened Decimal
  import opened Collect

  datatype GroupsCollection = GroupsCollection(amount: nat, groups: map<string, nat>)

  // The last group, counted from 1, that lists the package; 0 when none does.
  function LastGroup(file: seq<seq<string>>, pv: string): (k: nat)
    ensures k <= |file|
  {
    if file == [] then 0
    else if pv in file[|file| - 1] then |file|
    else LastGroup(file[..|file| - 1], pv)
  }

  lemma {:induction false} LastGroupIsLast(file: seq<seq<string>>, pv: string)
    ensures var k := LastGroup(file, pv);
            && (k > 0 ==> pv in file[k - 1])
            && forall j :: k <= j < |file| ==> pv !in file[j]
  {
    if file != [] && pv !in file[|file| - 1] {
      LastGroupIsLast(file[..|file| - 1], pv);
    }
  }

  ghost predicate NumbersGroups(m: map<string, nat>, file: seq<seq<string>>) {
    forall pv :: (pv in m <==> LastGroup(file, pv) > 0) && (pv in m ==> m[pv] == LastGroup(file, pv))
  }

  method ParseGroups(file: seq<seq<string>>) returns (res: GroupsCollection)
    ensures res.amount == |file| && NumbersGroups(res.groups, file)
  {
    var groups: map<string, nat> := map[];
    var groupNum := 1;
    while groupNum - 1 < |file|
      invariant 1 <= groupNum <= |file| + 1
      invariant NumbersGroups(groups, file[..groupNum - 1])
    {
      var group := file[groupNum - 1];
      ghost var before := groups;
      var i := 0;
      while i < |group|
        invariant i <= |group|
        invariant forall pv :: pv in groups <==> pv in before || pv in group[..i]
        invariant forall pv :: pv in groups ==> groups[pv] == if pv in group[..i] then groupNum else before[pv]
      {
        assert group[..i + 1] == group[..i] + [group[i]];
        groups := groups[group[i] := groupNum];
        i := i + 1;
      }
      assert group[..i] == group;
      assert file[..groupNum][..groupNum - 1] == file[..groupNum - 1];
      groupNum := groupNum + 1;
    }
    assert file[..|file|] == file;
    return GroupsCollection(groupNum - 1, groups);
  }

  // ---------- The multimap from group to change ----------

  function KeyOf(groups: map<string, nat>, pv: string): nat {
    if pv in groups then groups[pv] else 0
  }

  function KeysOf(groups: map<string, nat>, pvs: seq<string>): (ks: seq<nat>)
    ensures |ks| == |pvs|
    ensures forall i :: 0 <= i < |pvs| ==> ks[i] == KeyOf(groups, pvs[i])
  {
    seq(|pvs|, i requires 0 <= i < |pvs| => KeyOf(groups, pvs[i]))
  }

  // The pairs in the order in which they were put in.
  method GroupToChange(groups: map<string, nat>, pvs: seq<string>) returns (pairs: seq<(nat, nat)>)
    ensures |pairs| == |pvs|
    ensures forall i :: 0 <= i < |pvs| ==> pairs[i] == (KeysOf(groups, pvs)[i], i)
  {
    pairs := [];
    for i := 0 to |pvs|
      invariant |pairs| == i
      invariant forall j :: 0 <= j < i ==> pairs[j] == (KeyOf(groups, pvs[j]), j)
    {
      if pvs[i] in groups {
        pairs := pairs + [(groups[pvs[i]], i)];
      } else {
        pairs := pairs + [(0, i)];
      }
    }
  }

  // The changes with a key: the values of an equal_range.
  function Range(keys: seq<nat>, k: nat): (r: seq<nat>)
    ensures forall i :: 0 <= i < |r| ==> r[i] < |keys| && keys[r[i]] == k
  {
    if keys == [] then []
    else
      var n := |keys| - 1;
      Range(keys[..n], k) + if keys[n] == k then [n] else []
  }

  lemma {:induction false} RangeAscends(keys: seq<nat>, k: nat)
    ensures forall i, j :: 0 <= i < j < |Range(keys, k)| ==> Range(keys, k)[i] < Range(keys, k)[j]
  {
    if keys != [] {
      RangeAscends(keys[..|keys| - 1], k);
    }
  }

  method EqualRange(pairs: seq<(nat, nat)>, k: nat, ghost keys: seq<nat>) returns (r: seq<nat>)
    requires |pairs| == |keys| && forall i :: 0 <= i < |keys| ==> pairs[i] == (keys[i], i)
    ensures r == Range(keys, k)
  {
    r := [];
    for i := 0 to |pairs|
      invariant r == Range(keys[..i], k)
    {
      assert keys[..i + 1][..i] == keys[..i];
      if pairs[i].0 == k {
        r := r + [pairs[i].1];
      }
    }
    assert keys[..|pairs|] == keys;
  }

  // ---------- The worktrees ----------

  datatype Worktree = Worktree(prefix: nat, members: seq<nat>)

  function Singles(cs: seq<nat>): (ws: seq<Worktree>)
    ensures |ws| == |cs|
    ensures forall i :: 0 <= i < |cs| ==> ws[i] == Worktree(0, [cs[i]])
  {
    seq(|cs|, i requires 0 <= i < |cs| => Worktree(0, [cs[i]]))
  }

  // The worktrees of the groups 1 to n.
  function GroupTrees(keys: seq<nat>, n: nat): (ws: seq<Worktree>)
    ensures |ws| == n
    ensures forall i :: 0 <= i < n ==> ws[i] == Worktree(i + 1, Range(keys, i + 1))
  {
    seq(n, i requires 0 <= i < n => Worktree(i + 1, Range(keys, i + 1)))
  }

  function Plan(keys: seq<nat>, n: nat): seq<Worktree> {
    Singles(Range(keys, 0)) + GroupTrees(keys, n)
  }

  // Every group owns a change, which the code takes for granted when it looks up the
  // first change of a group.
  ghost predicate EveryGroupOwnsAChange(keys: seq<nat>, n: nat) {
    forall k :: 1 <= k <= n ==> k in keys
  }

  lemma {:induction false} RangeIsNonEmptyIff(keys: seq<nat>, k: nat)
    ensures Range(keys, k) != [] <==> k in keys
  {
    if keys != [] {
      RangeIsNonEmptyIff(keys[..|keys| - 1], k);
      assert keys == keys[..|keys| - 1] + [keys[|keys| - 1]];
    }
  }

  function FolderName(w: Worktree, pvs: seq<string>): string
    requires w.members != [] && w.members[0] < |pvs|
  {
    PrintNat(w.prefix) + ("_" + pvs[w.members[0]])
  }

  // In the worktree of a group are changes of that group only, and its folder begins with
  // the number of the group; an ungrouped change is alone in one that begins with 0.
  lemma WorktreesOfGroups(keys: seq<nat>, n: nat, pvs: seq<string>, i: nat)
    requires |keys| == |pvs| && i < |Plan(keys, n)|
    ensures var w, ungrouped := Plan(keys, n)[i], |Range(keys, 0)|;
            var k := if i < ungrouped then 0 else i - ungrouped + 1;
            && (forall c <- w.members :: c < |keys| && keys[c] == k)
            && (k == 0 ==> |w.members| == 1)
            && (w.members != [] ==> w.members[0] < |pvs|
                                    && FolderName(w, pvs) ==
                                       (if k == 0 then "0" else PrintNat(k)) + "_" + pvs[w.members[0]])
  {
    hide PrintNat, Range;
    assert PrintNat(0) == "0" by { ZeroIsPrinted(); }
    var w := Plan(keys, n)[i];
    if w.members != [] {
      var k := if i < |Range(keys, 0)| then 0 else i - |Range(keys, 0)| + 1;
      assert PrintNat(k) + ("_" + pvs[w.members[0]]) == PrintNat(k) + "_" + pvs[w.members[0]];
    }
  }

  lemma ZeroIsPrinted()
    ensures PrintNat(0) == "0"
  {
  }

  // Lays out the worktrees: one for every change of group 0, then one for every group.
  // The folder is named after the first change of the range.
  method LayOut(pairs: seq<(nat, nat)>, n: nat, pvs: seq<string>, ghost keys: seq<nat>)
    returns (plan: seq<Worktree>, folders: seq<string>)
    requires |pairs| == |keys| == |pvs| && forall i :: 0 <= i < |keys| ==> pairs[i] == (keys[i], i)
    requires EveryGroupOwnsAChange(keys, n)
    ensures plan == Plan(keys, n) && |folders| == |plan|
    ensures forall i :: 0 <= i < |plan| ==>
              plan[i].members != [] && plan[i].members[0] < |pvs| && folders[i] == FolderName(plan[i], pvs)
  {
    plan, folders := [], [];
    var ungrouped := EqualRange(pairs, 0, keys);
    for i := 0 to |ungrouped|
      invariant plan == Singles(ungrouped)[..i] && |folders| == i
      invariant forall j :: 0 <= j < i ==>
                  plan[j].members != [] && plan[j].members[0] < |pvs| && folders[j] == FolderName(plan[j], pvs)
    {
      var w := Worktree(0, [ungrouped[i]]);
      plan := plan + [w];
      folders := folders + [PrintNat(w.prefix) + ("_" + pvs[ungrouped[i]])];
    }
    assert Singles(ungrouped)[..|ungrouped|] == Singles(ungrouped);
    for k := 0 to n
      invariant plan == Singles(ungrouped) + GroupTrees(keys, n)[..k] && |folders| == |plan|
      invariant forall j :: 0 <= j < |plan| ==>
                  plan[j].members != [] && plan[j].members[0] < |pvs| && folders[j] == FolderName(plan[j], pvs)
    {
      var range := EqualRange(pairs, k + 1, keys);
      RangeIsNonEmptyIff(keys, k + 1);
      var w := Worktree(k + 1, range);
      plan := plan + [w];
      folders := folders + [PrintNat(w.prefix) + ("_" + pvs[range[0]])];
    }
    assert GroupTrees(keys, n)[..n] == GroupTrees(keys, n);
  }

  // ---------- Partition ----------

  function Flatten(ws: seq<Worktree>): seq<nat> {
    if ws == [] then [] else Flatten(ws[..|ws| - 1]) + ws[|ws| - 1].members
  }

  lemma {:induction false} FlattenAppend(xs: seq<Worktree>, ys: seq<Worktree>)
    ensures Flatten(xs + ys) == Flatten(xs) + Flatten(ys)
  {
    if ys == [] {
      assert xs + ys == xs;
    } else {
      var m := |ys| - 1;
      assert (xs + ys)[..|xs + ys| - 1] == xs + ys[..m];
      FlattenAppend(xs, ys[..m]);
    }
  }

  lemma {:induction false} FlattenSingles(cs: seq<nat>)
    ensures Flatten(Singles(cs)) == cs
  {
    if cs != [] {
      var m := |cs| - 1;
      assert Singles(cs)[..m] == Singles(cs[..m]);
      FlattenSingles(cs[..m]);
      assert cs == cs[..m] + [cs[m]];
    }
  }

  // The indices 0 to n - 1.
  function UpTo(n: nat): seq<nat> {
    if n == 0 then [] else UpTo(n - 1) + [n - 1]
  }

  function OneIf(b: bool, c: nat): multiset<nat> {
    if b then multiset{c} else multiset{}
  }

  lemma GroupTreesStep(keys: seq<nat>, n: nat)
    requires n > 0
    ensures multiset(Flatten(GroupTrees(keys, n))) ==
            multiset(Flatten(GroupTrees(keys, n - 1))) + multiset(Range(keys, n))
  {
    hide Range;
    assert GroupTrees(keys, n)[..n - 1] == GroupTrees(keys, n - 1);
  }

  lemma RangeStep(keys: seq<nat>, k: nat, n: nat)
    ensures multiset(Range(keys + [k], n)) == multiset(Range(keys, n)) + OneIf(k == n, |keys|)
  {
    assert (keys + [k])[..|keys|] == keys;
  }

  lemma {:induction false} NewKeyInGroups(keys: seq<nat>, k: nat, n: nat)
    ensures multiset(Flatten(GroupTrees(keys + [k], n))) ==
            multiset(Flatten(GroupTrees(keys, n))) + OneIf(1 <= k <= n, |keys|)
  {
    hide Range, Flatten, GroupTrees;
    if n > 0 {
      GroupTreesStep(keys, n);
      GroupTreesStep(keys + [k], n);
      RangeStep(keys, k, n);
      NewKeyInGroups(keys, k, n - 1);
    } else {
      ZeroGroups(keys);
      ZeroGroups(keys + [k]);
    }
  }

  lemma ZeroGroups(keys: seq<nat>)
    ensures Flatten(GroupTrees(keys, 0)) == []
  {
  }

  lemma {:induction false} NoGroups(n: nat)
    ensures Flatten(GroupTrees([], n)) == []
  {
    if n > 0 {
      assert GroupTrees([], n)[..n - 1] == GroupTrees([], n - 1);
      NoGroups(n - 1);
    }
  }

  lemma NewKeyInPlan(keys: seq<nat>, k: nat, n: nat)
    requires k <= n
    ensures multiset(Flatten(Plan(keys + [k], n))) == multiset(Flatten(Plan(keys, n))) + OneIf(true, |keys|)
  {
    hide Range, Flatten, GroupTrees, Plan;
    PlanFlattens(keys, n);
    PlanFlattens(keys + [k], n);
    NewKeyInGroups(keys, k, n);
    RangeStep(keys, k, 0);
  }

  // Whatever the group file and the changes, every change goes into exactly one
  // worktree, once.
  lemma {:induction false} EveryChangeOnce(keys: seq<nat>, n: nat)
    requires forall k <- keys :: k <= n
    ensures multiset(Flatten(Plan(keys, n))) == multiset(UpTo(|keys|))
  {
    hide Flatten, Plan;
    if keys == [] {
      PlanFlattens(keys, n);
      NoGroups(n);
    } else {
      var m := |keys| - 1;
      var front, k := keys[..m], keys[m];
      assert keys == front + [k];
      assert k <= n by { assert k in keys; }
      forall x <- front
        ensures x <= n
      {
        assert x in keys;
      }
      EveryChangeOnce(front, n);
      NewKeyInPlan(front, k, n);
      assert UpTo(|keys|) == UpTo(|front|) + [|front|];
    }
  }

  lemma PlanFlattens(keys: seq<nat>, n: nat)
    ensures multiset(Flatten(Plan(keys, n))) == multiset(Range(keys, 0)) + multiset(Flatten(GroupTrees(keys, n)))
  {
    hide Range, Flatten, GroupTrees, Singles;
    FlattenAppend(Singles(Range(keys, 0)), GroupTrees(keys, n));
    FlattenSingles(Range(keys, 0));
  }

  lemma KeysAreGroupNumbers(file: seq<seq<string>>, groups: map<string, nat>, pvs: seq<string>)
    requires NumbersGroups(groups, file)
    ensures forall k <- KeysOf(groups, pvs) :: k <= |file|
    ensures forall i :: 0 <= i < |pvs| ==> KeysOf(groups, pvs)[i] == LastGroup(file, pvs[i])
  {
    forall i | 0 <= i < |pvs|
      ensures KeysOf(groups, pvs)[i] == LastGroup(file, pvs[i]) <= |file|
    {
      assert pvs[i] in groups <==> LastGroup(file, pvs[i]) > 0;
    }
  }

  // From the group file to the worktrees: the key of a change is the last group that
  // lists its package, every change is in exactly one worktree, and the number of
  // worktrees is that of the ungrouped changes and of the groups.
  lemma PartitionOfChanges(file: seq<seq<string>>, groups: map<string, nat>, pvs: seq<string>)
    requires NumbersGroups(groups, file)
    ensures var keys := KeysOf(groups, pvs);
            && (forall i :: 0 <= i < |pvs| ==> keys[i] == LastGroup(file, pvs[i]))
            && multiset(Flatten(Plan(keys, |file|))) == multiset(UpTo(|pvs|))
            && |Flatten(Plan(keys, |file|))| == |pvs|
            && |Plan(keys, |file|)| == |Range(keys, 0)| + |file|
  {
    hide Range, Flatten;
    var keys := KeysOf(groups, pvs);
    KeysAreGroupNumbers(file, groups, pvs);
    EveryChangeOnce(keys, |file|);
    UpToLength(|pvs|);
    assert |multiset(Flatten(Plan(keys, |file|)))| == |multiset(UpTo(|pvs|))|;
  }

  lemma {:induction false} UpToLength(n: nat)
    ensures |UpTo(n)| == n
  {
    if n > 0 {
      UpToLength(n - 1);
    }
  }

  // ---------- Any order of completion ----------

  function PackagesIn(changes: seq<Diff>): (pvs: seq<string>)
    ensures |pvs| == |changes|
    ensures forall i :: 0 <= i < |changes| ==> pvs[i] == changes[i].package
  {
    seq(|changes|, i requires 0 <= i < |changes| => changes[i].package)
  }

  // The changes that a group receives: those at the indices in its range.
  function Received(groups: map<string, nat>, changes: seq<Diff>, k: nat): (r: seq<Diff>)
    ensures var range := Range(KeysOf(groups, PackagesIn(changes)), k);
            |r| == |range| && forall i :: 0 <= i < |r| ==> range[i] < |changes| && r[i] == changes[range[i]]
  {
    var range := Range(KeysOf(groups, PackagesIn(changes)), k);
    seq(|range|, i requires 0 <= i < |range| => changes[range[i]])
  }

  lemma ReceivedStep(groups: map<string, nat>, changes: seq<Diff>, x: Diff, k: nat)
    ensures Received(groups, changes + [x], k) ==
            Received(groups, changes, k) + if KeyOf(groups, x.package) == k then [x] else []
  {
    var pvs := PackagesIn(changes + [x]);
    var keys := KeysOf(groups, pvs);
    assert pvs[..|changes|] == PackagesIn(changes);
    assert keys[..|changes|] == KeysOf(groups, PackagesIn(changes));
  }

  lemma {:induction false} ReceivedCount(groups: map<string, nat>, changes: seq<Diff>, k: nat, x: Diff)
    ensures multiset(Received(groups, changes, k))[x] ==
            if KeyOf(groups, x.package) == k then multiset(changes)[x] else 0
  {
    hide Received;
    if changes == [] {
      ReceivedNothing(groups, k);
    } else {
      var n := |changes| - 1;
      assert changes == changes[..n] + [changes[n]];
      ReceivedCount(groups, changes[..n], k, x);
      ReceivedStep(groups, changes[..n], changes[n], k);
    }
  }

  lemma ReceivedNothing(groups: map<string, nat>, k: nat)
    ensures Received(groups, [], k) == []
  {
  }

  // Whatever the order in which the tasks end, every group receives the same changes,
  // each with its file and its edit.
  lemma GroupsIgnoreOrder(groups: map<string, nat>, xs: seq<Outcome>, ys: seq<Outcome>, k: nat)
    requires multiset(xs) == multiset(ys)
    ensures multiset(Received(groups, ChangesOf(xs), k)) == multiset(Received(groups, ChangesOf(ys), k))
  {
    hide Received, ChangesOf;
    ScheduleIndependence(xs, ys);
    forall x: Diff
      ensures multiset(Received(groups, ChangesOf(xs), k))[x] == multiset(Received(groups, ChangesOf(ys), k))[x]
    {
      ReceivedCount(groups, ChangesOf(xs), k, x);
      ReceivedCount(groups, ChangesOf(ys), k, x);
    }
  }

  // ---------- Folder names ----------

  lemma {:induction false} PrefixDecodes(x: string, y: string, a: string, b: string)
    requires AllDigits(x) && AllDigits(y)
    requires x + ("_" + a) == y + ("_" + b)
    ensures x == y && a == b
  {
    FrontOf(x, a);
    FrontOf(y, b);
    if x != "" && y != "" {
      assert forall c <- x[1..] :: c in x;
      assert forall c <- y[1..] :: c in y;
      PrefixDecodes(x[1..], y[1..], a, b);
      assert x == [x[0]] + x[1..] && y == [y[0]] + y[1..];
    }
  }

  lemma FrontOf(x: string, a: string)
    requires AllDigits(x)
    ensures var s := x + ("_" + a);
            if x == "" then s[0] == '_' && s[1..] == a
            else s[0] == x[0] && IsDigit(s[0]) && s[1..] == x[1..] + ("_" + a)
  {
    if x != "" {
      assert x[0] in x;
    }
  }

  lemma FolderNamesDecode(v: Worktree, w: Worktree, pvs: seq<string>)
    requires v.members != [] && v.members[0] < |pvs| && w.members != [] && w.members[0] < |pvs|
    ensures FolderName(v, pvs) == FolderName(w, pvs)
            <==> v.prefix == w.prefix && pvs[v.members[0]] == pvs[w.members[0]]
  {
    hide PrintNat, Num;
    if FolderName(v, pvs) == FolderName(w, pvs) {
      PrefixDecodes(PrintNat(v.prefix), PrintNat(w.prefix), pvs[v.members[0]], pvs[w.members[0]]);
      NumOfPrint(v.prefix);
      NumOfPrint(w.prefix);
    }
  }

  ghost predicate Distinct<T>(xs: seq<T>) {
    forall i, j :: 0 <= i < j < |xs| ==> xs[i] != xs[j]
  }

  function UngroupedPackages(keys: seq<nat>, pvs: seq<string>): (r: seq<string>)
    requires |keys| == |pvs|
    ensures |r| == |Range(keys, 0)|
    ensures forall i :: 0 <= i < |r| ==> r[i] == pvs[Range(keys, 0)[i]]
  {
    seq(|Range(keys, 0)|, i requires 0 <= i < |Range(keys, 0)| => pvs[Range(keys, 0)[i]])
  }

  // The worktrees get pairwise different folders exactly when no two ungrouped changes
  // belong to the same package.
  lemma FoldersDistinctIff(keys: seq<nat>, n: nat, pvs: seq<string>, folders: seq<string>)
    requires |keys| == |pvs| && EveryGroupOwnsAChange(keys, n)
    requires |folders| == |Plan(keys, n)|
    requires forall i :: 0 <= i < |folders| ==>
               var w := Plan(keys, n)[i];
               w.members != [] && w.members[0] < |pvs| && folders[i] == FolderName(w, pvs)
    ensures Distinct(folders) <==> Distinct(UngroupedPackages(keys, pvs))
  {
    hide FolderName, Range, UngroupedPackages;
    var plan, ungrouped := Plan(keys, n), UngroupedPackages(keys, pvs);
    forall i, j | 0 <= i < j < |folders|
      ensures folders[i] == folders[j] <==> j < |ungrouped| && ungrouped[i] == ungrouped[j]
    {
      FolderNamesDecode(plan[i], plan[j], pvs);
    }
    if !Distinct(ungrouped) {
      var i, j :| 0 <= i < j < |ungrouped| && ungrouped[i] == ungrouped[j];
      assert folders[i] == folders[j];
    }
  }
}
