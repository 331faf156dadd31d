// The outcomes of the per-ebuild tasks, collected in the order in which the tasks end.
module Collect {
  import opened Update

  // The package of the ebuild, its file name and the edit.
  datatype Diff = Diff(package: string, fileName: string, edit: Edit)

  datatype Outcome = Failed | NothingToChange | Change(value: Diff)

  // The changes among the outcomes, in order.
  function ChangesOf(os: seq<Outcome>): seq<Diff> {
    if os == [] then []
    else ChangesOf(os[..|os| - 1]) + if os[|os| - 1].Change? then [os[|os| - 1].value] else []
  }

  // The shared record that every task updates when it ends.
  class PackagesToUpdate {
    var whatToChange: seq<Diff>
    var isAnySuccessful: bool
    var hasAnyFailed: bool

    constructor ()
      ensures whatToChange == [] && !isAnySuccessful && !hasAnyFailed
    {
      whatToChange, isAnySuccessful, hasAnyFailed := [], false, false;
    }

    // The record says what the outcomes so far were.
    ghost predicate Records(os: seq<Outcome>)
      reads this
    {
      && whatToChange == ChangesOf(os)
      && (isAnySuccessful <==> Outcome.NothingToChange in os)
      && (hasAnyFailed <==> Outcome.Failed in os)
    }

    method TaskEnds(o: Outcome, ghost before: seq<Outcome>)
      requires Records(before)
      modifies this
      ensures Records(before + [o])
    {
      assert (before + [o])[..|before|] == before;
      match o {
        case Failed =>
          hasAnyFailed := true;
        case NothingToChange =>
          isAnySuccessful := true;
        case Change(value) =>
          whatToChange := whatToChange + [value];
      }
    }
  }

  method CollectAll(os: seq<Outcome>) returns (changes: PackagesToUpdate)
    ensures fresh(changes) && changes.Records(os)
  {
    changes := new PackagesToUpdate();
    for k := 0 to |os|
      invariant fresh(changes) && changes.Records(os[..k])
    {
      assert os[..k + 1] == os[..k] + [os[k]];
      changes.TaskEnds(os[k], os[..k]);
    }
    assert os[..|os|] == os;
  }

  // ---------- Any order of completion ----------

  lemma {:induction false} ChangesCount(os: seq<Outcome>, x: Diff)
    ensures multiset(ChangesOf(os))[x] == multiset(os)[Change(x)]
  {
    if os != [] {
      var front, o := os[..|os| - 1], os[|os| - 1];
      assert os == front + [o];
      ChangesCount(front, x);
    }
  }

  // The flags and the multiset of changes do not depend on the order in which the
  // tasks end.
  lemma ScheduleIndependence(xs: seq<Outcome>, ys: seq<Outcome>)
    requires multiset(xs) == multiset(ys)
    ensures multiset(ChangesOf(xs)) == multiset(ChangesOf(ys))
    ensures Outcome.NothingToChange in xs <==> Outcome.NothingToChange in ys
    ensures Outcome.Failed in xs <==> Outcome.Failed in ys
  {
    hide ChangesOf;
    SameChanges(xs, ys);
    SameMembers(xs, ys, Outcome.NothingToChange);
    SameMembers(xs, ys, Outcome.Failed);
  }

  lemma SameMembers<X>(xs: seq<X>, ys: seq<X>, o: X)
    requires multiset(xs) == multiset(ys)
    ensures o in xs <==> o in ys
  {
    assert o in xs <==> o in multiset(xs);
    assert o in ys <==> o in multiset(ys);
  }

  lemma SameChanges(xs: seq<Outcome>, ys: seq<Outcome>)
    requires multiset(xs) == multiset(ys)
    ensures multiset(ChangesOf(xs)) == multiset(ChangesOf(ys))
  {
    hide ChangesOf;
    forall x: Diff
      ensures multiset(ChangesOf(xs))[x] == multiset(ChangesOf(ys))[x]
    {
      ChangesCount(xs, x);
      ChangesCount(ys, x);
    }
  }

  // The changes keep the order in which their tasks ended.
  lemma {:induction false} ChangesInOrder(xs: seq<Outcome>, ys: seq<Outcome>)
    ensures ChangesOf(xs + ys) == ChangesOf(xs) + ChangesOf(ys)
    ensures forall d :: ChangesOf([Change(d)]) == [d]
  {
    forall d
      ensures ChangesOf([Change(d)]) == [d]
    {
      assert [Outcome.Change(d)][..0] == [];
    }
    if ys == [] {
      assert xs + ys == xs;
    } else {
      var m := |ys| - 1;
      assert (xs + ys)[..|xs + ys| - 1] == xs + ys[..m];
      ChangesInOrder(xs, ys[..m]);
    }
  }

  // Every task is accounted for once.
  lemma {:induction false} TasksAreConserved(os: seq<Outcome>)
    ensures |os| == multiset(os)[Failed] + multiset(os)[NothingToChange] + |ChangesOf(os)|
  {
    if os != [] {
      var front, o := os[..|os| - 1], os[|os| - 1];
      assert os == front + [o];
      TasksAreConserved(front);
    }
  }
}
