/**
 * Removing from the due-today list every name that was also completed
 * today, by exact string equality, keeping the order and the repetitions
 * of the names that stay.
 */
module Dedup {

  /** The names of `due` that equal no name of `done`, in their original order. */
  function Without(due: seq<string>, done: seq<string>): (r: seq<string>)
    ensures |r| <= |due|
    ensures forall x {:trigger x in r} :: x in r <==> x in due && x !in done
    ensures forall x {:trigger multiset(r)[x]} :: multiset(r)[x] == if x in done then 0 else multiset(due)[x]
  {
    if due == [] then []
    else
      var last := due[|due| - 1];
      assert due == due[..|due| - 1] + [last];
      Without(due[..|due| - 1], done) + (if last in done then [] else [last])
  }

  /** Appending a name to the due list appends it to the result unless it was completed. */
  lemma WithoutSnoc(due: seq<string>, x: string, done: seq<string>)
    ensures Without(due + [x], done) == Without(due, done) + (if x in done then [] else [x])
  {
    assert (due + [x])[..|due|] == due;
  }

  /**
   * `idx` picks out `r` from `s`: strictly increasing positions of `s`
   * whose names, read in order, are `r`.
   */
  ghost predicate PicksOut(idx: seq<int>, r: seq<string>, s: seq<string>)
  {
    && |idx| == |r|
    && (forall i :: 0 <= i < |idx| ==> 0 <= idx[i] < |s| && s[idx[i]] == r[i])
    && (forall i, j :: 0 <= i < j < |idx| ==> idx[i] < idx[j])
  }

  /**
   * The kept names are the due names at exactly those positions whose name
   * was not completed, read in increasing position order: the result is an
   * order-preserving subsequence of `due` that misses no kept position.
   */
  lemma {:induction false} WithoutPositions(due: seq<string>, done: seq<string>) returns (idx: seq<int>)
    ensures PicksOut(idx, Without(due, done), due)
    ensures forall j :: 0 <= j < |due| ==> (j in idx <==> due[j] !in done)
  {
    if due == [] {
      idx := [];
    } else {
      var n := |due| - 1;
      var init := due[..n];
      assert due == init + [due[n]];
      WithoutSnoc(init, due[n], done);
      var prefix := WithoutPositions(init, done);
      var kept := Without(init, done);
      assert forall i :: 0 <= i < |prefix| ==> prefix[i] < n;
      if due[n] in done {
        idx := prefix;
        assert Without(due, done) == kept;
      } else {
        idx := prefix + [n];
        assert Without(due, done) == kept + [due[n]];
        assert PicksOut(idx, Without(due, done), due);
      }
      forall j | 0 <= j < |due|
        ensures j in idx <==> due[j] !in done
      {
        if j < n {
          assert due[j] == init[j];
          assert j in idx <==> j in prefix;
        } else {
          assert n !in prefix;
        }
      }
    }
  }

  /**
   * The nested loop of the command: for each due name, scan the completed
   * names for an equal one and keep the due name when there is none.
   */
  method DistinctDue(due: seq<string>, completedToday: seq<string>) returns (distinctDue: seq<string>)
    ensures distinctDue == Without(due, completedToday)
  {
    distinctDue := [];
    var i := 0;
    while i < |due|
      invariant 0 <= i <= |due|
      invariant distinctDue == Without(due[..i], completedToday)
    {
      var distinct := true;
      var j := 0;
      while j < |completedToday|
        invariant 0 <= j <= |completedToday|
        invariant distinct <==> forall k :: 0 <= k < j ==> due[i] != completedToday[k]
        invariant !distinct ==> due[i] in completedToday
      {
        if due[i] == completedToday[j] {
          distinct := false;
          break;
        }
        j := j + 1;
      }
      assert distinct <==> due[i] !in completedToday;
      assert due[..i + 1] == due[..i] + [due[i]];
      WithoutSnoc(due[..i], due[i], completedToday);
      if distinct {
        distinctDue := distinctDue + [due[i]];
      }
      i := i + 1;
    }
    assert due[..i] == due;
  }
}
