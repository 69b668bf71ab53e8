/**
 * The shape shared by the validators and the attribute builders: a fixed
 * list of steps run in order, each pushing its own item (an error, an
 * attribute) onto a list when its condition holds.
 */
module CheckList {

  /** The items pushed by the first `n` steps; a step is its condition
      (for a check, that it failed) and the item it pushes. */
  function Collect<E>(checks: seq<(bool, E)>, n: nat): seq<E>
    requires n <= |checks|
  {
    if n == 0 then []
    else Collect(checks, n - 1) + (if checks[n - 1].0 then [checks[n - 1].1] else [])
  }

  /** The items of a whole list of steps. */
  function Reported<E>(checks: seq<(bool, E)>): seq<E> {
    Collect(checks, |checks|)
  }

  /** An item is pushed exactly when one of the first `n` steps that
      pushes it has its condition hold. */
  lemma {:induction false} CollectMembers<E>(checks: seq<(bool, E)>, n: nat, e: E)
    requires n <= |checks|
    ensures e in Collect(checks, n) <==> exists i :: 0 <= i < n && checks[i] == (true, e)
  {
    if n > 0 {
      CollectMembers(checks, n - 1, e);
      if checks[n - 1] == (true, e) {
        assert e in Collect(checks, n);
      }
    }
  }

  /** The items of earlier steps come first: the items of the first `m`
      steps are a prefix of those of the first `n`. */
  lemma {:induction false} CollectPrefix<E>(checks: seq<(bool, E)>, m: nat, n: nat)
    requires m <= n <= |checks|
    ensures Collect(checks, m) <= Collect(checks, n)
    decreases n - m
  {
    if m < n {
      CollectPrefix(checks, m, n - 1);
    }
  }

  /** When each step pushes its own item, numbered by `rank`, the items
      are listed in step order and each at most once. */
  lemma {:induction false} CollectOrdered<E>(checks: seq<(bool, E)>, n: nat, rank: E -> nat)
    requires n <= |checks|
    requires forall i :: 0 <= i < |checks| ==> rank(checks[i].1) == i
    ensures forall i :: 0 <= i < |Collect(checks, n)| ==> rank(Collect(checks, n)[i]) < n
    ensures forall i, j :: 0 <= i < j < |Collect(checks, n)| ==> rank(Collect(checks, n)[i]) < rank(Collect(checks, n)[j])
  {
    if n > 0 {
      CollectOrdered(checks, n - 1, rank);
    }
  }

  /** When each step pushes its own item, numbered by `rank`, an item is
      listed exactly when its own step's condition holds. */
  lemma ReportedRanked<E>(checks: seq<(bool, E)>, rank: E -> nat, e: E)
    requires forall i :: 0 <= i < |checks| ==> rank(checks[i].1) == i
    requires rank(e) < |checks| && checks[rank(e)].1 == e
    ensures e in Reported(checks) <==> checks[rank(e)].0
  {
    CollectMembers(checks, |checks|, e);
    if e in Reported(checks) {
      var i :| 0 <= i < |checks| && checks[i] == (true, e);
      assert rank(checks[i].1) == i;
    }
  }

  /** Nothing is pushed exactly when no condition holds. */
  lemma ReportedEmpty<E>(checks: seq<(bool, E)>)
    ensures Reported(checks) == [] <==> forall i :: 0 <= i < |checks| ==> !checks[i].0
  {
    if Reported(checks) != [] {
      CollectMembers(checks, |checks|, Reported(checks)[0]);
    } else {
      forall i | 0 <= i < |checks| ensures !checks[i].0 {
        CollectMembers(checks, |checks|, checks[i].1);
      }
    }
  }
}
