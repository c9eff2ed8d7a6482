/** A line in which some items are passed by the item right behind them, and
  nothing else moves. */
module Overtaking {

  /** No two neighbours are passed: whoever passes is not passed in turn. */
  predicate Apart(late: set<int>) {
    forall i :: i in late ==> i + 1 !in late
  }

  /** Which of `n` items stands at place `k` when those in `late` are passed by
    the next one; the last item has nothing behind it to be passed by. */
  function ItemAt(late: set<int>, n: nat, k: nat): (i: nat)
    requires k < n
    ensures i < n && k - 1 <= i <= k + 1
  {
    if k in late && k + 1 < n then k + 1
    else if k > 0 && k - 1 in late then k - 1
    else k
  }

  /** `s` with each item in `late` passed by the one behind it. */
  function Passed<T>(s: seq<T>, late: set<int>): (r: seq<T>)
    ensures |r| == |s|
  {
    seq(|s|, k requires 0 <= k < |s| => s[ItemAt(late, |s|, k)])
  }

  /** Nothing has changed places exactly when every passed item equals the one that passed it. */
  lemma PassedSame<T>(s: seq<T>, late: set<int>)
    requires Apart(late)
    ensures Passed(s, late) == s <==> forall i :: i in late && 0 <= i < |s| - 1 ==> s[i] == s[i + 1]
  {
    if Passed(s, late) == s {
      forall i | i in late && 0 <= i < |s| - 1
        ensures s[i] == s[i + 1]
      {
        assert Passed(s, late)[i] == s[i + 1];
      }
    } else {
      var k :| 0 <= k < |s| && Passed(s, late)[k] != s[k];
      var i := if k in late then k else k - 1;
      assert i in late && s[i] != s[i + 1];
    }
  }

  /** The order of a front part is settled as soon as its last item can no longer be passed. */
  lemma PassedPrefix<T>(s: seq<T>, n: nat, late: set<int>)
    requires n <= |s| && n - 1 !in late
    ensures Passed(s, late)[..n] == Passed(s[..n], late)
  {
  }

  /** A new item stays behind a last item that it does not pass. */
  lemma PassedBehind<T>(s: seq<T>, late: set<int>, x: T)
    requires |s| - 1 !in late
    ensures Passed(s + [x], late) == Passed(s, late) + [x]
  {
  }

  /** A new item passes the last one. */
  lemma PassedByNew<T>(s: seq<T>, late: set<int>, x: T)
    requires s != [] && |s| - 1 in late && |s| - 2 !in late
    ensures Passed(s, late)[|s| - 1] == s[|s| - 1]
    ensures Passed(s + [x], late) == Passed(s, late)[..|s| - 1] + [x] + [s[|s| - 1]]
  {
  }

  /** Marking the last item changes nothing yet. */
  lemma PassedLast<T>(s: seq<T>, late: set<int>)
    requires Apart(late)
    ensures Passed(s, late + {|s| - 1}) == Passed(s, late)
  {
  }

  /** Passing loses nothing and duplicates nothing. */
  lemma {:induction false} PassedAll<T>(s: seq<T>, late: set<int>)
    requires Apart(late)
    ensures multiset(Passed(s, late)) == multiset(s)
  {
    hide Passed;
    var n := |s|;
    if n >= 2 && n - 2 in late {
      PassedAll(s[..n - 2], late);
      PassedPair(s, late);
      assert s == s[..n - 2] + [s[n - 2], s[n - 1]];
    } else if n > 0 {
      PassedAll(s[..n - 1], late);
      PassedSplit(s, late);
      assert s == s[..n - 1] + [s[n - 1]];
    } else {
      assert Passed(s, late) == s;
    }
  }

  lemma PassedPair<T>(s: seq<T>, late: set<int>)
    requires Apart(late) && |s| >= 2 && |s| - 2 in late
    ensures Passed(s, late) == Passed(s[..|s| - 2], late) + [s[|s| - 1], s[|s| - 2]]
  {
    ApartBefore(late, |s| - 2);
    PassedPrefix(s, |s| - 2, late);
  }

  lemma ApartBefore(late: set<int>, i: int)
    requires Apart(late) && i in late
    ensures i - 1 !in late
  {
    var j := i - 1;
    assert j in late ==> j + 1 !in late;
  }

  lemma PassedSplit<T>(s: seq<T>, late: set<int>)
    requires s != [] && (|s| == 1 || |s| - 2 !in late)
    ensures Passed(s, late) == Passed(s[..|s| - 1], late) + [s[|s| - 1]]
  {
    if |s| > 1 {
      PassedPrefix(s, |s| - 1, late);
    }
  }
}
