/** The top-3 score board (lab2/main.py:29, 203-208): a new score enters only when it beats the
    current minimum; the list is then sorted in descending order and cut back to three entries. */
module TopScores {

  const BOARD_SIZE: nat := 3

  /** The in-memory board, `top_scores` in the source. */
  class ScoreBoard {
    var topScores: seq<int>

    /** The board holds three scores in descending order, none negative. */
    ghost predicate Valid()
      reads this
    {
      IsBoard(topScores)
    }

    /** The board at process start, `[0, 0, 0]`. */
    constructor ()
      ensures Valid() && topScores == [0, 0, 0]
    {
      topScores := [0, 0, 0];
    }
  }

  /** A well-formed board: three entries, descending, none negative. */
  predicate IsBoard(top: seq<int>) {
    && |top| == BOARD_SIZE
    && SortedDesc(top)
    && forall i :: 0 <= i < |top| ==> top[i] >= 0
  }

  /** `min(s)`. */
  function Min(s: seq<int>): (m: int)
    requires |s| > 0
    ensures m in s
    ensures forall i :: 0 <= i < |s| ==> m <= s[i]
  {
    if |s| == 1 then s[0]
    else
      var rest := Min(s[1..]);
      if s[0] <= rest then s[0] else rest
  }

  predicate SortedDesc(s: seq<int>) {
    forall i, j :: 0 <= i < j < |s| ==> s[i] >= s[j]
  }

  /** x placed into a descending list before the first element smaller than it. */
  function Insert(x: int, s: seq<int>): (r: seq<int>)
    requires SortedDesc(s)
    ensures SortedDesc(r)
    ensures multiset(r) == multiset(s) + multiset{x}
    ensures |r| == |s| + 1
    decreases |s|
  {
    if s == [] || x >= s[0] then [x] + s
    else
      var rest := Insert(x, s[1..]);
      assert s == [s[0]] + s[1..];
      HeadBoundsInsert(x, s, rest);
      [s[0]] + rest
  }

  /** Every element of rest, which holds x and the tail of s, is at most the head of s. */
  lemma HeadBoundsInsert(x: int, s: seq<int>, rest: seq<int>)
    requires SortedDesc(s) && s != [] && x < s[0]
    requires SortedDesc(rest) && multiset(rest) == multiset(s[1..]) + multiset{x}
    ensures SortedDesc([s[0]] + rest)
  {
    forall j | 0 <= j < |rest|
      ensures rest[j] <= s[0]
    {
      assert rest[j] in multiset(rest);
      if rest[j] != x {
        assert rest[j] in multiset(s[1..]);
        assert rest[j] in s[1..];
      }
    }
    var r := [s[0]] + rest;
    forall i, j | 0 <= i < j < |r|
      ensures r[i] >= r[j]
    {
      if i > 0 {
        assert r[i] == rest[i - 1] && r[j] == rest[j - 1];
      } else {
        assert r[j] == rest[j - 1];
      }
    }
  }

  /** `s.sort(reverse=True)`, as an insertion sort. SortedDescUnique shows that every sort
      gives this same list. */
  function SortDescending(s: seq<int>): (r: seq<int>)
    ensures SortedDesc(r)
    ensures multiset(r) == multiset(s)
    ensures |r| == |s|
  {
    if s == [] then []
    else
      assert s == [s[0]] + s[1..];
      Insert(s[0], SortDescending(s[1..]))
  }

  /** Two descending lists with the same elements are the same list. */
  lemma {:induction false} SortedDescUnique(a: seq<int>, b: seq<int>)
    requires SortedDesc(a) && SortedDesc(b)
    requires multiset(a) == multiset(b)
    ensures a == b
    decreases |a|
  {
    PermutationLength(a, b);
    if a != [] {
      HeadIsMax(a, b[0]);
      HeadIsMax(b, a[0]);
      TailPermutation(a, b);
      SortedDescUnique(a[1..], b[1..]);
      assert a == [a[0]] + a[1..] && b == [b[0]] + b[1..];
    }
  }

  /** Lists with the same elements and the same head have tails with the same elements. */
  lemma TailPermutation(a: seq<int>, b: seq<int>)
    requires a != [] && b != [] && a[0] == b[0] && multiset(a) == multiset(b)
    ensures multiset(a[1..]) == multiset(b[1..])
  {
    assert a == [a[0]] + a[1..] && b == [b[0]] + b[1..];
    assert multiset(a[1..]) == multiset(a) - multiset{a[0]};
    assert multiset(b[1..]) == multiset(b) - multiset{b[0]};
  }

  /** The head of a non-empty descending list is at least every element of it. */
  lemma HeadIsMax(s: seq<int>, v: int)
    requires SortedDesc(s) && v in multiset(s)
    ensures s != [] && v <= s[0]
  {
    assert v in s;
    var i :| 0 <= i < |s| && s[i] == v;
  }

  /** The last element of a non-empty descending list is its minimum. */
  lemma LastIsMin(s: seq<int>)
    requires |s| > 0 && SortedDesc(s)
    ensures s[|s| - 1] == Min(s)
  {
    var m := Min(s);
    var k :| 0 <= k < |s| && s[k] == m;
  }

  /** The board that `game_over_cleanup` leaves behind for a final score. */
  function Cleanup(top: seq<int>, score: int): seq<int>
    requires |top| > 0
  {
    if score > Min(top) then
      var sorted := SortDescending(top + [score]);
      if |sorted| > BOARD_SIZE then sorted[..|sorted| - 1] else sorted
    else top
  }

  /** A score that does not beat the minimum, a tie included, leaves the board as it was. */
  lemma CleanupIgnoresLowScore(top: seq<int>, score: int)
    requires |top| > 0 && score <= Min(top)
    ensures Cleanup(top, score) == top
  {
  }

  /** Lists with the same elements have the same minimum. */
  lemma MinOfPermutation(a: seq<int>, b: seq<int>)
    requires |a| > 0 && multiset(a) == multiset(b)
    ensures |b| > 0 && Min(a) == Min(b)
  {
    assert |b| == |multiset(b)| == |multiset(a)| == |a|;
    var ma, mb := Min(a), Min(b);
    assert ma in multiset(b) && mb in multiset(a);
    var i :| 0 <= i < |b| && b[i] == ma;
    var j :| 0 <= j < |a| && a[j] == mb;
  }

  /** Adding a value above the minimum keeps the minimum. */
  lemma MinOfExtended(top: seq<int>, score: int)
    requires |top| > 0 && score > Min(top)
    ensures Min(top + [score]) == Min(top)
  {
    var all := top + [score];
    var m := Min(top);
    var k :| 0 <= k < |top| && top[k] == m;
    assert all[k] == m;
    var t :| 0 <= t < |all| && all[t] == Min(all);
    if t < |top| {
      assert all[t] == top[t];
    }
  }

  lemma PermutationLength(a: seq<int>, b: seq<int>)
    requires multiset(a) == multiset(b)
    ensures |a| == |b|
  {
    assert |a| == |multiset(a)| == |multiset(b)| == |b|;
  }

  lemma PrefixSorted(s: seq<int>, n: nat)
    requires n <= |s| && SortedDesc(s)
    ensures SortedDesc(s[..n])
  {
  }

  /** Dropping the last element of a descending list drops one copy of its minimum. */
  lemma DropLastOfSorted(all: seq<int>, sorted: seq<int>)
    requires |all| > 0 && SortedDesc(sorted) && multiset(sorted) == multiset(all)
    ensures |sorted| == |all|
    ensures SortedDesc(sorted[..|sorted| - 1])
    ensures multiset(sorted[..|sorted| - 1]) == multiset(all) - multiset{Min(all)}
  {
    PermutationLength(sorted, all);
    var n := |sorted| - 1;
    PrefixSorted(sorted, n);
    assert sorted == sorted[..n] + [sorted[n]];
    LastIsMin(sorted);
    MinOfPermutation(sorted, all);
  }

  /** A score that beats the minimum of a full board replaces one copy of the minimum, and the
      board is then in descending order and still holds three entries. */
  lemma {:induction false} CleanupReplacesMin(top: seq<int>, score: int)
    requires |top| == BOARD_SIZE && score > Min(top)
    ensures |Cleanup(top, score)| == BOARD_SIZE
    ensures SortedDesc(Cleanup(top, score))
    ensures multiset(Cleanup(top, score)) == multiset(top) + multiset{score} - multiset{Min(top)}
  {
    var all := top + [score];
    var sorted := SortDescending(all);
    DropLastOfSorted(all, sorted);
    MinOfExtended(top, score);
    assert multiset(all) == multiset(top) + multiset{score};
  }

  /** A qualifying score on a board shorter than three is added and nothing is dropped. This is
      the general case of the cleanup: the game's own board always has three entries (Replay). */
  lemma {:induction false} CleanupGrowsShortBoard(top: seq<int>, score: int)
    requires 0 < |top| < BOARD_SIZE && score > Min(top)
    ensures Cleanup(top, score) == SortDescending(top + [score])
    ensures |Cleanup(top, score)| == |top| + 1
  {
    var sorted := SortDescending(top + [score]);
    assert |sorted| == |multiset(sorted)| == |multiset(top + [score])| == |top| + 1;
  }

  /** The boards reached from `[0, 0, 0]` by one cleanup per finished session, in order. */
  function Replay(sessions: seq<int>): (top: seq<int>)
    ensures |top| == BOARD_SIZE
    decreases |sessions|
  {
    if sessions == [] then [0, 0, 0]
    else
      var before := Replay(sessions[..|sessions| - 1]);
      var after := Cleanup(before, sessions[|sessions| - 1]);
      if sessions[|sessions| - 1] > Min(before) then
        CleanupReplacesMin(before, sessions[|sessions| - 1]);
        after
      else after
  }

  /** A cleanup turns a well-formed board into a well-formed board. */
  lemma CleanupKeepsBoard(top: seq<int>, score: int)
    requires IsBoard(top)
    ensures IsBoard(Cleanup(top, score))
  {
    if score > Min(top) {
      CleanupReplacesMin(top, score);
      var after := Cleanup(top, score);
      forall i | 0 <= i < |after|
        ensures after[i] >= 0
      {
        assert after[i] in multiset(after);
        assert after[i] in multiset(top) + multiset{score};
        if after[i] != score {
          assert after[i] in top;
        }
      }
    }
  }

  /** Every board reached from the initial one is in descending order with no negative entry. */
  lemma {:induction false} ReplayInvariant(sessions: seq<int>)
    ensures SortedDesc(Replay(sessions))
    ensures forall i :: 0 <= i < |Replay(sessions)| ==> Replay(sessions)[i] >= 0
    decreases |sessions|
  {
    if sessions != [] {
      var earlier := sessions[..|sessions| - 1];
      ReplayInvariant(earlier);
      CleanupKeepsBoard(Replay(earlier), sessions[|sessions| - 1]);
    }
  }

  /** Scenario: 5 does not beat the minimum of [10, 8, 6], which stays as it is. */
  lemma CleanupScenarioLow()
    ensures Cleanup([10, 8, 6], 5) == [10, 8, 6]
  {
    assert [10, 8, 6][1..] == [8, 6] && [8, 6][1..] == [6];
  }

  /** Scenario: 12 turns [10, 8, 6] into [12, 10, 8]. */
  lemma CleanupScenarioHigh()
    ensures Cleanup([10, 8, 6], 12) == [12, 10, 8]
  {
    ScenarioMin();
    ScenarioSort();
  }

  lemma ScenarioMin()
    ensures Min([10, 8, 6]) == 6
  {
    assert [10, 8, 6][1..] == [8, 6] && [8, 6][1..] == [6];
  }

  lemma ScenarioSort()
    ensures SortDescending([10, 8, 6] + [12]) == [12, 10, 8, 6]
  {
    var expected: seq<int> := [12, 10, 8, 6];
    assert SortedDesc(expected);
    assert multiset([10, 8, 6] + [12]) == multiset(expected);
    SortIsUnique([10, 8, 6] + [12], expected);
  }

  /** Any descending arrangement of the elements of s is what SortDescending gives. */
  lemma SortIsUnique(s: seq<int>, sorted: seq<int>)
    requires SortedDesc(sorted) && multiset(sorted) == multiset(s)
    ensures SortDescending(s) == sorted
  {
    SortedDescUnique(SortDescending(s), sorted);
  }
}
