/**
 * The highest and lowest lines of the hourly report. Each builds a
 * std::set of the readings, so equal readings collapse into one, and
 * prints its first ReportCount members: the lowest line iterates a
 * std::set<int> (ascending), the highest line a std::set<int,
 * std::greater<int>> (descending). A std::set is modelled by the
 * sequence of its members in iteration order; `greater` selects the
 * comparator.
 */
module Extremes {

  /** How many values each line lists at most. */
  const ReportCount: nat := 5

  /** The set's comparator: std::less<int>, or std::greater<int> when `greater`. */
  predicate Before(a: int, b: int, greater: bool) {
    if greater then a > b else a < b
  }

  /** Strictly ordered by the comparator: the iteration order of a std::set. */
  ghost predicate Ordered(s: seq<int>, greater: bool) {
    forall i, j :: 0 <= i < j < |s| ==> Before(s[i], s[j], greater)
  }

  /** The distinct readings, as a set. */
  ghost function Elements(s: seq<int>): set<int> {
    set x | x in s
  }

  /**
   * std::set::insert: `x` goes in front of the first member it comes
   * before, and nothing happens when an equal member is already there.
   */
  function SetInsert(d: seq<int>, x: int, greater: bool): (r: seq<int>)
    requires Ordered(d, greater)
    ensures Ordered(r, greater)
    ensures forall y :: y in r <==> y in d || y == x
  {
    if d == [] then [x]
    else if Before(x, d[0], greater) then [x] + d
    else if x == d[0] then d
    else
      var rest := SetInsert(d[1..], x, greater);
      assert forall k :: 0 <= k < |rest| ==> Before(d[0], rest[k], greater) by {
        forall k | 0 <= k < |rest| ensures Before(d[0], rest[k], greater) {
          assert rest[k] in rest;
          if rest[k] != x {
            var j :| 0 <= j < |d[1..]| && d[1..][j] == rest[k];
            assert d[1..][j] == d[j + 1];
          }
        }
      }
      [d[0]] + rest
  }

  /**
   * The members, in iteration order, of the std::set built from the
   * readings by inserting them one after another.
   */
  function Members(readings: seq<int>, greater: bool): (d: seq<int>)
    ensures Ordered(d, greater)
    ensures forall y :: y in d <==> y in readings
  {
    if readings == [] then []
    else
      var last := |readings| - 1;
      assert readings == readings[..last] + [readings[last]];
      SetInsert(Members(readings[..last], greater), readings[last], greater)
  }

  /** A strictly ordered sequence lists each of its elements once. */
  lemma {:induction false} OrderedCount(s: seq<int>, greater: bool)
    requires Ordered(s, greater)
    ensures |Elements(s)| == |s|
  {
    if s != [] {
      assert Ordered(s[1..], greater);
      OrderedCount(s[1..], greater);
      assert Elements(s) == {s[0]} + Elements(s[1..]);
      assert s[0] !in Elements(s[1..]);
    }
  }

  /** The smaller of two counts. */
  function Shorter(n: nat, m: nat): (k: nat) {
    if n < m then n else m
  }

  /**
   * One line of the report: the first ReportCount members of the set, or
   * all of them when there are fewer. Every reading left out comes after
   * the last one listed.
   */
  function Listed(readings: seq<int>, greater: bool): (r: seq<int>)
    ensures Ordered(r, greater)
    ensures |r| == Shorter(ReportCount, |Elements(readings)|)
    ensures forall x :: x in r ==> x in readings
    ensures forall x :: x in readings && x !in r ==> r != [] && Before(r[|r| - 1], x, greater)
  {
    var d := Members(readings, greater);
    OrderedCount(d, greater);
    assert Elements(d) == Elements(readings);
    var r := d[..Shorter(ReportCount, |d|)];
    assert forall x :: x in readings && x !in r ==> r != [] && Before(r[|r| - 1], x, greater) by {
      forall x | x in readings && x !in r ensures r != [] && Before(r[|r| - 1], x, greater) {
        var j :| 0 <= j < |d| && d[j] == x;
        assert |r| <= j;
      }
    }
    r
  }

  /**
   * printLowestTemperatures: the smallest distinct readings in ascending
   * order; each reading left out is larger than every one listed.
   */
  function Lowest(readings: seq<int>): (r: seq<int>)
    ensures forall i, j :: 0 <= i < j < |r| ==> r[i] < r[j]
    ensures |r| == Shorter(ReportCount, |Elements(readings)|)
    ensures forall x :: x in r ==> x in readings
    ensures forall x :: x in readings && x !in r ==> forall y :: y in r ==> y < x
  {
    var r := Listed(readings, false);
    assert forall x, y :: x in readings && x !in r && y in r ==> y < x by {
      forall x, y | x in readings && x !in r && y in r ensures y < x {
        var i :| 0 <= i < |r| && r[i] == y;
        if i < |r| - 1 {
          assert Before(r[i], r[|r| - 1], false);
        }
      }
    }
    r
  }

  /**
   * printHighestTemperatures: the largest distinct readings in descending
   * order; each reading left out is smaller than every one listed.
   */
  function Highest(readings: seq<int>): (r: seq<int>)
    ensures forall i, j :: 0 <= i < j < |r| ==> r[i] > r[j]
    ensures |r| == Shorter(ReportCount, |Elements(readings)|)
    ensures forall x :: x in r ==> x in readings
    ensures forall x :: x in readings && x !in r ==> forall y :: y in r ==> x < y
  {
    var r := Listed(readings, true);
    assert forall x, y :: x in readings && x !in r && y in r ==> x < y by {
      forall x, y | x in readings && x !in r && y in r ensures x < y {
        var i :| 0 <= i < |r| && r[i] == y;
        if i < |r| - 1 {
          assert Before(r[i], r[|r| - 1], true);
        }
      }
    }
    r
  }
}
