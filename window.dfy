/**
 * The specification of the largest-difference scan of the hourly report:
 * the spread (largest minus smallest reading) of every window of Step
 * consecutive readings, and what it means for a window to be the one the
 * report names.
 */
module Window {

  /** Width of the window, in readings (minutes). */
  const Step: nat := 10

  /** INT_MIN of a 32-bit int: the value the scan starts from. */
  const IntMin: int := -0x8000_0000

  /** The largest reading of a non-empty stretch (std::max_element). */
  function Max(w: seq<int>): (m: int)
    requires w != []
  {
    if |w| == 1 then w[0]
    else
      var rest := Max(w[1..]);
      if rest < w[0] then w[0] else rest
  }

  /** The smallest reading of a non-empty stretch (std::min_element). */
  function Min(w: seq<int>): (m: int)
    requires w != []
  {
    if |w| == 1 then w[0]
    else
      var rest := Min(w[1..]);
      if w[0] < rest then w[0] else rest
  }

  /** Max is one of the readings and none is larger. */
  lemma {:induction false} MaxIsLargest(w: seq<int>)
    requires w != []
    ensures Max(w) in w
    ensures forall x :: x in w ==> x <= Max(w)
  {
    if |w| > 1 {
      MaxIsLargest(w[1..]);
      assert w == [w[0]] + w[1..];
    }
  }

  /** Min is one of the readings and none is smaller. */
  lemma {:induction false} MinIsSmallest(w: seq<int>)
    requires w != []
    ensures Min(w) in w
    ensures forall x :: x in w ==> Min(w) <= x
  {
    if |w| > 1 {
      MinIsSmallest(w[1..]);
      assert w == [w[0]] + w[1..];
    }
  }

  /** The spread of the window of Step readings starting at `i`. */
  function WindowSpread(readings: seq<int>, i: nat): (d: int)
    requires i + Step <= |readings|
    ensures 0 <= d
  {
    var w := readings[i..i + Step];
    MaxIsLargest(w);
    MinIsSmallest(w);
    Max(w) - Min(w)
  }

  /**
   * The spread is the largest difference between two readings of the
   * window, and some two readings of the window are that far apart.
   */
  lemma SpreadIsLargestGap(readings: seq<int>, i: nat)
    requires i + Step <= |readings|
    ensures forall j, k :: i <= j < i + Step && i <= k < i + Step ==>
                             readings[j] - readings[k] <= WindowSpread(readings, i)
    ensures exists j, k :: i <= j < i + Step && i <= k < i + Step &&
                           readings[j] - readings[k] == WindowSpread(readings, i)
  {
    var w := readings[i..i + Step];
    MaxIsLargest(w);
    MinIsSmallest(w);
    assert forall j :: i <= j < i + Step ==> readings[j] == w[j - i];
    assert forall j :: i <= j < i + Step ==> readings[j] in w;
    var jh :| 0 <= jh < Step && w[jh] == Max(w);
    var jl :| 0 <= jl < Step && w[jl] == Min(w);
    assert readings[i + jh] - readings[i + jl] == WindowSpread(readings, i);
  }

  /**
   * `d` and `start` are what the scan reports: the window at `start` has
   * spread `d`, no window has a larger spread, and every earlier window has
   * a strictly smaller one (ties go to the earliest window).
   */
  ghost predicate IsEarliestLargest(readings: seq<int>, d: int, start: nat)
  {
    && start + Step <= |readings|
    && d == WindowSpread(readings, start)
    && (forall i: nat :: i + Step <= |readings| ==> WindowSpread(readings, i) <= d)
    && (forall i: nat :: i < start ==> WindowSpread(readings, i) < d)
  }

  /** The report is determined by the readings: at most one answer fits. */
  lemma EarliestLargestUnique(readings: seq<int>, d1: int, s1: nat, d2: int, s2: nat)
    requires IsEarliestLargest(readings, d1, s1)
    requires IsEarliestLargest(readings, d2, s2)
    ensures d1 == d2 && s1 == s2
  {
    assert WindowSpread(readings, s1) <= d2 && WindowSpread(readings, s2) <= d1;
  }

  /**
   * With every reading inside [lo, hi] no spread exceeds hi - lo, so for
   * the sensor range [-100, 70] the 32-bit subtraction cannot overflow.
   */
  lemma SpreadBounded(readings: seq<int>, i: nat, lo: int, hi: int)
    requires i + Step <= |readings|
    requires forall j :: 0 <= j < |readings| ==> lo <= readings[j] <= hi
    ensures WindowSpread(readings, i) <= hi - lo
  {
    var d := WindowSpread(readings, i);
    SpreadIsLargestGap(readings, i);
    var j, k :| i <= j < i + Step && i <= k < i + Step && readings[j] - readings[k] == d;
  }
}
