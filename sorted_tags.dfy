/**
 * The abstract view of the presents list: the sequence of tags read along
 * the chain from the head. Each list operation is specified here as a
 * function on that sequence, and the properties the list promises
 * (ascending order, the multiset of tags, the relative order of the other
 * presents) are proved about those functions.
 */
module SortedTags {

  /** Tags appear in non-decreasing order along the chain. */
  ghost predicate Sorted(s: seq<int>) {
    forall i, j :: 0 <= i < j < |s| ==> s[i] <= s[j]
  }

  /**
   * The first position at or after `from` whose tag is not below `tag`
   * (or |s| when there is none): where the scan of addPresent stops once
   * it has passed the head.
   */
  function FirstNotBelow(s: seq<int>, tag: int, from: nat): (k: nat)
    requires from <= |s|
    ensures from <= k <= |s|
    ensures forall j :: from <= j < k ==> s[j] < tag
    ensures k < |s| ==> tag <= s[k]
    decreases |s| - from
  {
    if from == |s| || tag <= s[from] then from else FirstNotBelow(s, tag, from + 1)
  }

  /**
   * Where addPresent splices the new present: in front of the head when
   * the list is empty or `tag` is below the head's tag, otherwise after the
   * head and after every following present whose tag is below `tag`.
   */
  function InsertPosition(s: seq<int>, tag: int): (k: nat)
    ensures k <= |s|
    ensures k == 0 <==> s == [] || tag < s[0]
    ensures forall j :: 0 < j < k ==> s[j] < tag
    ensures 0 < k ==> s[0] <= tag
    ensures k < |s| ==> tag <= s[k]
  {
    if s == [] || tag < s[0] then 0 else FirstNotBelow(s, tag, 1)
  }

  /**
   * The tags after addPresent(tag): in front of the head when the list is
   * empty or `tag` is below the head's tag, otherwise wherever the walk
   * from the head stops.
   */
  function Insert(s: seq<int>, tag: int): (r: seq<int>)
    ensures |r| == |s| + 1
  {
    if s == [] || tag < s[0] then [tag] + s else InsertFrom(s, tag, 1)
  }

  /**
   * The walk of addPresent from position `from`: it moves on while the
   * next tag is below `tag` and splices `tag` in where it stops.
   */
  function InsertFrom(s: seq<int>, tag: int, from: nat): (r: seq<int>)
    requires from <= |s|
    ensures |r| == |s| + 1
    decreases |s| - from
  {
    if from == |s| || tag <= s[from] then s[..from] + [tag] + s[from..]
    else InsertFrom(s, tag, from + 1)
  }

  /** The walk from `from` splices `tag` in at FirstNotBelow. */
  lemma {:induction false} InsertFromSplice(s: seq<int>, tag: int, from: nat)
    requires from <= |s|
    ensures var k := FirstNotBelow(s, tag, from);
      InsertFrom(s, tag, from) == s[..k] + [tag] + s[k..]
    decreases |s| - from
  {
    if from < |s| && s[from] < tag {
      InsertFromSplice(s, tag, from + 1);
    }
  }

  /**
   * addPresent places `tag` at InsertPosition and keeps every other tag,
   * in its old order.
   */
  lemma InsertSplice(s: seq<int>, tag: int)
    ensures var k := InsertPosition(s, tag);
      && Insert(s, tag) == s[..k] + [tag] + s[k..]
      && |Insert(s, tag)| == |s| + 1
      && Insert(s, tag)[k] == tag
      && Insert(s, tag)[..k] + Insert(s, tag)[k + 1..] == s
  {
    var k := InsertPosition(s, tag);
    if k != 0 {
      InsertFromSplice(s, tag, 1);
    }
    var r := s[..k] + [tag] + s[k..];
    assert r[..k] == s[..k] && r[k + 1..] == s[k..];
    assert s == s[..k] + s[k..];
  }

  /** The position of the first occurrence of `tag`, or |s| when there is none. */
  function IndexOf(s: seq<int>, tag: int): (k: nat)
    ensures k <= |s|
    ensures forall j :: 0 <= j < k ==> s[j] != tag
    ensures k < |s| ==> s[k] == tag
    ensures k == |s| <==> tag !in s
  {
    if s == [] then 0
    else if s[0] == tag then 0
    else 1 + IndexOf(s[1..], tag)
  }

  /** The tags after removePresent(tag): the first occurrence, if any, is gone. */
  function RemoveFirst(s: seq<int>, tag: int): (r: seq<int>) {
    RemoveFrom(s, tag, 0)
  }

  /**
   * The walk of removePresent from position `from`: it moves on past
   * other tags and unlinks the first `tag` it meets.
   */
  function RemoveFrom(s: seq<int>, tag: int, from: nat): (r: seq<int>)
    requires from <= |s|
    decreases |s| - from
  {
    if from == |s| then s
    else if s[from] == tag then s[..from] + s[from + 1..]
    else RemoveFrom(s, tag, from + 1)
  }

  /** The walk from a position before the first `tag` removes that occurrence. */
  lemma {:induction false} RemoveFromSplice(s: seq<int>, tag: int, from: nat)
    requires from <= |s|
    requires forall j :: 0 <= j < from ==> s[j] != tag
    ensures var k := IndexOf(s, tag);
      RemoveFrom(s, tag, from) == if k == |s| then s else s[..k] + s[k + 1..]
    decreases |s| - from
  {
    if from < |s| && s[from] != tag {
      RemoveFromSplice(s, tag, from + 1);
    }
  }

  /**
   * removePresent takes out the first occurrence of `tag`, and only it,
   * when there is one, and changes nothing otherwise.
   */
  lemma RemoveSplice(s: seq<int>, tag: int)
    ensures var k := IndexOf(s, tag);
      RemoveFirst(s, tag) == if k == |s| then s else s[..k] + s[k + 1..]
    ensures tag in s ==> |RemoveFirst(s, tag)| == |s| - 1
    ensures tag !in s ==> RemoveFirst(s, tag) == s
  {
    RemoveFromSplice(s, tag, 0);
  }

  /** Placing `tag` between neighbours it fits between keeps a sequence sorted. */
  lemma SpliceKeepsSorted(s: seq<int>, k: nat, tag: int)
    requires Sorted(s) && k <= |s|
    requires 0 < k ==> s[k - 1] <= tag
    requires k < |s| ==> tag <= s[k]
    ensures Sorted(s[..k] + [tag] + s[k..])
  {
    var r := s[..k] + [tag] + s[k..];
    assert forall i :: 0 <= i < k ==> r[i] == s[i];
    assert forall i :: k < i < |r| ==> r[i] == s[i - 1];
    forall i, j | 0 <= i < j < |r| ensures r[i] <= r[j] {
      if j < k {
        assert s[i] <= s[j];
      } else if k < i {
        assert s[i - 1] <= s[j - 1];
      } else if i == k {
        assert s[k] <= s[j - 1];
      } else if j == k {
        assert s[i] <= s[k - 1];
      } else {
        assert s[i] <= s[k - 1] && s[k] <= s[j - 1];
      }
    }
  }

  /** addPresent keeps the chain in ascending order. */
  lemma InsertKeepsSorted(s: seq<int>, tag: int)
    requires Sorted(s)
    ensures Sorted(Insert(s, tag))
  {
    var k := InsertPosition(s, tag);
    if 1 < k {
      assert s[k - 1] < tag;
    }
    InsertSplice(s, tag);
    SpliceKeepsSorted(s, k, tag);
  }

  /** addPresent adds exactly one present carrying `tag`. */
  lemma InsertAddsTag(s: seq<int>, tag: int)
    ensures multiset(Insert(s, tag)) == multiset(s) + multiset{tag}
  {
    var k := InsertPosition(s, tag);
    InsertSplice(s, tag);
    assert s == s[..k] + s[k..];
    assert Insert(s, tag) == s[..k] + ([tag] + s[k..]);
  }

  /** removePresent of a present tag takes away exactly one copy of it. */
  lemma RemoveFirstTakesTag(s: seq<int>, tag: int)
    requires tag in s
    ensures multiset(RemoveFirst(s, tag)) == multiset(s) - multiset{tag}
  {
    var k := IndexOf(s, tag);
    RemoveSplice(s, tag);
    assert s == s[..k] + [tag] + s[k + 1..];
    assert RemoveFirst(s, tag) == s[..k] + s[k + 1..];
  }

  /** Taking one element out keeps a sequence sorted. */
  lemma DeleteKeepsSorted(s: seq<int>, k: nat)
    requires Sorted(s) && k < |s|
    ensures Sorted(s[..k] + s[k + 1..])
  {
    var r := s[..k] + s[k + 1..];
    assert forall i :: 0 <= i < |r| ==> r[i] == s[if i < k then i else i + 1];
    forall i, j | 0 <= i < j < |r| ensures r[i] <= r[j] {
      assert s[if i < k then i else i + 1] <= s[if j < k then j else j + 1];
    }
  }

  /** removePresent keeps the chain in ascending order. */
  lemma RemoveFirstKeepsSorted(s: seq<int>, tag: int)
    requires Sorted(s)
    ensures Sorted(RemoveFirst(s, tag))
  {
    var k := IndexOf(s, tag);
    RemoveSplice(s, tag);
    if k < |s| {
      DeleteKeepsSorted(s, k);
    }
  }

  /** The head of a sorted sequence is its least tag. */
  lemma SortedHeadIsLeast(s: seq<int>, x: int)
    requires Sorted(s) && x in s
    ensures s[0] <= x
  {
    var j :| 0 <= j < |s| && s[j] == x;
    assert s[0] <= s[j];
  }

  /** Two sorted sequences holding the same tags start with the same tag. */
  lemma SortedSameHead(a: seq<int>, b: seq<int>)
    requires Sorted(a) && Sorted(b)
    requires multiset(a) == multiset(b)
    requires a != []
    ensures b != [] && a[0] == b[0]
  {
    assert |b| == |multiset(b)| == |a| > 0;
    assert a[0] in multiset(b) && b[0] in multiset(a);
    SortedHeadIsLeast(b, a[0]);
    SortedHeadIsLeast(a, b[0]);
  }

  /** Dropping the same head from two sequences with the same tags leaves the same tags. */
  lemma SameTagsAfterHead(a: seq<int>, b: seq<int>)
    requires multiset(a) == multiset(b)
    requires a != [] && b != [] && a[0] == b[0]
    ensures multiset(a[1..]) == multiset(b[1..])
  {
    assert a == [a[0]] + a[1..] && b == [b[0]] + b[1..];
    assert multiset(a[1..]) == multiset(a) - multiset{a[0]};
    assert multiset(b[1..]) == multiset(b) - multiset{b[0]};
  }

  /** Two sorted sequences holding the same tags are the same sequence. */
  lemma {:induction false} SortedIsUnique(a: seq<int>, b: seq<int>)
    requires Sorted(a) && Sorted(b)
    requires multiset(a) == multiset(b)
    ensures a == b
  {
    if a == [] {
      assert multiset(b) == multiset{};
    } else {
      SortedSameHead(a, b);
      SameTagsAfterHead(a, b);
      assert Sorted(a[1..]) && Sorted(b[1..]);
      SortedIsUnique(a[1..], b[1..]);
      assert a == [a[0]] + a[1..] && b == [b[0]] + b[1..];
    }
  }

  /**
   * On a sorted list, the result of addPresent is THE sorted arrangement of
   * the old tags plus `tag`: any sorted sequence with those tags equals it.
   */
  lemma InsertIsSortedInsertion(s: seq<int>, tag: int, t: seq<int>)
    requires Sorted(s) && Sorted(t)
    requires multiset(t) == multiset(s) + multiset{tag}
    ensures t == Insert(s, tag)
  {
    InsertKeepsSorted(s, tag);
    InsertAddsTag(s, tag);
    SortedIsUnique(t, Insert(s, tag));
  }

  /**
   * One iteration of ServantWork for `tag`: even tags are added, odd tags
   * are removed when present (a thank-you note is written for them).
   */
  function ServantStep(s: seq<int>, tag: int): (r: seq<int>) {
    if tag % 2 == 0 then Insert(s, tag) else RemoveFirst(s, tag)
  }

  /** The tags after ServantWork has handled every tag in [start, stop). */
  function Served(s: seq<int>, start: int, stop: int): (r: seq<int>)
    decreases stop - start
  {
    if stop <= start then s else ServantStep(Served(s, start, stop - 1), stop - 1)
  }

  /**
   * The tags ServantWork writes a thank-you note for while handling
   * [start, stop): the odd tags present in the list at their turn.
   */
  function Thanked(s: seq<int>, start: int, stop: int): (r: seq<int>)
    ensures forall k :: 0 <= k < |r| ==> start <= r[k] < stop && r[k] % 2 != 0
    ensures forall k, l :: 0 <= k < l < |r| ==> r[k] < r[l]
    decreases stop - start
  {
    if stop <= start then []
    else
      var tag := stop - 1;
      Thanked(s, start, tag) + (if tag % 2 != 0 && tag in Served(s, start, tag) then [tag] else [])
  }

  /** Serving one more tag extends Served and Thanked by that tag's step. */
  lemma ServedNext(s: seq<int>, start: int, tag: int, before: seq<int>, after: seq<int>, written: bool)
    requires start <= tag && before == Served(s, start, tag)
    requires after == ServantStep(before, tag)
    requires written <==> tag % 2 != 0 && tag in before
    ensures after == Served(s, start, tag + 1)
    ensures Thanked(s, start, tag + 1) == Thanked(s, start, tag) + (if written then [tag] else [])
  {
  }

  ghost predicate AllEven(s: seq<int>) {
    forall x :: x in s ==> x % 2 == 0
  }

  /** The even tags in [start, stop), each once. */
  function EvensIn(start: int, stop: int): (m: multiset<int>)
    ensures forall x :: x in m ==> start <= x < stop && x % 2 == 0
    ensures forall x :: m[x] == if start <= x < stop && x % 2 == 0 then 1 else 0
    decreases stop - start
  {
    if stop <= start then multiset{}
    else EvensIn(start, stop - 1) + (if (stop - 1) % 2 == 0 then multiset{stop - 1} else multiset{})
  }

  /** One iteration of ServantWork on a sorted list of even tags. */
  lemma StepFromEvens(t: seq<int>, tag: int)
    requires Sorted(t) && AllEven(t)
    ensures Sorted(ServantStep(t, tag)) && AllEven(ServantStep(t, tag))
    ensures multiset(ServantStep(t, tag))
         == multiset(t) + (if tag % 2 == 0 then multiset{tag} else multiset{})
  {
    if tag % 2 == 0 {
      InsertKeepsSorted(t, tag);
      InsertAddsTag(t, tag);
      forall x | x in Insert(t, tag) ensures x % 2 == 0 {
        assert x in multiset(Insert(t, tag));
        assert x in multiset(t) + multiset{tag};
        if x != tag {
          assert x in multiset(t);
          assert x in t;
          assert x % 2 == 0;
        } else {
          assert x % 2 == 0;
        }
      }
    } else {
      assert tag !in t;
      RemoveSplice(t, tag);
    }
  }

  /**
   * Run alone on a sorted list of even tags, ServantWork adds exactly the
   * even tags of its range and keeps the list sorted and even.
   */
  lemma {:induction false} ServedFromEvens(s: seq<int>, start: int, stop: int)
    requires Sorted(s) && AllEven(s)
    ensures Sorted(Served(s, start, stop)) && AllEven(Served(s, start, stop))
    ensures multiset(Served(s, start, stop)) == multiset(s) + EvensIn(start, stop)
    decreases stop - start
  {
    if start < stop {
      ServedFromEvens(s, start, stop - 1);
      StepFromEvens(Served(s, start, stop - 1), stop - 1);
    }
  }

  /** Run alone on a sorted list of even tags, ServantWork writes no note. */
  lemma {:induction false} ThankedFromEvens(s: seq<int>, start: int, stop: int)
    requires Sorted(s) && AllEven(s)
    ensures Thanked(s, start, stop) == []
    decreases stop - start
  {
    if start < stop {
      var tag := stop - 1;
      ThankedFromEvens(s, start, tag);
      if tag % 2 != 0 {
        ServedFromEvens(s, start, tag);
        assert tag !in Served(s, start, tag);
      }
    }
  }

  /**
   * Two servants run one after the other over adjacent ranges leave the
   * list as one servant over the union does.
   */
  lemma {:induction false} ServedSplit(s: seq<int>, start: int, mid: int, stop: int)
    requires start <= mid <= stop
    ensures Served(Served(s, start, mid), mid, stop) == Served(s, start, stop)
    decreases stop - mid
  {
    if mid < stop {
      ServedSplit(s, start, mid, stop - 1);
    }
  }

  /**
   * Two servants run one after the other over adjacent ranges write the
   * same notes, in the same order, as one servant over the union.
   */
  lemma {:induction false} ThankedSplit(s: seq<int>, start: int, mid: int, stop: int)
    requires start <= mid <= stop
    ensures Thanked(s, start, mid) + Thanked(Served(s, start, mid), mid, stop) == Thanked(s, start, stop)
    decreases stop - mid
  {
    if mid < stop {
      ThankedSplit(s, start, mid, stop - 1);
      ServedSplit(s, start, mid, stop - 1);
      var m := Served(s, start, mid);
      assert Thanked(m, mid, stop) == Thanked(m, mid, stop - 1)
        + (if (stop - 1) % 2 != 0 && stop - 1 in Served(m, mid, stop - 1) then [stop - 1] else []);
    }
  }

  /**
   * The program's four servants, servant i over [i * per, (i + 1) * per),
   * run one after another on an empty list: the list ends up holding the
   * even tags below 4 * per in ascending order, and none of the servants
   * writes a note. (The program uses per = 100 / 4 = 25.)
   */
  lemma SequentialServants(per: nat)
    ensures var s1 := Served([], 0, per);
      var s2 := Served(s1, per, 2 * per);
      var s3 := Served(s2, 2 * per, 3 * per);
      var s4 := Served(s3, 3 * per, 4 * per);
      && Sorted(s4) && multiset(s4) == EvensIn(0, 4 * per)
      && Thanked([], 0, per) == [] && Thanked(s1, per, 2 * per) == []
      && Thanked(s2, 2 * per, 3 * per) == [] && Thanked(s3, 3 * per, 4 * per) == []
  {
    ServedSplit([], 0, per, 2 * per);
    ServedSplit([], 0, 2 * per, 3 * per);
    ServedSplit([], 0, 3 * per, 4 * per);
    ThankedSplit([], 0, per, 2 * per);
    ThankedSplit([], 0, 2 * per, 3 * per);
    ThankedSplit([], 0, 3 * per, 4 * per);
    ServedFromEvens([], 0, 4 * per);
    ThankedFromEvens([], 0, 4 * per);
  }

  /**
   * A servant's turn as the closing message of the program evidently
   * intends it: an even tag is added, and an odd tag writes the note for
   * the present added on the turn before it (tag - 1).
   */
  function IntendedStep(s: seq<int>, tag: int): (r: seq<int>) {
    if tag % 2 == 0 then Insert(s, tag) else RemoveFirst(s, tag - 1)
  }

  /** The tags after the intended servant has handled [start, stop). */
  function IntendedServed(s: seq<int>, start: int, stop: int): (r: seq<int>)
    decreases stop - start
  {
    if stop <= start then s else IntendedStep(IntendedServed(s, start, stop - 1), stop - 1)
  }

  /** The notes the intended servant writes while handling [start, stop). */
  function IntendedThanked(s: seq<int>, start: int, stop: int): (r: seq<int>)
    decreases stop - start
  {
    if stop <= start then []
    else
      var tag := stop - 1;
      IntendedThanked(s, start, tag)
        + (if tag % 2 != 0 && tag - 1 in IntendedServed(s, start, tag) then [tag - 1] else [])
  }

  /**
   * Run over [0, 2 * n) from an empty list, the intended servant writes a
   * note for every present it added, in the order they were added, and
   * leaves the list empty.
   */
  lemma {:induction false} IntendedThanksEvery(n: nat)
    ensures IntendedServed([], 0, 2 * n) == []
    ensures var notes := IntendedThanked([], 0, 2 * n);
      |notes| == n && forall k :: 0 <= k < n ==> notes[k] == 2 * k
  {
    if n > 0 {
      IntendedThanksEvery(n - 1);
      var tag := 2 * (n - 1);
      assert IntendedServed([], 0, tag + 1) == [tag];
      assert RemoveFirst([tag], tag) == [];
    }
  }
}
