/**
 * The presents chain: a singly linked list of Present nodes kept in
 * ascending order of tag, with the three operations the servants use and
 * the servants' own loop. Every operation of problem1.cpp runs entirely
 * under one lock, so each is modelled as a sequential routine; the lock is
 * not modelled.
 *
 * The chain is described by two ghost sequences kept up to date by every
 * method: Nodes, the nodes in chain order from the head, and Contents,
 * their tags. Valid() ties them to the real head and next fields.
 */
module PresentList {
  import opened SortedTags

  /** No node occurs twice: the chain has no cycle. */
  ghost predicate Distinct(s: seq<Present>) {
    forall i, j :: 0 <= i < j < |s| ==> s[i] != s[j]
  }

  lemma InsertKeepsDistinct(s: seq<Present>, k: nat, p: Present)
    requires Distinct(s) && k <= |s| && p !in s
    ensures Distinct(s[..k] + [p] + s[k..])
  {
    var r := s[..k] + [p] + s[k..];
    forall i, j | 0 <= i < j < |r| ensures r[i] != r[j] {
      var i' := if i < k then i else i - 1;
      var j' := if j < k then j else j - 1;
      if i != k && j != k {
        assert r[i] == s[i'] && r[j] == s[j'];
      } else if i == k {
        assert r[j] == s[j'];
      } else {
        assert r[i] == s[i'];
      }
    }
  }

  lemma RemoveKeepsDistinct(s: seq<Present>, k: nat)
    requires Distinct(s) && k < |s|
    ensures Distinct(s[..k] + s[k + 1..])
  {
    var r := s[..k] + s[k + 1..];
    forall i, j | 0 <= i < j < |r| ensures r[i] != r[j] {
      var i' := if i < k then i else i + 1;
      var j' := if j < k then j else j + 1;
      assert r[i] == s[i'] && r[j] == s[j'];
    }
  }

  /** A node of the chain: a tag and the next node, or null at the end. */
  class Present {
    var tag: int
    var next: Present?

    constructor (t: int)
      ensures tag == t && next == null
    {
      tag := t;
      next := null;
    }
  }

  class ConcurrentLinkedList {
    var head: Present?

    ghost var Nodes: seq<Present>
    ghost var Contents: seq<int>
    ghost var Repr: set<object>

    /**
     * The chain from head visits exactly Nodes, once each, and ends in
     * null; Repr holds the list and every node it uses.
     */
    ghost predicate Valid()
      reads this, Repr
    {
      && this in Repr
      && |Nodes| == |Contents|
      && head == (if Nodes == [] then null else Nodes[0])
      && (forall i :: 0 <= i < |Nodes| ==> Nodes[i] in Repr && Nodes[i].tag == Contents[i])
      && (forall i {:trigger Nodes[i].next} :: 0 <= i < |Nodes| ==>
            Nodes[i].next == if i + 1 < |Nodes| then Nodes[i + 1] else null)
      && Distinct(Nodes)
    }

    /** The list starts empty. */
    constructor ()
      ensures Valid() && Contents == [] && Nodes == [] && fresh(Repr)
    {
      head := null;
      Repr := {this};
      Nodes := [];
      Contents := [];
    }

    /**
     * addPresent: splice a new node carrying `tag` in front of the first
     * node after the head whose tag is not below `tag`, or in front of the
     * head when the list is empty or `tag` is below the head's tag.
     */
    method AddPresent(tag: int)
      requires Valid()
      modifies Repr
      ensures Valid()
      ensures Contents == Insert(old(Contents), tag)
      ensures old(Contents) == [] || tag < old(Contents)[0] ==> head.tag == tag && Contents == [tag] + old(Contents)
      ensures fresh(Repr - old(Repr))
    {
      var newPresent := new Present(tag);
      if head == null || tag < head.tag {
        LinkAsHead(newPresent);
      } else {
        var current := head;
        ghost var i := 0;
        while current.next != null && current.next.tag < tag
          invariant 0 <= i < |Nodes| && current == Nodes[i]
          invariant Insert(Contents, tag) == InsertFrom(Contents, tag, i + 1)
          decreases |Nodes| - i
        {
          assert Nodes[i].next == Nodes[i + 1];
          current := current.next;
          i := i + 1;
        }
        assert InsertFrom(Contents, tag, i + 1) == Contents[..i + 1] + [tag] + Contents[i + 1..];
        LinkAfter(current, i, newPresent);
      }
    }

    /** The first half of addPresent's splice: `p` becomes the head. */
    method LinkAsHead(p: Present)
      requires Valid() && p !in Repr
      modifies this, p
      ensures Valid()
      ensures Nodes == [p] + old(Nodes) && Contents == [p.tag] + old(Contents)
      ensures p.tag == old(p.tag) && Repr == old(Repr) + {p}
    {
      ghost var before, tags := Nodes, Contents;
      InsertKeepsDistinct(Nodes, 0, p);
      assert Nodes[..0] + [p] + Nodes[0..] == [p] + Nodes;
      p.next := head;
      head := p;
      Nodes := [p] + Nodes;
      Repr := Repr + {p};
      Contents := [p.tag] + Contents;
      forall j | 0 < j < |Nodes|
        ensures Nodes[j] in Repr && Nodes[j].tag == Contents[j]
        ensures Nodes[j].next == (if j + 1 < |Nodes| then Nodes[j + 1] else null)
      {
        assert Nodes[j] == before[j - 1] && Contents[j] == tags[j - 1];
      }
    }

    /** The second half of addPresent's splice: `p` goes right after Nodes[i]. */
    method LinkAfter(current: Present, ghost i: nat, p: Present)
      requires Valid() && i < |Nodes| && current == Nodes[i] && p !in Repr
      modifies current, p, this
      ensures Valid()
      ensures Nodes == old(Nodes[..i + 1] + [p] + Nodes[i + 1..])
      ensures Contents == old(Contents[..i + 1] + [p.tag] + Contents[i + 1..])
      ensures p.tag == old(p.tag) && head == old(head) && Repr == old(Repr) + {p}
    {
      ghost var before, tags := Nodes, Contents;
      InsertKeepsDistinct(Nodes, i + 1, p);
      p.next := current.next;
      current.next := p;
      Nodes := Nodes[..i + 1] + [p] + Nodes[i + 1..];
      Repr := Repr + {p};
      Contents := Contents[..i + 1] + [p.tag] + Contents[i + 1..];
      forall j | 0 <= j < |Nodes|
        ensures Nodes[j] in Repr && Nodes[j].tag == Contents[j]
        ensures Nodes[j].next == (if j + 1 < |Nodes| then Nodes[j + 1] else null)
      {
        if j < i {
          assert Nodes[j] == before[j] != current && Contents[j] == tags[j];
          assert Nodes[j + 1] == before[j + 1];
        } else if j > i + 1 {
          assert Nodes[j] == before[j - 1] != current && Contents[j] == tags[j - 1];
        }
      }
    }

    /**
     * removePresent: unlink the first node carrying `tag`, if any, and say
     * whether there was one. The unlinked node is cut off from the chain.
     */
    method RemovePresent(tag: int) returns (removed: bool)
      requires Valid()
      modifies Repr
      ensures Valid()
      ensures removed <==> tag in old(Contents)
      ensures Contents == RemoveFirst(old(Contents), tag)
      ensures Repr == old(Repr)
    {
      var current := head;
      var prev: Present? := null;
      ghost var i := 0;
      while current != null && current.tag != tag
        invariant 0 <= i <= |Nodes|
        invariant current == (if i < |Nodes| then Nodes[i] else null)
        invariant prev == (if i == 0 then null else Nodes[i - 1])
        invariant forall j :: 0 <= j < i ==> Contents[j] != tag
        invariant RemoveFirst(Contents, tag) == RemoveFrom(Contents, tag, i)
        decreases |Nodes| - i
      {
        assert Nodes[i].next == if i + 1 < |Nodes| then Nodes[i + 1] else null;
        prev := current;
        current := current.next;
        i := i + 1;
      }
      if current != null {
        assert RemoveFrom(Contents, tag, i) == Contents[..i] + Contents[i + 1..];
        Unlink(prev, current, i);
        return true;
      }
      return false;
    }

    /**
     * The unlinking step of removePresent: Nodes[i], whose predecessor is
     * `prev` (null for the head), leaves the chain and is cut off from it.
     */
    method Unlink(prev: Present?, current: Present, ghost i: nat)
      requires Valid() && i < |Nodes| && current == Nodes[i]
      requires prev == (if i == 0 then null else Nodes[i - 1])
      modifies Repr
      ensures Valid()
      ensures Nodes == old(Nodes[..i] + Nodes[i + 1..])
      ensures Contents == old(Contents[..i] + Contents[i + 1..])
      ensures Repr == old(Repr) && current.next == null
    {
      ghost var before, tags := Nodes, Contents;
      if prev != null {
        prev.next := current.next;
      } else {
        head := current.next;
      }
      current.next := null;
      RemoveKeepsDistinct(Nodes, i);
      Nodes := Nodes[..i] + Nodes[i + 1..];
      Contents := Contents[..i] + Contents[i + 1..];
      forall j | 0 <= j < |Nodes|
        ensures Nodes[j] in Repr && Nodes[j].tag == Contents[j]
        ensures Nodes[j].next == (if j + 1 < |Nodes| then Nodes[j + 1] else null)
      {
        if j < i {
          assert Nodes[j] == before[j] != current && Contents[j] == tags[j];
          if j + 1 < i {
            assert Nodes[j] != prev && Nodes[j + 1] == before[j + 1];
          }
        } else {
          assert Nodes[j] == before[j + 1] != current && Contents[j] == tags[j + 1];
          assert Nodes[j] != prev;
        }
      }
    }

    /** findPresent: whether some node carries `tag`; the list is not changed. */
    method FindPresent(tag: int) returns (found: bool)
      requires Valid()
      ensures found <==> tag in Contents
    {
      var current := head;
      ghost var i := 0;
      while current != null
        invariant 0 <= i <= |Nodes|
        invariant current == (if i < |Nodes| then Nodes[i] else null)
        invariant forall j :: 0 <= j < i ==> Contents[j] != tag
        decreases |Nodes| - i
      {
        if current.tag == tag {
          return true;
        }
        assert Nodes[i].next == if i + 1 < |Nodes| then Nodes[i + 1] else null;
        current := current.next;
        i := i + 1;
      }
      return false;
    }
  }

  /**
   * writeThankYouNote: remove the present and report whether a note was
   * written for it (the pause and the message are not modelled).
   */
  method WriteThankYouNote(list: ConcurrentLinkedList, tag: int) returns (written: bool)
    requires list.Valid()
    modifies list.Repr
    ensures list.Valid()
    ensures written <==> tag in old(list.Contents)
    ensures list.Contents == RemoveFirst(old(list.Contents), tag)
    ensures list.Repr == old(list.Repr)
  {
    written := list.RemovePresent(tag);
  }

  /**
   * One pass of the loop in ServantWork: an even tag is added, an odd tag
   * gets a thank-you note when its present is in the list. Returns whether
   * a note was written.
   */
  method ServeTag(list: ConcurrentLinkedList, tag: int) returns (written: bool)
    requires list.Valid()
    modifies list.Repr
    ensures list.Valid()
    ensures list.Contents == ServantStep(old(list.Contents), tag)
    ensures written <==> tag % 2 != 0 && tag in old(list.Contents)
    ensures fresh(list.Repr - old(list.Repr))
  {
    if tag % 2 == 0 {
      list.AddPresent(tag);
      written := false;
    } else {
      written := WriteThankYouNote(list, tag);
    }
  }

  /**
   * ServantWork run alone: every tag from start to end inclusive is served
   * in turn. Returns the tags for which a thank-you note was written, in
   * the order they were written.
   */
  method ServantWork(list: ConcurrentLinkedList, start: int, end: int) returns (thanked: seq<int>)
    requires list.Valid()
    modifies list.Repr
    ensures list.Valid()
    ensures list.Contents == Served(old(list.Contents), start, end + 1)
    ensures thanked == Thanked(old(list.Contents), start, end + 1)
    ensures fresh(list.Repr - old(list.Repr))
  {
    thanked := [];
    ghost var s0 := list.Contents;
    var tag := start;
    while tag <= end
      invariant start <= tag && (tag <= end + 1 || tag == start)
      invariant list.Valid()
      invariant fresh(list.Repr - old(list.Repr))
      invariant list.Contents == Served(s0, start, tag)
      invariant thanked == Thanked(s0, start, tag)
      decreases end - tag
    {
      ghost var before := list.Contents;
      var written := ServeTag(list, tag);
      ServedNext(s0, start, tag, before, list.Contents, written);
      if written {
        thanked := thanked + [tag];
      }
      tag := tag + 1;
    }
  }
}
