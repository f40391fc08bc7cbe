/**
 The intrusive doubly-linked list engine of exercise10_3/Exercise10_3.c.

 A host record embeds one next/previous pair (a `ListNode`) per list it can
 belong to, and a list threads its records through that embedded pair. In the
 C code a list finds its pair inside a record through a byte offset; here a
 record holds a fixed sequence of embedded pairs and a list holds the index of
 its own pair, its link selector. Two lists with different selectors thread
 the same records independently, exactly as two offsets do.
 */
module IntrusiveList {

  /** The embedded `ListNode`: the links of one record in one list. Both point
      at host records, not at pairs. */
  class Link {
    var next: Rec?
    var prev: Rec?

    constructor ()
      ensures next == null && prev == null
    {
      next, prev := null, null;
    }
  }

  /** A caller-owned host record: a payload and its embedded pairs. The pairs
      are part of the record, so their identity never changes. */
  class Rec {
    const value: int
    const links: seq<Link>

    /** A record holding `value`, with `pairs` embedded pairs, all unlinked. */
    constructor (value: int, pairs: nat)
      ensures this.value == value && |links| == pairs
      ensures forall k :: 0 <= k < pairs ==> fresh(links[k]) && links[k].next == null && links[k].prev == null
      ensures forall a, b :: 0 <= a < b < pairs ==> links[a] != links[b]
    {
      var ls: seq<Link> := [];
      while |ls| < pairs
        invariant |ls| <= pairs
        invariant forall k :: 0 <= k < |ls| ==> fresh(ls[k]) && ls[k].next == null && ls[k].prev == null
        invariant forall a, b :: 0 <= a < b < |ls| ==> ls[a] != ls[b]
      {
        var l := new Link();
        ls := ls + [l];
      }
      this.value := value;
      links := ls;
    }
  }

  /** The pairs at selector `sel` of the records of `s`. */
  ghost function PairsOf(s: seq<Rec>, sel: nat): (ps: set<Link>)
  {
    set i | 0 <= i < |s| && sel < |s[i].links| :: s[i].links[sel]
  }

  /** Records `i` and `j` of `s` do not share pair `sel`. */
  ghost predicate Apart(s: seq<Rec>, sel: nat, i: int, j: int)
    requires 0 <= i < |s| && 0 <= j < |s| && sel < |s[i].links| && sel < |s[j].links|
  {
    s[i].links[sel] != s[j].links[sel]
  }

  /** Every record of `s` embeds pair `sel`, and no two of them share it. */
  ghost predicate Threadable(s: seq<Rec>, sel: nat)
  {
    && (forall i :: 0 <= i < |s| ==> sel < |s[i].links|)
    && (forall i, j :: 0 <= i < j < |s| ==> Apart(s, sel, i, j))
  }

  /** Record `i` of `s` points forward at record `i + 1` through pair `sel`. */
  ghost predicate LinkedNext(s: seq<Rec>, sel: nat, i: int)
    requires 0 <= i < |s| - 1 && sel < |s[i].links|
    reads s[i].links[sel]
  {
    s[i].links[sel].next == s[i + 1]
  }

  /** Record `i` of `s` points back at record `i - 1` through pair `sel`. */
  ghost predicate LinkedPrev(s: seq<Rec>, sel: nat, i: int)
    requires 0 < i < |s| && sel < |s[i].links|
    reads s[i].links[sel]
  {
    s[i].links[sel].prev == s[i - 1]
  }

  /** Cutting record `i` out of a threadable sequence leaves, in `t`, a
      threadable sequence that no longer holds that record. */
  lemma ThreadableCut(s: seq<Rec>, sel: nat, i: nat, t: seq<Rec>)
    requires Threadable(s, sel) && i < |s| && t == s[..i] + s[i + 1..]
    ensures Threadable(t, sel)
    ensures forall j :: 0 <= j < |t| ==> t[j] != s[i]
  {
    forall j | 0 <= j < |t| ensures t[j] == (if j < i then s[j] else s[j + 1]) && t[j] != s[i] {
      if j < i {
        assert t[j] == s[j] && Apart(s, sel, j, i);
      } else {
        assert t[j] == s[j + 1] && Apart(s, sel, i, j + 1);
      }
    }
    forall a, b | 0 <= a < b < |t| ensures Apart(t, sel, a, b) {
      var a', b' := if a < i then a else a + 1, if b < i then b else b + 1;
      assert Apart(s, sel, a', b');
    }
  }

  /** The list handle (the C `List`). `contents` is its abstract value: the
      linked records from head to tail. */
  class List {
    var head: Rec?
    var tail: Rec?
    var count: int
    var sel: nat
    ghost var contents: seq<Rec>

    /** The embedded pairs this list threads through its records. */
    ghost function Nodes(): (ps: set<Link>)
      reads this
    {
      PairsOf(contents, sel)
    }

    /** `count` is the length; the pairs at `sel` chain the records from
        `head` to `tail`, with a null `prev` first and a null `next` last. */
    ghost predicate Valid()
      reads this, Nodes()
    {
      && count == |contents|
      && Threadable(contents, sel)
      && (contents == [] ==> head == null && tail == null)
      && (contents != [] ==>
            && head == contents[0] && tail == contents[|contents| - 1]
            && head.links[sel].prev == null && tail.links[sel].next == null)
      && (forall i :: 0 <= i < |contents| - 1 ==> LinkedNext(contents, sel, i))
      && (forall i :: 0 < i < |contents| ==> LinkedPrev(contents, sel, i))
    }

    /** The pair this list uses inside record `x`, as a set (empty for null). */
    ghost function NodeSet(x: Rec?): (ps: set<Link>)
      reads this
    {
      if x == null || sel >= |x.links| then {} else {x.links[sel]}
    }

    /** Where member `r` sits: its one index, with its pair pointing at the
        records on either side of it. */
    lemma Locate(r: Rec) returns (i: nat)
      requires Valid() && r in contents
      ensures i < |contents| && contents[i] == r
      ensures forall j :: 0 <= j < |contents| && contents[j] == r ==> j == i
      ensures r.links[sel].prev == (if i == 0 then null else contents[i - 1])
      ensures r.links[sel].next == (if i == |contents| - 1 then null else contents[i + 1])
    {
      i :| 0 <= i < |contents| && contents[i] == r;
      if 0 < i {
        assert LinkedPrev(contents, sel, i);
      }
      if i < |contents| - 1 {
        assert LinkedNext(contents, sel, i);
      }
      forall j | 0 <= j < |contents| && j != i ensures contents[j] != r {
        if j < i {
          assert Apart(contents, sel, j, i);
        } else {
          assert Apart(contents, sel, i, j);
        }
      }
    }

    /** A one-record list, as the empty-list path of ListAddNode leaves it,
        is valid exactly when the record's `prev` is null: that path writes
        `next` but never `prev`, so a stale `prev` survives into the list. */
    lemma SingletonValid(r: Rec)
      requires contents == [r] && head == r && tail == r && count == 1
      requires sel < |r.links| && r.links[sel].next == null
      ensures Valid() <==> r.links[sel].prev == null
    {
    }

    /** ListInitialize: an empty list that threads pair `linkSel`. */
    constructor Initialize(linkSel: nat)
      ensures Valid()
      ensures head == null && tail == null && count == 0 && sel == linkSel
      ensures contents == []
    {
      head := null;
      tail := null;
      count := 0;
      sel := linkSel;
      contents := [];
    }

    /** ListAddNode: append `r` at the tail. Only `r`'s pair and the old
        tail's pair change. On the empty-list path the code never writes
        `prev`, so there `r` must arrive with a null `prev`. */
    method AddNode(r: Rec)
      requires Valid()
      requires sel < |r.links| && r.links[sel] !in Nodes()
      requires tail == null ==> r.links[sel].prev == null
      modifies this, r.links[sel], NodeSet(tail)
      ensures Valid() && sel == old(sel)
      ensures contents == old(contents) + [r] && count == old(count) + 1
      ensures tail == r && r.links[sel].next == null
      ensures old(tail) == null ==> head == r && r.links[sel].prev == null
      ensures old(tail) != null ==>
                && head == old(head) && r.links[sel].prev == old(tail)
                && old(tail).links[sel].next == r && old(tail).links[sel].prev == old(tail.links[sel].prev)
    {
      ghost var s := contents;
      var node := r.links[sel];
      node.next := null;
      if tail == null {
        head, tail := r, r;
      } else {
        var tailNode := tail.links[sel];
        tailNode.next := r;
        node.prev := tail;
        tail := r;
      }
      count := count + 1;
      contents := s + [r];
      AppendedValid(this, s, r);
    }

    /** ListRemoveNode: unlink member `r` by splicing its neighbours together
        (or moving `head`/`tail` when it is first/last). Only the neighbours'
        pairs change; `r`'s own pair is left as it was. */
    method RemoveNode(r: Rec)
      requires Valid() && r in contents
      modifies this, NodeSet(r.links[sel].prev), NodeSet(r.links[sel].next)
      ensures Valid() && sel == old(sel)
      ensures forall i :: 0 <= i < |old(contents)| && old(contents)[i] == r ==>
                contents == old(contents)[..i] + old(contents)[i + 1..]
      ensures (forall j :: 0 <= j < |contents| ==> contents[j] != r) && count == old(count) - 1
      ensures unchanged(r.links[sel])
    {
      ghost var s := contents;
      ghost var i := Locate(r);
      var node := r.links[sel];
      if node.prev == null {
        head := node.next;
      } else {
        var prevNode := node.prev.links[sel];
        prevNode.next := node.next;
      }
      if node.next == null {
        tail := node.prev;
      } else {
        var nextNode := node.next.links[sel];
        nextNode.prev := node.prev;
      }
      count := count - 1;
      contents := s[..i] + s[i + 1..];
      SplicedValid(this, s, i);
    }

    /** ListPopNode: remove and return the head, or null when the count is 0. */
    method PopNode() returns (r: Rec?)
      requires Valid()
      modifies this, if head == null then {} else NodeSet(head.links[sel].next)
      ensures Valid() && sel == old(sel)
      ensures old(count) == 0 ==> r == null && unchanged(this)
      ensures old(count) != 0 ==>
                && r == old(head) && r != null
                && contents == old(contents)[1..] && count == old(count) - 1
                && unchanged(r.links[sel]) && r.links[sel].prev == null
    {
      if count == 0 {
        return null;
      }
      var first := head;
      RemoveNode(first);
      r := first;
    }
  }

  /** Appending `r` to a valid list over `s` keeps it valid when only `r`'s
      pair and the old tail's pair were written, as the tail append writes
      them. */
  twostate lemma AppendedValid(new l: List, new s: seq<Rec>, new r: Rec)
    requires old(allocated(l)) && old(l.Valid()) && s == old(l.contents)
    requires l.sel == old(l.sel) && l.sel < |r.links| && r.links[l.sel] !in old(l.Nodes())
    requires l.contents == s + [r] && l.count == |s| + 1
    requires forall x: Link :: old(allocated(x)) && x != r.links[l.sel] && (s == [] || x != s[|s| - 1].links[l.sel]) ==>
               x.next == old(x.next) && x.prev == old(x.prev)
    requires s != [] ==> s[|s| - 1].links[l.sel].next == r && s[|s| - 1].links[l.sel].prev == old(s[|s| - 1].links[l.sel].prev)
    requires r.links[l.sel].next == null && r.links[l.sel].prev == (if s == [] then null else s[|s| - 1])
    requires l.head == (if s == [] then r else old(l.head)) && l.tail == r
    ensures l.Valid()
  {
    var c, sel, n := l.contents, l.sel, |s|;
    forall j | 0 <= j < n ensures s[j].links[sel] in old(l.Nodes()) && c[j] == s[j] {
    }
    forall a, b | 0 <= a < b < |c| ensures Apart(c, sel, a, b) {
      if b < n {
        assert Apart(s, sel, a, b);
      }
    }
    forall j | 0 <= j < |c| - 1 ensures LinkedNext(c, sel, j) {
      if j < n - 1 {
        assert old(LinkedNext(s, sel, j)) && Apart(s, sel, j, n - 1);
      }
    }
    forall j | 0 < j < |c| ensures LinkedPrev(c, sel, j) {
      if j < n - 1 {
        assert old(LinkedPrev(s, sel, j)) && Apart(s, sel, j, n - 1);
      } else if j == n - 1 {
        assert old(LinkedPrev(s, sel, j));
      }
    }
    if 1 < n {
      assert Apart(s, sel, 0, n - 1);
    }
  }

  /** Splicing out `s[i]` leaves a valid list without `s[i]` when the two
      neighbours were rewired around it and `head`/`tail` moved as needed. */
  twostate lemma SplicedValid(new l: List, new s: seq<Rec>, i: nat)
    requires old(allocated(l)) && old(l.Valid()) && s == old(l.contents) && i < |s|
    requires l.sel == old(l.sel) && l.count == |s| - 1
    requires l.contents == s[..i] + s[i + 1..]
    requires forall x: Link :: old(allocated(x)) && (i == 0 || x != s[i - 1].links[l.sel]) ==> x.next == old(x.next)
    requires forall x: Link :: old(allocated(x)) && (i + 1 == |s| || x != s[i + 1].links[l.sel]) ==> x.prev == old(x.prev)
    requires 0 < i ==> s[i - 1].links[l.sel].next == old(s[i].links[l.sel].next)
    requires i + 1 < |s| ==> s[i + 1].links[l.sel].prev == old(s[i].links[l.sel].prev)
    requires l.head == (if i == 0 then old(s[i].links[l.sel].next) else old(l.head))
    requires l.tail == (if i + 1 == |s| then old(s[i].links[l.sel].prev) else old(l.tail))
    ensures l.Valid() && forall j :: 0 <= j < |l.contents| ==> l.contents[j] != s[i]
  {
    var sel := l.sel;
    forall j | 0 <= j < |s| && j != i - 1 ensures s[j].links[sel].next == old(s[j].links[sel].next) {
      if 0 < i && j < i - 1 {
        assert Apart(s, sel, j, i - 1);
      } else if 0 < i && i - 1 < j {
        assert Apart(s, sel, i - 1, j);
      }
    }
    forall j | 0 <= j < |s| && j != i + 1 ensures s[j].links[sel].prev == old(s[j].links[sel].prev) {
      if i + 1 < |s| && j < i + 1 {
        assert Apart(s, sel, j, i + 1);
      } else if i + 1 < j {
        assert Apart(s, sel, i + 1, j);
      }
    }
    ThreadableCut(s, l.sel, i, l.contents);
    SplicedNext(l, s, i);
    SplicedPrev(l, s, i);
    if i == 0 && 1 < |s| {
      assert old(LinkedNext(s, l.sel, 0));
    }
    if 0 < i && i + 1 == |s| {
      assert old(LinkedPrev(s, l.sel, i));
    }
  }

  /** After the splice the `next` links still chain the remaining records. */
  twostate lemma SplicedNext(new l: List, new s: seq<Rec>, i: nat)
    requires old(allocated(l)) && old(l.Valid()) && s == old(l.contents) && i < |s| && l.sel == old(l.sel)
    requires l.contents == s[..i] + s[i + 1..]
    requires forall j :: 0 <= j < |s| && j != i - 1 ==> s[j].links[l.sel].next == old(s[j].links[l.sel].next)
    requires 0 < i ==> s[i - 1].links[l.sel].next == old(s[i].links[l.sel].next)
    ensures forall j :: 0 <= j < |l.contents| - 1 ==> LinkedNext(l.contents, l.sel, j)
  {
    var c, sel := l.contents, l.sel;
    forall j | 0 <= j < |c| - 1 ensures LinkedNext(c, sel, j) {
      if j < i - 1 {
        assert c[j] == s[j] && c[j + 1] == s[j + 1] && old(LinkedNext(s, sel, j));
      } else if j == i - 1 {
        assert c[j] == s[j] && c[j + 1] == s[j + 2] && old(LinkedNext(s, sel, j + 1));
      } else {
        assert c[j] == s[j + 1] && c[j + 1] == s[j + 2] && old(LinkedNext(s, sel, j + 1));
      }
    }
  }

  /** After the splice the `prev` links still chain the remaining records. */
  twostate lemma SplicedPrev(new l: List, new s: seq<Rec>, i: nat)
    requires old(allocated(l)) && old(l.Valid()) && s == old(l.contents) && i < |s| && l.sel == old(l.sel)
    requires l.contents == s[..i] + s[i + 1..]
    requires forall j :: 0 <= j < |s| && j != i + 1 ==> s[j].links[l.sel].prev == old(s[j].links[l.sel].prev)
    requires i + 1 < |s| ==> s[i + 1].links[l.sel].prev == old(s[i].links[l.sel].prev)
    ensures forall j :: 0 < j < |l.contents| ==> LinkedPrev(l.contents, l.sel, j)
  {
    var c, sel := l.contents, l.sel;
    forall j | 0 < j < |c| ensures LinkedPrev(c, sel, j) {
      if j < i {
        assert c[j] == s[j] && c[j - 1] == s[j - 1] && old(LinkedPrev(s, sel, j));
      } else if j == i {
        assert c[j] == s[j + 1] && c[j - 1] == s[j - 1] && old(LinkedPrev(s, sel, j));
      } else {
        assert c[j] == s[j + 1] && c[j - 1] == s[j] && old(LinkedPrev(s, sel, j + 1));
      }
    }
  }

  /** A list reads only its handle and the pairs it threads: as long as an
      operation on some other list leaves those alone, this list is still
      valid and threads the same pairs. */
  twostate lemma ValidFramed(new l: List)
    requires old(allocated(l)) && old(l.Valid())
    requires unchanged(l) && unchanged(old(l.Nodes()))
    ensures l.Valid() && l.Nodes() == old(l.Nodes())
  {
  }
}
