/**
 The test driver of exercise10_3/Exercise10_3.c replayed on the list model.
 Every test record embeds two pairs, as `TestListStructure` does: pair 0
 threads the list of all records, pair 1 the list of even or of odd values.
 */
module Demo {
  import opened IntrusiveList

  /** The payloads of `s`, in order: what a drain loop prints. */
  function Values(s: seq<Rec>): seq<int>
  {
    seq(|s|, i requires 0 <= i < |s| => s[i].value)
  }

  /** Reading the payloads commutes with cutting two slices and joining
      them. */
  lemma ValuesOfSlices(s: seq<Rec>, a: nat, b: nat, c: nat, d: nat)
    requires a <= b <= |s| && c <= d <= |s|
    ensures Values(s[a..b] + s[c..d]) == Values(s)[a..b] + Values(s)[c..d]
  {
  }

  /** Every record has two embedded pairs and no pair is shared, within a
      record or across records: the memory layout of the C test records.
      `owner` maps each pair back to its record index and position. */
  ghost predicate Separate(recs: seq<Rec>, owner: map<Link, (int, int)>)
  {
    && (forall i :: 0 <= i < |recs| ==> |recs[i].links| == 2)
    && (forall i, a :: 0 <= i < |recs| && 0 <= a < 2 ==>
          recs[i].links[a] in owner && owner[recs[i].links[a]] == (i, a))
  }

  /** The zero-filled test records, each given its value. */
  method MakeRecords(values: seq<int>) returns (recs: seq<Rec>, ghost owner: map<Link, (int, int)>)
    ensures |recs| == |values| && Separate(recs, owner) && Values(recs) == values
    ensures forall i, a :: 0 <= i < |recs| && 0 <= a < 2 ==>
              fresh(recs[i].links[a]) && recs[i].links[a].next == null && recs[i].links[a].prev == null
  {
    recs, owner := [], map[];
    while |recs| < |values|
      invariant |recs| <= |values| && Separate(recs, owner)
      invariant forall i :: 0 <= i < |recs| ==> recs[i].value == values[i]
      invariant forall i, a :: 0 <= i < |recs| && 0 <= a < 2 ==>
                  fresh(recs[i].links[a]) && recs[i].links[a].next == null && recs[i].links[a].prev == null
    {
      var r := new Rec(values[|recs|], 2);
      owner := owner[r.links[0] := (|recs|, 0)][r.links[1] := (|recs|, 1)];
      recs := recs + [r];
    }
  }

  /** Separate records are threadable through either pair. */
  lemma SeparateThreadable(recs: seq<Rec>, owner: map<Link, (int, int)>, a: nat)
    requires Separate(recs, owner) && a < 2
    ensures Threadable(recs, a)
  {
    forall i, j | 0 <= i < j < |recs| ensures recs[i].links[a] != recs[j].links[a] {
      assert owner[recs[i].links[a]] != owner[recs[j].links[a]];
    }
  }

  /** A record of a threadable sequence uses a pair that no earlier record
      uses. */
  lemma NotYetThreaded(s: seq<Rec>, sel: nat, k: nat)
    requires Threadable(s, sel) && k < |s|
    ensures s[k].links[sel] !in PairsOf(s[..k], sel)
  {
    forall j | 0 <= j < k ensures s[..k][j].links[sel] != s[k].links[sel] {
      assert s[..k][j] == s[j] && Apart(s, sel, j, k);
    }
  }

  /** Append `recs` in order to an empty list (the repopulation loop of the
      test). Only the first record goes down the empty-list path, so only it
      needs a null `prev`. */
  method AddAll(l: List, recs: seq<Rec>)
    requires l.Valid() && l.contents == [] && Threadable(recs, l.sel)
    requires 0 < |recs| ==> recs[0].links[l.sel].prev == null
    modifies l, PairsOf(recs, l.sel)
    ensures l.Valid() && l.sel == old(l.sel) && l.contents == recs
  {
    var k := 0;
    while k < |recs|
      invariant 0 <= k <= |recs|
      invariant l.Valid() && l.sel == old(l.sel) && l.contents == recs[..k]
      invariant 0 < |recs| ==> recs[0].links[l.sel].prev == null
    {
      assert recs[k].links[l.sel] in PairsOf(recs, l.sel);
      assert 0 < k ==> l.tail == recs[k - 1] && recs[k - 1].links[l.sel] in PairsOf(recs, l.sel);
      NotYetThreaded(recs, l.sel, k);
      l.AddNode(recs[k]);
      k := k + 1;
    }
  }

  /** One pop of the drain loop, seen against the sequence `s` the list held
      when the loop began, of which the first `k` records are gone. */
  method PopFront(l: List, ghost s: seq<Rec>, ghost k: nat) returns (r: Rec?)
    requires l.Valid() && k <= |s| && l.contents == s[k..] && Threadable(s, l.sel)
    requires forall j :: 0 <= j < k ==> s[j].links[l.sel].prev == null
    modifies l, PairsOf(s, l.sel)
    ensures l.Valid() && l.sel == old(l.sel)
    ensures r == null <==> k == |s|
    ensures k == |s| ==> l.contents == []
    ensures k < |s| ==> r == s[k] && l.contents == s[k + 1..]
    ensures forall j :: 0 <= j < |s| && j <= k ==> s[j].links[l.sel].prev == null
  {
    if k + 1 < |s| {
      assert LinkedNext(l.contents, l.sel, 0);
      assert l.head.links[l.sel].next == s[k + 1];
      assert s[k + 1].links[l.sel] in PairsOf(s, l.sel);
      forall j | 0 <= j < k ensures s[j].links[l.sel] != s[k + 1].links[l.sel] {
        assert Apart(s, l.sel, j, k + 1);
      }
    }
    r := l.PopNode();
  }

  /** The drain loop of the test: pop until the pop returns null. The values
      come out in list order. */
  method Drain(l: List) returns (out: seq<int>)
    requires l.Valid()
    modifies l, l.Nodes()
    ensures l.Valid() && l.sel == old(l.sel) && l.contents == []
    ensures out == Values(old(l.contents))
    ensures forall j :: 0 <= j < |old(l.contents)| ==> old(l.contents)[j].links[l.sel].prev == null
  {
    ghost var s := l.contents;
    out := [];
    while true
      invariant |out| <= |s| && out == Values(s[..|out|])
      invariant l.Valid() && l.sel == old(l.sel) && l.contents == s[|out|..]
      invariant Threadable(s, l.sel)
      invariant forall j :: 0 <= j < |out| ==> s[j].links[l.sel].prev == null
      decreases |s| - |out|
    {
      var r := PopFront(l, s, |out|);
      if r == null {
        break;
      }
      assert s[..|out| + 1] == s[..|out|] + [r];
      out := out + [r.value];
    }
  }

  /** Appending fresh records to an empty list one by one and then popping
      until the pop returns null yields the values in the order appended. */
  method FifoScenario(values: seq<int>) returns (popped: seq<int>)
    ensures popped == values
  {
    var recs, owner := MakeRecords(values);
    SeparateThreadable(recs, owner, 0);
    var l := new List.Initialize(0);
    AddAll(l, recs);
    popped := Drain(l);
  }

  /** Unlink the record at index `i` of `l`. */
  method RemoveAt(l: List, r: Rec, ghost i: nat)
    requires l.Valid() && i < |l.contents| && l.contents[i] == r
    modifies l, l.Nodes()
    ensures l.Valid() && l.sel == old(l.sel) && l.count == old(l.count) - 1
    ensures l.contents == old(l.contents)[..i] + old(l.contents)[i + 1..]
    ensures l.Nodes() <= old(l.Nodes())
  {
    ghost var c := l.contents;
    if 0 < i {
      assert LinkedPrev(c, l.sel, i);
    }
    if i + 1 < |c| {
      assert LinkedNext(c, l.sel, i);
    }
    l.RemoveNode(r);
    forall o | o in l.Nodes() ensures o in old(l.Nodes()) {
      var j :| 0 <= j < |l.contents| && l.sel < |l.contents[j].links| && o == l.contents[j].links[l.sel];
      assert l.contents[j] == c[if j < i then j else j + 1];
    }
  }

  /** The three cuts of the test, as sequence identities. */
  lemma ThreeCuts(recs: seq<Rec>)
    requires |recs| == 10
    ensures recs[..0] + recs[1..] == recs[1..]
    ensures recs[1..][..3] + recs[1..][4..] == recs[1..4] + recs[5..]
    ensures (recs[1..4] + recs[5..])[..7] + (recs[1..4] + recs[5..])[8..] == recs[1..4] + recs[5..9]
  {
    assert (recs[1..4] + recs[5..])[..7] == recs[1..4] + recs[5..9];
  }

  /** The removals of the test on the refilled list of ten records: the
      first, a middle and the last one. */
  method RemoveThree(l: List, recs: seq<Rec>)
    requires l.Valid() && l.contents == recs && |recs| == 10
    modifies l, l.Nodes()
    ensures l.Valid() && l.count == 7 && l.contents == recs[1..4] + recs[5..9]
  {
    ThreeCuts(recs);
    RemoveAt(l, recs[0], 0);
    RemoveAt(l, recs[4], 3);
    RemoveAt(l, recs[9], 7);
  }

  /** Append `r` to list `a` and then to list `b`, as the first loop of the
      test does with the full list and the list of the record's parity. The
      pairs of `a`, of `b` and of a third list `c` are kept apart, so each
      append leaves the other two lists as they were. */
  method AddToBoth(a: List, b: List, c: List, r: Rec)
    requires a != b && a != c && b != c
    requires a.Valid() && b.Valid() && c.Valid()
    requires a.sel < |r.links| && b.sel < |r.links|
    requires r.links[a.sel] !in a.Nodes() && r.links[b.sel] !in b.Nodes()
    requires a.tail == null ==> r.links[a.sel].prev == null
    requires b.tail == null ==> r.links[b.sel].prev == null
    requires (a.Nodes() + {r.links[a.sel]}) !! (b.Nodes() + {r.links[b.sel]})
    requires (a.Nodes() + {r.links[a.sel]}) !! c.Nodes()
    requires (b.Nodes() + {r.links[b.sel]}) !! c.Nodes()
    modifies a, b, a.Nodes() + {r.links[a.sel]}, b.Nodes() + {r.links[b.sel]}
    ensures a.Valid() && a.sel == old(a.sel) && a.contents == old(a.contents) + [r]
    ensures b.Valid() && b.sel == old(b.sel) && b.contents == old(b.contents) + [r]
    ensures a.Nodes() == old(a.Nodes()) + {r.links[a.sel]}
    ensures b.Nodes() == old(b.Nodes()) + {r.links[b.sel]}
    ensures c.Valid() && unchanged(c)
  {
    ghost var na, nb := a.Nodes(), b.Nodes();
    assert a.tail != null ==> a.tail == a.contents[|a.contents| - 1] && a.tail.links[a.sel] in na;
    assert b.tail != null ==> b.tail == b.contents[|b.contents| - 1] && b.tail.links[b.sel] in nb;
    label Start:
    a.AddNode(r);
    ValidFramed@Start(b);
    ValidFramed@Start(c);
    label Between:
    b.AddNode(r);
    ValidFramed@Between(c);
    PairsOfAppend(old(a.contents), a.sel, r);
    PairsOfAppend(old(b.contents), b.sel, r);
    ValidFramed@Between(a);
  }

  /** Appending a record adds exactly its pair to the threaded pairs. */
  lemma PairsOfAppend(s: seq<Rec>, sel: nat, r: Rec)
    requires sel < |r.links|
    ensures PairsOf(s + [r], sel) == PairsOf(s, sel) + {r.links[sel]}
  {
    var t := s + [r];
    forall x | x in PairsOf(t, sel) ensures x in PairsOf(s, sel) + {r.links[sel]} {
      var k :| 0 <= k < |t| && sel < |t[k].links| && x == t[k].links[sel];
      if k < |s| {
        assert t[k] == s[k];
      }
    }
    forall x | x in PairsOf(s, sel) ensures x in PairsOf(t, sel) {
      var k :| 0 <= k < |s| && sel < |s[k].links| && x == s[k].links[sel];
      assert t[k] == s[k];
    }
    assert t[|s|] == r;
  }

  /** Unlink member `r` of list `a` at index `i`. A list `b` whose pairs
      are apart from `a`'s (another selector, or other records) is left as it
      was: `r` is still on it, and every pair it threads still holds what it
      held. */
  method RemoveFromOne(a: List, b: List, r: Rec, ghost i: nat)
    requires a != b && a.Valid() && b.Valid() && a.Nodes() !! b.Nodes()
    requires i < |a.contents| && a.contents[i] == r && r in b.contents
    modifies a, a.Nodes()
    ensures a.Valid() && a.contents == old(a.contents)[..i] + old(a.contents)[i + 1..]
    ensures b.Valid() && unchanged(b) && unchanged(b.Nodes()) && r in b.contents
  {
    label Start:
    RemoveAt(a, r, i);
    ValidFramed@Start(b);
  }

  /** The full-list part of the test driver: ten records (their values stand
      for the `rand() % 100` draws) are appended to the list of all records,
      which is then drained; the same records go back onto the emptied list,
      the first, a middle and the last one are unlinked, and the list is
      drained again. Draining leaves every record with a null `prev`, which
      is what lets the refill take the empty-list path safely. */
  method TestListStructure(values: seq<int>) returns (allCount: int, all: seq<int>, remaining: int, rest: seq<int>)
    requires |values| == 10
    ensures allCount == 10 && all == values
    ensures remaining == 7 && rest == values[1..4] + values[5..9]
  {
    var recs, owner := MakeRecords(values);
    SeparateThreadable(recs, owner, 0);
    var listAll := new List.Initialize(0);
    AddAll(listAll, recs);
    allCount := listAll.count;
    all := Drain(listAll);
    AddAll(listAll, recs);
    RemoveThree(listAll, recs);
    remaining := listAll.count;
    rest := Drain(listAll);
    ValuesOfSlices(recs, 1, 4, 5, 9);
  }
}
