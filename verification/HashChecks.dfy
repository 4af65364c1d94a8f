/** What hash_check complains about, and what its silence means. */
module HashChecks {
  import opened Lists
  import opened Lru
  import opened HashModel
  import opened HashLaws

  function Total<T>(ss: seq<seq<T>>): nat {
    if ss == [] then 0 else |ss[0]| + Total(ss[1..])
  }

  lemma {:induction false} TotalBound<T>(ss: seq<seq<T>>, b: nat)
    requires b < |ss|
    ensures |ss[b]| <= Total(ss)
  {
    if b > 0 {
      TotalBound(ss[1..], b - 1);
    }
  }

  /** What hash_check looks for in the LRU list: the key, or the buffer, of one item again further on. */
  ghost predicate KeyAgain<H, L>(s: seq<Cell<H, L>>, i: nat) {
    i < |s| && exists k :: i < k < |s| && s[k].ced.key == s[i].ced.key
  }

  ghost predicate BufAgain<H, L>(s: seq<Cell<H, L>>, i: nat) {
    i < |s| && exists k :: i < k < |s| && s[k].ced.buf == s[i].ced.buf
  }

  /** What it looks for in the table: the first item of the bucket with the key. */
  ghost predicate PartnerFits<H, L>(t: Table<H, L>, i: nat)
    requires t.Shape() && i < |t.lru|
  {
    var slot := t.slots[t.Slot(t.lru[i].ced.key)];
    var j := FirstKey(slot, t.lru[i].ced.key);
    j < |slot| && Matched(t, t.lru[i], slot[j])
  }

  /** The tests hash_check makes on one LRU item: looking only from there on along the LRU list, and into one bucket. */
  ghost predicate QuietAt<H, L>(t: Table<H, L>, i: nat)
    requires t.Shape() && i < |t.lru|
  {
    !KeyAgain(t.lru, i) && !BufAgain(t.lru, i) && PartnerFits(t, i)
  }

  /** An LRU cell and a bucket cell that name each other and agree on the data. */
  ghost predicate Matched<H, L>(t: Table<H, L>, l: Cell<H, L>, h: Cell<H, L>)
    requires t.Shape()
  {
    && l.other == h.self && l.list == t.slotLists[t.Slot(l.ced.key)]
    && h.other == l.self && h.list == t.lruList
    && h.ced.key == l.ced.key && h.ced.buf == l.ced.buf && h.ced.buflen == l.ced.buflen
  }

  /** hash_check prints nothing; its totals are uint32_t. */
  ghost predicate Quiet<H, L>(t: Table<H, L>, cap: nat)
    requires t.Shape()
  {
    && U32(|t.lru|) <= cap
    && U32(Total(t.slots)) == U32(|t.lru|)
    && forall i :: 0 <= i < |t.lru| ==> QuietAt(t, i)
  }

  /** No element is in two lists: true of every heap of well-formed lists. */
  ghost predicate Separate<H, L>(t: Table<H, L>) {
    && t.Shape()
    && Selves(t.lru)
    && (forall b :: 0 <= b < |t.slots| ==> Selves(t.slots[b]))
    && (forall b, c, i, j :: 0 <= b < c < |t.slots| && 0 <= i < |t.slots[b]| && 0 <= j < |t.slots[c]| ==>
          t.slots[b][i].self != t.slots[c][j].self)
  }

  ghost predicate MatchedDown<H, L>(t: Table<H, L>, i: nat)
    requires t.Shape() && i < |t.lru|
  {
    var slot := t.slots[t.Slot(t.lru[i].ced.key)];
    exists j :: 0 <= j < |slot| && Matched(t, t.lru[i], slot[j])
  }

  ghost predicate MatchedUp<H, L>(t: Table<H, L>, b: nat, j: nat)
    requires t.Shape() && b < |t.slots| && j < |t.slots[b]|
  {
    exists i :: 0 <= i < |t.lru| && Matched(t, t.lru[i], t.slots[b][j]) && t.Slot(t.lru[i].ced.key) == b
  }

  /** The LRU list and the table are one-to-one, with distinct keys and buffers, within the capacity. */
  ghost predicate Consistent<H, L>(t: Table<H, L>, cap: nat)
    requires t.Shape()
  {
    && |t.lru| <= cap
    && (forall i, k :: 0 <= i < k < |t.lru| ==>
          t.lru[i].ced.key != t.lru[k].ced.key && t.lru[i].ced.buf != t.lru[k].ced.buf)
    && (forall i :: 0 <= i < |t.lru| ==> MatchedDown(t, i))
    && (forall b, j :: 0 <= b < |t.slots| && 0 <= j < |t.slots[b]| ==> MatchedUp(t, b, j))
  }

  // --- Counting elements by their handles

  ghost function SelfSet<H, L>(s: seq<Cell<H, L>>): set<H> {
    set i | 0 <= i < |s| :: s[i].self
  }

  ghost function AllSelves<H, L>(ss: seq<seq<Cell<H, L>>>): set<H> {
    set b, j | 0 <= b < |ss| && 0 <= j < |ss[b]| :: ss[b][j].self
  }

  ghost function OtherSet<H, L>(s: seq<Cell<H, L>>): set<H> {
    set i | 0 <= i < |s| :: s[i].other
  }

  lemma {:induction false} CountSelves<H, L>(s: seq<Cell<H, L>>)
    requires Selves(s)
    ensures |SelfSet(s)| == |s|
  {
    if s != [] {
      var n := |s| - 1;
      CountSelves(s[..n]);
      assert SelfSet(s) == SelfSet(s[..n]) + {s[n].self};
    }
  }

  lemma {:induction false} CountOthers<H, L>(s: seq<Cell<H, L>>)
    requires forall i, k :: 0 <= i < k < |s| ==> s[i].other != s[k].other
    ensures |OtherSet(s)| == |s|
  {
    if s != [] {
      var n := |s| - 1;
      CountOthers(s[..n]);
      assert OtherSet(s) == OtherSet(s[..n]) + {s[n].other};
    }
  }

  lemma {:induction false} CountAll<H, L>(ss: seq<seq<Cell<H, L>>>)
    requires forall b :: 0 <= b < |ss| ==> Selves(ss[b])
    requires forall b, c, i, j :: 0 <= b < c < |ss| && 0 <= i < |ss[b]| && 0 <= j < |ss[c]| ==>
               ss[b][i].self != ss[c][j].self
    ensures |AllSelves(ss)| == Total(ss)
  {
    if ss != [] {
      CountAll(ss[1..]);
      CountSelves(ss[0]);
      AllSelvesStep(ss);
    }
  }

  lemma AllSelvesStep<H, L>(ss: seq<seq<Cell<H, L>>>)
    requires ss != []
    requires forall b, c, i, j :: 0 <= b < c < |ss| && 0 <= i < |ss[b]| && 0 <= j < |ss[c]| ==>
               ss[b][i].self != ss[c][j].self
    ensures SelfSet(ss[0]) !! AllSelves(ss[1..])
    ensures AllSelves(ss) == SelfSet(ss[0]) + AllSelves(ss[1..])
  {
    forall h | h in AllSelves(ss)
      ensures h in SelfSet(ss[0]) + AllSelves(ss[1..])
    {
      var b, j :| 0 <= b < |ss| && 0 <= j < |ss[b]| && ss[b][j].self == h;
      assert b > 0 ==> ss[1..][b - 1][j].self == h;
    }
    forall h | h in AllSelves(ss[1..])
      ensures h in AllSelves(ss) && h !in SelfSet(ss[0])
    {
      var b, j :| 0 <= b < |ss[1..]| && 0 <= j < |ss[1..][b]| && ss[1..][b][j].self == h;
      assert ss[b + 1][j].self == h;
    }
  }

  /** Two bucket elements with one handle are the same element. */
  lemma SameElement<H, L>(t: Table<H, L>, b: nat, i: nat, c: nat, j: nat)
    requires Separate(t) && b < |t.slots| && i < |t.slots[b]| && c < |t.slots| && j < |t.slots[c]|
    requires t.slots[b][i].self == t.slots[c][j].self
    ensures b == c && i == j
  {
  }

  lemma OthersDistinct<H, L>(t: Table<H, L>)
    requires Separate(t) && forall i :: 0 <= i < |t.lru| ==> MatchedDown(t, i)
    ensures |OtherSet(t.lru)| == |t.lru|
    ensures OtherSet(t.lru) <= AllSelves(t.slots)
  {
    forall i, k | 0 <= i < k < |t.lru|
      ensures t.lru[i].other != t.lru[k].other
    {
      assert MatchedDown(t, i) && MatchedDown(t, k);
      var b, c := t.Slot(t.lru[i].ced.key), t.Slot(t.lru[k].ced.key);
      var j :| 0 <= j < |t.slots[b]| && Matched(t, t.lru[i], t.slots[b][j]);
      var m :| 0 <= m < |t.slots[c]| && Matched(t, t.lru[k], t.slots[c][m]);
    }
    CountOthers(t.lru);
    forall h | h in OtherSet(t.lru)
      ensures h in AllSelves(t.slots)
    {
      var i :| 0 <= i < |t.lru| && t.lru[i].other == h;
      assert MatchedDown(t, i);
      var b := t.Slot(t.lru[i].ced.key);
      var j :| 0 <= j < |t.slots[b]| && Matched(t, t.lru[i], t.slots[b][j]);
      assert t.slots[b][j].self == h;
    }
  }

  lemma SubsetSameSize<T>(s: set<T>, t: set<T>)
    requires s <= t && |s| == |t|
    ensures s == t
  {
    assert |t - s| == |t| - |s|;
  }

  /**
   The pigeonhole step.  Every LRU item has a partner, and there are as many
   bucket items as LRU items, so every bucket item is somebody's partner although
   hash_check never looks from the table to the LRU list.
   */
  lemma NoneLeftOver<H, L>(t: Table<H, L>)
    requires Separate(t) && forall i :: 0 <= i < |t.lru| ==> MatchedDown(t, i)
    ensures Total(t.slots) == |t.lru| <==>
              forall b, j :: 0 <= b < |t.slots| && 0 <= j < |t.slots[b]| ==> MatchedUp(t, b, j)
  {
    OthersDistinct(t);
    CountAll(t.slots);
    if Total(t.slots) == |t.lru| {
      SubsetSameSize(OtherSet(t.lru), AllSelves(t.slots));
      forall b, j | 0 <= b < |t.slots| && 0 <= j < |t.slots[b]|
        ensures MatchedUp(t, b, j)
      {
        assert t.slots[b][j].self in AllSelves(t.slots);
        var i :| 0 <= i < |t.lru| && t.lru[i].other == t.slots[b][j].self;
        assert MatchedDown(t, i);
        var c := t.Slot(t.lru[i].ced.key);
        var m :| 0 <= m < |t.slots[c]| && Matched(t, t.lru[i], t.slots[c][m]);
        SameElement(t, b, j, c, m);
      }
    }
    if forall b, j :: 0 <= b < |t.slots| && 0 <= j < |t.slots[b]| ==> MatchedUp(t, b, j) {
      forall h | h in AllSelves(t.slots)
        ensures h in OtherSet(t.lru)
      {
        var b, j :| 0 <= b < |t.slots| && 0 <= j < |t.slots[b]| && t.slots[b][j].self == h;
        assert MatchedUp(t, b, j);
      }
      assert OtherSet(t.lru) == AllSelves(t.slots);
    }
  }

  lemma QuietIsConsistent<H, L>(t: Table<H, L>, cap: nat)
    requires Separate(t) && Quiet(t, cap) && |t.lru| < 0x1_0000_0000 && Total(t.slots) < 0x1_0000_0000
    ensures Consistent(t, cap)
  {
    forall i | 0 <= i < |t.lru|
      ensures MatchedDown(t, i)
    {
      assert QuietAt(t, i);
    }
    NoneLeftOver(t);
    forall i, k | 0 <= i < k < |t.lru|
      ensures t.lru[i].ced.key != t.lru[k].ced.key && t.lru[i].ced.buf != t.lru[k].ced.buf
    {
      assert QuietAt(t, i);
    }
  }

  /** With distinct LRU keys the first bucket item with the key is the partner. */
  lemma ConsistentIsQuietAt<H, L>(t: Table<H, L>, cap: nat, i: nat)
    requires Separate(t) && Consistent(t, cap) && i < |t.lru|
    ensures QuietAt(t, i)
  {
    var l := t.lru[i];
    var b := t.Slot(l.ced.key);
    assert MatchedDown(t, i);
    var j :| 0 <= j < |t.slots[b]| && Matched(t, l, t.slots[b][j]);
    var f := FirstKey(t.slots[b], l.ced.key);
    assert f <= j;
    assert MatchedUp(t, b, f);
    var k :| 0 <= k < |t.lru| && Matched(t, t.lru[k], t.slots[b][f]) && t.Slot(t.lru[k].ced.key) == b;
    assert t.lru[k].ced.key == l.ced.key;
    assert k == i;
  }

  /** hash_check is silent exactly on consistent tables, as long as its totals do not wrap round. */
  lemma QuietMeansConsistent<H, L>(t: Table<H, L>, cap: nat)
    requires Separate(t) && |t.lru| < 0x1_0000_0000 && Total(t.slots) < 0x1_0000_0000
    ensures Quiet(t, cap) <==> Consistent(t, cap)
  {
    if Quiet(t, cap) {
      QuietIsConsistent(t, cap);
    }
    if Consistent(t, cap) {
      NoneLeftOver(t);
      forall i | 0 <= i < |t.lru|
        ensures QuietAt(t, i)
      {
        ConsistentIsQuietAt(t, cap, i);
      }
    }
  }

  lemma OthersApart<H, L>(t: Table<H, L>, i: nat, k: nat)
    requires Separate(t) && Joined(t) && i < k < |t.lru|
    ensures t.lru[i].other != t.lru[k].other
  {
    hide Table.Tidy;
    assert Mated(t, i) && Mated(t, k);
  }

  lemma OtherIsSelf<H, L>(t: Table<H, L>, i: nat)
    requires Joined(t) && i < |t.lru|
    ensures t.lru[i].other in AllSelves(t.slots)
  {
    assert Mated(t, i);
    assert t.slots[Home(t, i)][Mate(t, i)].self == t.lru[i].other;
  }

  lemma SelfIsOther<H, L>(t: Table<H, L>, b: nat, j: nat)
    requires Joined(t) && b < |t.slots| && j < |t.slots[b]|
    ensures t.slots[b][j].self in OtherSet(t.lru)
  {
    assert HasMate(t, b, j);
    var i: nat :| IsMate(t, i, b, j);
    assert t.lru[i].other == t.slots[b][j].self;
  }

  lemma OthersAreSelves<H, L>(t: Table<H, L>)
    requires Joined(t)
    ensures OtherSet(t.lru) == AllSelves(t.slots)
  {
    hide Joined;
    forall h | h in OtherSet(t.lru)
      ensures h in AllSelves(t.slots)
    {
      var i :| 0 <= i < |t.lru| && t.lru[i].other == h;
      OtherIsSelf(t, i);
    }
    forall h | h in AllSelves(t.slots)
      ensures h in OtherSet(t.lru)
    {
      var b, j :| 0 <= b < |t.slots| && 0 <= j < |t.slots[b]| && t.slots[b][j].self == h;
      SelfIsOther(t, b, j);
    }
  }

  /** The handles stored in the LRU items are as many as the bucket items, whatever those store. */
  lemma JoinedTotal<H, L>(t: Table<H, L>)
    requires Separate(t) && Joined(t)
    ensures Total(t.slots) == |t.lru|
  {
    hide Joined;
    hide OtherSet;
    hide AllSelves;
    forall i, k | 0 <= i < k < |t.lru|
      ensures t.lru[i].other != t.lru[k].other
    {
      OthersApart(t, i, k);
    }
    CountOthers(t.lru);
    CountAll(t.slots);
    OthersAreSelves(t);
  }

  /**
   When keys and buffers do not repeat, hash_check has nothing to say about a cache
   exactly when no entry has moved to another LRU element since it was put in.
   */
  lemma JoinedConsistent<H, L>(t: Table<H, L>, cap: nat)
    requires Separate(t) && Joined(t) && |t.lru| <= cap
    requires forall i, k :: 0 <= i < k < |t.lru| ==>
               t.lru[i].ced.key != t.lru[k].ced.key && t.lru[i].ced.buf != t.lru[k].ced.buf
    ensures Consistent(t, cap) <==> UpToDate(t)
  {
    JoinedTotal(t);
    if Consistent(t, cap) {
      forall i | 0 <= i < |t.lru|
        ensures LeadsBack(t, i)
      {
        MatchedIsMate(t, i);
      }
    }
    if UpToDate(t) {
      forall i | 0 <= i < |t.lru|
        ensures MatchedDown(t, i)
      {
        assert LeadsBack(t, i);
        MatchedIsMate(t, i);
      }
      NoneLeftOver(t);
    }
  }

  /** The bucket item that agrees with an LRU item can only be its mate. */
  lemma MatchedIsMate<H, L>(t: Table<H, L>, i: nat)
    requires Separate(t) && Joined(t) && i < |t.lru|
    ensures MatchedDown(t, i) <==> LeadsBack(t, i)
  {
    var s, m := t.slots[Home(t, i)], Mate(t, i);
    assert Mated(t, i);
    if MatchedDown(t, i) {
      var j :| 0 <= j < |s| && Matched(t, t.lru[i], s[j]);
      AtIs(s, j);
    }
    if LeadsBack(t, i) {
      assert Matched(t, t.lru[i], s[m]);
    }
  }

  /** The links alone: a coupled table has every item matched, so the buckets together hold as much as the LRU list. */
  lemma CoupledMatches<H, L>(t: Table<H, L>)
    requires Separate(t) && t.Coupled()
    ensures forall i :: 0 <= i < |t.lru| ==> MatchedDown(t, i)
    ensures forall b, j :: 0 <= b < |t.slots| && 0 <= j < |t.slots[b]| ==> MatchedUp(t, b, j)
    ensures Total(t.slots) == |t.lru|
  {
    CoupledLinks(t);
    forall i | 0 <= i < |t.lru|
      ensures MatchedDown(t, i)
    {
      assert InBucket(t, i);
      var slot := t.slots[t.Slot(t.lru[i].ced.key)];
      var j :| 0 <= j < |slot| && slot[j] == t.Partner(t.lru[i]);
      assert Matched(t, t.lru[i], slot[j]);
    }
    forall b, j | 0 <= b < |t.slots| && 0 <= j < |t.slots[b]|
      ensures MatchedUp(t, b, j)
    {
      assert InLru(t, b, j);
      var i :| 0 <= i < |t.lru| && t.slots[b][j] == t.Partner(t.lru[i]);
      assert Matched(t, t.lru[i], t.slots[b][j]);
    }
    NoneLeftOver(t);
  }

  /** A coupled table within its capacity is consistent as soon as keys and buffers do not repeat. */
  lemma CoupledConsistent<H, L>(t: Table<H, L>, cap: nat)
    requires Separate(t) && t.Coupled() && |t.lru| <= cap
    ensures Consistent(t, cap) <==>
              forall i, k :: 0 <= i < k < |t.lru| ==>
                t.lru[i].ced.key != t.lru[k].ced.key && t.lru[i].ced.buf != t.lru[k].ced.buf
  {
    CoupledMatches(t);
  }

  /**
   A promotion into another element than the one just freed is what hash_check
   reports as an incorrect hash element, whatever else is in the cache.
   */
  lemma BrokenLinkIsReported<H, L>(t: Table<H, L>, key: nat, block: H, cap: nat)
    requires t.Coupled() && 0 < FirstKey(t.lru, key) < |t.lru|
    requires block != t.lru[FirstKey(t.lru, key)].self
    ensures !Quiet(Promote(t, FirstKey(t.lru, key), block), cap)
  {
    var t' := Promote(t, FirstKey(t.lru, key), block);
    LookupAgrees(t, key);
    assert t'.lru[0].ced.key == key && t'.lru[0].self == block;
    assert !QuietAt(t', 0);
  }

  /** Two entries with keys 1 and 2 in two buckets, the LRU elements 10 and 20, the bucket elements 11 and 21. */
  const TWO: Table<int, int> :=
    Table([Cell(Ced(0, 2, 5, 0), 20, 21, 100), Cell(Ced(1, 1, 6, 0), 10, 11, 101)],
          [[Cell(Ced(0, 2, 5, 0), 21, 20, 99)], [Cell(Ced(1, 1, 6, 0), 11, 10, 99)]], 99, [100, 101])

  lemma TwoIsCoupledAt(key: nat)
    ensures TWO.CoupledAt(key)
  {
    var a, b := TWO.lru[0], TWO.lru[1];
    assert TWO.lru == [a] + ([b] + []);
    assert TWO.slots[0] == [TWO.Partner(a)] + [] && TWO.slots[1] == [TWO.Partner(b)] + [];
    WithKeyCons(a, [b] + [], key);
    WithKeyCons(b, [], key);
    WithKeyCons(TWO.Partner(a), [], key);
    WithKeyCons(TWO.Partner(b), [], key);
  }

  lemma TwoIsCoupled()
    ensures TWO.Coupled()
  {
    forall key: nat
      ensures TWO.CoupledAt(key)
    {
      TwoIsCoupledAt(key);
    }
  }

  /** A concrete run: looking key 1 up moves its item to element 30, and its bucket item still points at element 10. */
  lemma FreshBlockBreaksLinks()
    ensures TWO.Coupled() && !Promote(TWO, 1, 30).Coupled() && Promote(TWO, 1, 10).Coupled()
    ensures !MutualLinks(Promote(TWO, 1, 30))
  {
    hide Table.Coupled;
    TwoIsCoupled();
    assert FirstKey(TWO.lru, 1) == 1;
    PromoteCoupled(TWO, 1, 30);
    PromoteCoupled(TWO, 1, 10);
    assert !InBucket(Promote(TWO, 1, 30), 0);
  }
}
