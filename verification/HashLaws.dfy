/** The hashed cache keeps its links, and is the simple LRU cache made fast. */
module HashLaws {
  import opened Zippers
  import opened Lru
  import opened HashModel

  // --- Handles

  lemma AtIs<H, L>(s: seq<Cell<H, L>>, j: nat)
    requires Selves(s) && j < |s|
    ensures At(s, s[j].self) == j && Holds(s, s[j].self)
  {
  }

  lemma AtCons<H, L>(c: Cell<H, L>, s: seq<Cell<H, L>>, h: H)
    ensures At([c] + s, h) == if c.self == h then 0 else At(s, h) + 1
  {
    var r, i, j := [c] + s, At([c] + s, h), At(s, h);
    assert r[0] == c && forall k :: 0 <= k < |s| ==> r[k + 1] == s[k];
    if c.self != h {
      assert i > 0;
      assert i < |r| ==> s[i - 1].self == h;
      assert j < |s| ==> r[j + 1].self == h;
    }
  }

  lemma AtRemoved<H, L>(s: seq<Cell<H, L>>, j: nat, h: H)
    requires Selves(s) && j < |s| && h != s[j].self
    ensures At(RemoveAt(s, j), h) == if At(s, h) <= j then At(s, h) else At(s, h) - 1
    ensures At(s, h) != j
  {
    var r, i := RemoveAt(s, j), At(s, h);
    assert forall m :: 0 <= m < |r| ==> r[m] == s[if m < j then m else m + 1];
    var i' := if i <= j then i else i - 1;
    if i < |s| {
      assert r[i'] == s[i];
      RemovedSelves(s, j);
      AtIs(r, i');
    } else {
      assert forall m :: 0 <= m < |s| ==> s[m].self != h;
    }
  }

  lemma RemovedSelves<H, L>(s: seq<Cell<H, L>>, j: nat)
    requires Selves(s) && j < |s|
    ensures Selves(RemoveAt(s, j))
  {
    var r := RemoveAt(s, j);
    assert forall m :: 0 <= m < |r| ==> r[m] == s[if m < j then m else m + 1];
  }

  // --- Insertion

  lemma InsertTidy<H, L>(t: Table<H, L>, c: Ced, ln: H, hn: H)
    requires t.Tidy() && !Holds(t.lru, ln) && !Holds(t.slots[t.Slot(c.key)], hn)
    ensures Insert(t, c, ln, hn).Tidy()
  {
    var t', b := Insert(t, c, ln, hn), t.Slot(c.key);
    NewFront(t.lru, t'.lru[0]);
    NewFront(t.slots[b], t'.slots[b][0]);
    hide Selves;
    hide Holds;
  }

  lemma NewFront<H, L>(s: seq<Cell<H, L>>, c: Cell<H, L>)
    requires Selves(s) && !Holds(s, c.self)
    ensures Selves([c] + s)
  {
  }

  /** An insertion shifts every mate in its bucket by one, and adds a pair in front. */
  lemma InsertMates<H, L>(t: Table<H, L>, c: Ced, ln: H, hn: H, i: nat)
    requires Joined(t) && !Holds(t.slots[t.Slot(c.key)], hn) && i <= |t.lru|
    ensures var t', b := Insert(t, c, ln, hn), t.Slot(c.key);
            && t'.Shape() && |t'.lru| == |t.lru| + 1
            && (i == 0 ==> Home(t', 0) == b && Mate(t', 0) == 0 && Mated(t', 0) && LeadsBack(t', 0))
            && (i > 0 ==>
                  && t'.lru[i] == t.lru[i - 1] && Home(t', i) == Home(t, i - 1)
                  && Mate(t', i) == Mate(t, i - 1) + (if Home(t, i - 1) == b then 1 else 0)
                  && Mated(t', i) && (LeadsBack(t', i) <==> LeadsBack(t, i - 1)))
  {
    var t', b := Insert(t, c, ln, hn), t.Slot(c.key);
    AtCons(t'.slots[b][0], t.slots[b], t'.lru[i].other);
    if i > 0 {
      assert Mated(t, i - 1);
    }
  }

  lemma JoinedInsert<H, L>(t: Table<H, L>, c: Ced, ln: H, hn: H)
    requires Joined(t) && !Holds(t.lru, ln) && !Holds(t.slots[t.Slot(c.key)], hn)
    ensures Joined(Insert(t, c, ln, hn))
  {
    hide Mate;
    hide Mated;
    hide Home;
    var t', b := Insert(t, c, ln, hn), t.Slot(c.key);
    InsertTidy(t, c, ln, hn);
    hide Table.Tidy;
    forall i | 0 <= i < |t'.lru|
      ensures Mated(t', i)
    {
      InsertMates(t, c, ln, hn, i);
    }
    forall i, k | 0 <= i < k < |t'.lru| && Home(t', i) == Home(t', k)
      ensures Mate(t', i) != Mate(t', k)
    {
      InsertMates(t, c, ln, hn, i);
      InsertMates(t, c, ln, hn, k);
    }
    forall d, j | 0 <= d < |t'.slots| && 0 <= j < |t'.slots[d]|
      ensures HasMate(t', d, j)
    {
      if d == b && j == 0 {
        InsertMates(t, c, ln, hn, 0);
        assert IsMate(t', 0, d, j);
      } else {
        var j' := if d == b then j - 1 else j;
        assert HasMate(t, d, j');
        var i: nat :| IsMate(t, i, d, j');
        InsertMates(t, c, ln, hn, i + 1);
        assert IsMate(t', i + 1, d, j);
      }
    }
  }

  lemma InOrderInsert<H, L>(t: Table<H, L>, c: Ced, ln: H, hn: H)
    requires Joined(t) && !Holds(t.slots[t.Slot(c.key)], hn)
    ensures Insert(t, c, ln, hn).Shape()
    ensures InOrder(t) ==> InOrder(Insert(t, c, ln, hn))
    ensures UpToDate(Insert(t, c, ln, hn)) <==> UpToDate(t)
  {
    hide Mate;
    hide LeadsBack;
    hide Home;
    var t' := Insert(t, c, ln, hn);
    forall i, k | 0 <= i < k < |t'.lru| && t'.lru[i].ced.key == t'.lru[k].ced.key && InOrder(t)
      ensures Mate(t', i) < Mate(t', k)
    {
      InsertMates(t, c, ln, hn, i);
      InsertMates(t, c, ln, hn, k);
    }
    forall i | 0 <= i < |t'.lru|
      ensures i == 0 ==> LeadsBack(t', 0)
      ensures i > 0 ==> (LeadsBack(t', i) <==> LeadsBack(t, i - 1))
    {
      InsertMates(t, c, ln, hn, i);
    }
    if UpToDate(t') {
      forall i | 0 <= i < |t.lru|
        ensures LeadsBack(t, i)
      {
        assert LeadsBack(t', i + 1);
      }
    }
  }

  // --- Eviction

  lemma CanEvictJoined<H, L>(t: Table<H, L>)
    requires Joined(t) && t.lru != []
    ensures CanEvict(t) && Evict(t).1 == t.lru[|t.lru| - 1].ced
    ensures Evict(t).0.Shape() && Evict(t).0.lru == t.lru[..|t.lru| - 1]
  {
    assert Mated(t, |t.lru| - 1);
  }

  lemma EvictTidy<H, L>(t: Table<H, L>)
    requires t.Tidy() && CanEvict(t)
    ensures Evict(t).0.Tidy()
  {
    var v := t.lru[|t.lru| - 1];
    var b := t.Slot(v.ced.key);
    RemovedStaysTidy(t.slots[b], At(t.slots[b], v.other), b, |t.slots|);
    hide InSlot;
    hide RemoveAt;
    hide At;
  }

  lemma RemovedStaysTidy<H, L>(s: seq<Cell<H, L>>, j: nat, b: nat, n: nat)
    requires j < |s| && n > 0 && Selves(s) && InSlot(s, b, n)
    ensures Selves(RemoveAt(s, j)) && InSlot(RemoveAt(s, j), b, n)
  {
    assert forall i :: 0 <= i < |s| - 1 ==> RemoveAt(s, j)[i] == s[if i < j then i else i + 1];
  }

  /** An eviction closes the gap that the victim's mate leaves in its bucket. */
  lemma EvictMates<H, L>(t: Table<H, L>, i: nat)
    requires Joined(t) && i < |t.lru| - 1
    ensures CanEvict(t)
    ensures var t', n := Evict(t).0, |t.lru| - 1;
            && t'.Shape() && i < |t'.lru| == n
            && t'.lru[i] == t.lru[i] && Home(t', i) == Home(t, i)
            && (Home(t, i) == Home(t, n) ==> Mate(t, i) != Mate(t, n))
            && Mate(t', i) == Mate(t, i) - (if Home(t, i) == Home(t, n) && Mate(t, i) > Mate(t, n) then 1 else 0)
            && Mated(t', i) && (LeadsBack(t', i) <==> LeadsBack(t, i))
  {
    CanEvictJoined(t);
    var n := |t.lru| - 1;
    assert Mated(t, i) && Mated(t, n);
    if Home(t, i) == Home(t, n) {
      assert Mate(t, i) != Mate(t, n);
      MateShifts(t.slots[Home(t, n)], t.lru[i].other, Mate(t, n));
    }
    hide RemoveAt;
    hide At;
    hide Holds;
  }

  lemma MateShifts<H, L>(s: seq<Cell<H, L>>, h: H, j: nat)
    requires Selves(s) && j < |s| && At(s, h) < |s| && At(s, h) != j
    ensures var r, m := RemoveAt(s, j), At(s, h);
            var k := if m > j then m - 1 else m;
            k < |r| && At(r, h) == k && r[k] == s[m]
  {
    AtIs(s, At(s, h));
    AtIs(s, j);
    AtRemoved(s, j, h);
  }

  lemma EvictKeepsMate<H, L>(t: Table<H, L>, d: nat, j: nat)
    requires Joined(t) && t.lru != [] && CanEvict(t) && d < |Evict(t).0.slots| && j < |Evict(t).0.slots[d]|
    ensures Evict(t).0.Shape() && HasMate(Evict(t).0, d, j)
  {
    hide Table.Tidy;
    hide Mated;
    var t', n := Evict(t).0, |t.lru| - 1;
    var j' := if d == Home(t, n) && j >= Mate(t, n) then j + 1 else j;
    assert HasMate(t, d, j');
    var i: nat :| IsMate(t, i, d, j');
    EvictMates(t, i);
    assert IsMate(t', i, d, j);
  }

  lemma JoinedEvict<H, L>(t: Table<H, L>)
    requires Joined(t) && t.lru != []
    ensures CanEvict(t) && Joined(Evict(t).0) && Evict(t).1 == t.lru[|t.lru| - 1].ced
  {
    CanEvictJoined(t);
    EvictTidy(t);
    hide Table.Tidy;
    hide Mate;
    hide Mated;
    hide Home;
    hide HasMate;
    hide Evict;
    var t', n := Evict(t).0, |t.lru| - 1;
    forall i | 0 <= i < n
      ensures Mated(t', i)
    {
      EvictMates(t, i);
    }
    forall i, k | 0 <= i < k < n && Home(t', i) == Home(t', k)
      ensures Mate(t', i) != Mate(t', k)
    {
      EvictMates(t, i);
      EvictMates(t, k);
    }
    forall d, j | 0 <= d < |t'.slots| && 0 <= j < |t'.slots[d]|
      ensures HasMate(t', d, j)
    {
      EvictKeepsMate(t, d, j);
    }
  }

  lemma InOrderEvict<H, L>(t: Table<H, L>)
    requires Joined(t) && t.lru != []
    ensures CanEvict(t) && Evict(t).0.Shape()
    ensures InOrder(t) ==> InOrder(Evict(t).0)
    ensures UpToDate(t) ==> UpToDate(Evict(t).0)
  {
    hide Mate;
    hide LeadsBack;
    hide Home;
    CanEvictJoined(t);
    var t', n := Evict(t).0, |t.lru| - 1;
    forall i, k | 0 <= i < k < n && t'.lru[i].ced.key == t'.lru[k].ced.key && InOrder(t)
      ensures Mate(t', i) < Mate(t', k)
    {
      EvictMates(t, i);
      EvictMates(t, k);
    }
    forall i | 0 <= i < n && UpToDate(t)
      ensures LeadsBack(t', i)
    {
      EvictMates(t, i);
    }
  }

  // --- Promotion

  /** Where the cell at k after a promotion from p was before. */
  function From(p: nat, k: nat): nat {
    if k == 0 then p else if k <= p then k - 1 else k
  }

  lemma PromoteMates<H, L>(t: Table<H, L>, p: nat, block: H, k: nat)
    requires Joined(t) && 0 < p < |t.lru| && k < |t.lru|
    ensures var t', m := Promote(t, p, block), From(p, k);
            && t'.Shape() && |t'.lru| == |t.lru| && t'.slots == t.slots && m < |t.lru|
            && t'.lru[k] == (if k == 0 then t.lru[p].(self := block) else t.lru[m])
            && Home(t', k) == Home(t, m) && Mate(t', k) == Mate(t, m) && Mated(t', k)
  {
    assert Mated(t, From(p, k));
    if k > 0 {
      BehindFront(t.lru, p, t.lru[p].(self := block), k);
    }
    hide RemoveAt;
    hide At;
  }

  lemma PromoteTidy<H, L>(t: Table<H, L>, p: nat, block: H)
    requires t.Tidy() && p < |t.lru| && (Holds(t.lru, block) ==> t.lru[p].self == block)
    ensures Promote(t, p, block).Tidy()
  {
    if p > 0 {
      SelvesPromoted(t.lru, p, block);
      hide Selves;
      hide RemoveAt;
      hide Holds;
      var s, r := t.lru, Promote(t, p, block).lru;
      forall k | 0 <= k < |r|
        ensures r[k].list == t.slotLists[t.Slot(r[k].ced.key)]
      {
        if k > 0 {
          BehindFront(s, p, r[0], k);
        }
      }
    }
  }

  lemma SelvesPromoted<H, L>(s: seq<Cell<H, L>>, p: nat, block: H)
    requires Selves(s) && p < |s| && (Holds(s, block) ==> s[p].self == block)
    ensures Selves([s[p].(self := block)] + RemoveAt(s, p))
  {
    var r := [s[p].(self := block)] + RemoveAt(s, p);
    assert forall k :: 1 <= k < |r| ==> r[k] == s[From(p, k)];
    if Holds(s, block) {
      AtIs(s, p);
    }
  }

  lemma PromoteKeepsMate<H, L>(t: Table<H, L>, p: nat, block: H, b: nat, j: nat)
    requires Joined(t) && 0 < p < |t.lru| && b < |t.slots| && j < |t.slots[b]|
    ensures Promote(t, p, block).Shape() && HasMate(Promote(t, p, block), b, j)
  {
    hide Mate;
    hide Mated;
    hide Home;
    assert HasMate(t, b, j);
    var m: nat :| IsMate(t, m, b, j);
    var k := if m == p then 0 else if m < p then m + 1 else m;
    PromoteMates(t, p, block, k);
    assert IsMate(Promote(t, p, block), k, b, j);
  }

  /** A promotion from anywhere, to any element that is not another item's, leaves every LRU item its mate. */
  lemma JoinedPromote<H, L>(t: Table<H, L>, p: nat, block: H)
    requires Joined(t) && p < |t.lru| && (Holds(t.lru, block) ==> t.lru[p].self == block)
    ensures Joined(Promote(t, p, block))
  {
    if p > 0 {
      var t' := Promote(t, p, block);
      PromoteTidy(t, p, block);
      PromoteMates(t, p, block, 0);
      hide Table.Tidy;
      hide Mate;
      hide Mated;
      hide Home;
      hide HasMate;
      hide Promote;
      forall k | 0 <= k < |t'.lru|
        ensures Mated(t', k)
      {
        PromoteMates(t, p, block, k);
      }
      forall i, k | 0 <= i < k < |t'.lru| && Home(t', i) == Home(t', k)
        ensures Mate(t', i) != Mate(t', k)
      {
        PromoteMates(t, p, block, i);
        PromoteMates(t, p, block, k);
      }
      forall b, j | 0 <= b < |t'.slots| && 0 <= j < |t'.slots[b]|
        ensures HasMate(t', b, j)
      {
        PromoteKeepsMate(t, p, block, b, j);
      }
    }
  }

  /** It keeps the order when the promoted cell is the first with its key. */
  lemma InOrderPromote<H, L>(t: Table<H, L>, p: nat, block: H)
    requires Joined(t) && InOrder(t) && p < |t.lru| && FirstKey(t.lru, t.lru[p].ced.key) == p
    ensures Promote(t, p, block).Shape() && InOrder(Promote(t, p, block))
  {
    hide Mate;
    hide Home;
    if p > 0 {
      var t' := Promote(t, p, block);
      forall i, k | 0 <= i < k < |t'.lru| && t'.lru[i].ced.key == t'.lru[k].ced.key
        ensures Mate(t', i) < Mate(t', k)
      {
        PromoteMates(t, p, block, i);
        PromoteMates(t, p, block, k);
      }
    }
  }

  /** Only the promoted item's handle can get out of date, and it does unless malloc gives the same element again. */
  lemma LeadsBackPromote<H, L>(t: Table<H, L>, p: nat, block: H, k: nat)
    requires Joined(t) && 0 < p < |t.lru| && k < |t.lru|
    ensures var t' := Promote(t, p, block);
            && t'.Shape() && |t'.lru| == |t.lru| && From(p, k) < |t.lru|
            && (k > 0 ==> (LeadsBack(t', k) <==> LeadsBack(t, From(p, k))))
            && (k == 0 && LeadsBack(t, p) ==> (LeadsBack(t', 0) <==> block == t.lru[p].self))
  {
    PromoteMates(t, p, block, k);
  }

  lemma UpToDatePromote<H, L>(t: Table<H, L>, p: nat, block: H)
    requires Joined(t) && p < |t.lru| && LeadsBack(t, p)
    ensures Promote(t, p, block).Shape()
    ensures UpToDate(Promote(t, p, block)) <==> UpToDate(t) && (p == 0 || block == t.lru[p].self)
  {
    if p > 0 {
      var t' := Promote(t, p, block);
      forall k | 0 <= k < |t.lru|
        ensures From(p, k) < |t.lru| && (k > 0 ==> (LeadsBack(t', k) <==> LeadsBack(t, From(p, k))))
        ensures k == 0 ==> (LeadsBack(t', 0) <==> block == t.lru[p].self)
      {
        LeadsBackPromote(t, p, block, k);
      }
      if UpToDate(t') {
        assert LeadsBack(t', 0);
        forall m | 0 <= m < |t.lru|
          ensures LeadsBack(t, m)
        {
          var k := if m == p then 0 else if m < p then m + 1 else m;
          assert From(p, k) == m && LeadsBack(t', k);
        }
      }
    }
  }

  // --- Lookup

  /** Searching the bucket and searching the LRU list find mates, or both find nothing. */
  lemma FirstFound<H, L>(t: Table<H, L>, key: nat)
    requires Joined(t) && InOrder(t)
    ensures var s := t.slots[t.Slot(key)];
            var j, i := FirstKey(s, key), FirstKey(t.lru, key);
            && (j < |s| <==> i < |t.lru|)
            && (i < |t.lru| ==> Mate(t, i) == j && s[j].ced == t.lru[i].ced)
  {
    var b := t.Slot(key);
    var s := t.slots[b];
    var j, i := FirstKey(s, key), FirstKey(t.lru, key);
    if i < |t.lru| {
      assert Mated(t, i);
      assert j <= Mate(t, i);
    }
    if j < |s| {
      assert HasMate(t, b, j);
      var k: nat :| IsMate(t, k, b, j);
      assert Mated(t, k);
      assert i <= k;
    }
  }

  // --- The cross links

  ghost predicate InBucket<H, L>(t: Table<H, L>, i: nat)
    requires t.Shape() && i < |t.lru|
  {
    t.Partner(t.lru[i]) in t.slots[t.Slot(t.lru[i].ced.key)]
  }

  ghost predicate InLru<H, L>(t: Table<H, L>, b: nat, j: nat)
    requires b < |t.slots| && j < |t.slots[b]|
  {
    exists i :: 0 <= i < |t.lru| && t.slots[b][j] == t.Partner(t.lru[i])
  }

  /** Every LRU item's handle leads to its partner, whose handle leads back; and no bucket item is left over. */
  ghost predicate MutualLinks<H, L>(t: Table<H, L>)
    requires t.Shape()
  {
    && (forall i :: 0 <= i < |t.lru| ==> InBucket(t, i))
    && (forall b, j :: 0 <= b < |t.slots| && 0 <= j < |t.slots[b]| ==> InLru(t, b, j))
  }

  lemma CoupledLinks<H, L>(t: Table<H, L>)
    requires t.Coupled()
    ensures MutualLinks(t)
  {
    forall i | 0 <= i < |t.lru|
      ensures InBucket(t, i)
    {
      var key := t.lru[i].ced.key;
      assert t.CoupledAt(key);
      WithKeyMembers(t.lru, key, t.lru[i]);
      var k :| 0 <= k < |WithKey(t.lru, key)| && WithKey(t.lru, key)[k] == t.lru[i];
      assert t.Partners(WithKey(t.lru, key))[k] == t.Partner(t.lru[i]);
      WithKeyMembers(t.slots[t.Slot(key)], key, t.Partner(t.lru[i]));
    }
    forall b, j | 0 <= b < |t.slots| && 0 <= j < |t.slots[b]|
      ensures InLru(t, b, j)
    {
      var c := t.slots[b][j];
      var key := c.ced.key;
      assert t.CoupledAt(key) && t.Slot(key) == b;
      WithKeyMembers(t.slots[b], key, c);
      var k :| 0 <= k < |WithKey(t.slots[b], key)| && WithKey(t.slots[b], key)[k] == c;
      var l := WithKey(t.lru, key)[k];
      WithKeyMembers(t.lru, key, l);
    }
  }

  // --- The whole invariant and its parts

  ghost predicate PartnerIsMate<H, L>(t: Table<H, L>, i: nat)
    requires t.Shape() && i < |t.lru|
  {
    Mate(t, i) < |t.slots[Home(t, i)]| && t.slots[Home(t, i)][Mate(t, i)] == t.Partner(t.lru[i])
  }

  lemma PartnerFound<H, L>(t: Table<H, L>, i: nat)
    requires t.Tidy() && i < |t.lru| && InBucket(t, i)
    ensures PartnerIsMate(t, i) && Mated(t, i) && LeadsBack(t, i)
  {
    var s := t.slots[Home(t, i)];
    var j :| 0 <= j < |s| && s[j] == t.Partner(t.lru[i]);
    AtIs(s, j);
  }

  lemma MateFound<H, L>(t: Table<H, L>, b: nat, j: nat)
    requires t.Tidy() && b < |t.slots| && j < |t.slots[b]| && InLru(t, b, j)
    ensures HasMate(t, b, j)
  {
    var i: nat :| i < |t.lru| && t.slots[b][j] == t.Partner(t.lru[i]);
    AtIs(t.slots[b], j);
    assert IsMate(t, i, b, j);
  }

  lemma PartnersApart<H, L>(t: Table<H, L>, i: nat, k: nat)
    requires t.Tidy() && i < k < |t.lru| && PartnerIsMate(t, i) && PartnerIsMate(t, k) && Home(t, i) == Home(t, k)
    ensures Mate(t, i) != Mate(t, k)
  {
  }

  lemma CoupledIsJoined<H, L>(t: Table<H, L>)
    requires t.Coupled()
    ensures Joined(t) && UpToDate(t)
    ensures forall i :: 0 <= i < |t.lru| ==> PartnerIsMate(t, i)
  {
    CoupledLinks(t);
    hide InBucket;
    hide InLru;
    hide HasMate;
    hide PartnerIsMate;
    hide Mated;
    hide LeadsBack;
    hide Mate;
    hide Home;
    forall i | 0 <= i < |t.lru|
      ensures Mated(t, i) && LeadsBack(t, i) && PartnerIsMate(t, i)
    {
      PartnerFound(t, i);
    }
    forall i, k | 0 <= i < k < |t.lru| && Home(t, i) == Home(t, k)
      ensures Mate(t, i) != Mate(t, k)
    {
      PartnersApart(t, i, k);
    }
    forall b, j | 0 <= b < |t.slots| && 0 <= j < |t.slots[b]|
      ensures HasMate(t, b, j)
    {
      MateFound(t, b, j);
    }
  }

  /** How many cells with the key stand in front of position i. */
  ghost function Rank<H, L>(s: seq<Cell<H, L>>, key: nat, i: nat): nat
    requires i <= |s|
  {
    |WithKey(s[..i], key)|
  }

  lemma RankAt<H, L>(s: seq<Cell<H, L>>, i: nat)
    requires i < |s|
    ensures var key := s[i].ced.key;
            Rank(s, key, i) < |WithKey(s, key)| && WithKey(s, key)[Rank(s, key, i)] == s[i]
  {
    WithKeySplit(s, i, s[i].ced.key);
  }

  lemma RankLess<H, L>(s: seq<Cell<H, L>>, i: nat, k: nat)
    requires i < k < |s| && s[i].ced.key == s[k].ced.key
    ensures Rank(s, s[i].ced.key, i) < Rank(s, s[i].ced.key, k)
  {
    WithKeySplit(s[..k], i, s[i].ced.key);
    assert s[..k][..i] == s[..i];
  }

  lemma {:induction false} WithKeySelves<H, L>(s: seq<Cell<H, L>>, key: nat)
    requires Selves(s)
    ensures Selves(WithKey(s, key))
  {
    if s != [] {
      WithKeySelves(s[1..], key);
      var w := WithKey(s[1..], key);
      forall i | 0 <= i < |w|
        ensures w[i].self != s[0].self
      {
        WithKeyMembers(s[1..], key, w[i]);
      }
    }
  }

  lemma CoupledInOrder<H, L>(t: Table<H, L>)
    requires t.Coupled()
    ensures InOrder(t)
  {
    CoupledIsJoined(t);
    forall i, k | 0 <= i < k < |t.lru| && t.lru[i].ced.key == t.lru[k].ced.key
      ensures Mate(t, i) < Mate(t, k)
    {
      PairInOrder(t, i, k);
    }
  }

  lemma PairInOrder<H, L>(t: Table<H, L>, i: nat, k: nat)
    requires t.Coupled() && Joined(t) && i < k < |t.lru| && t.lru[i].ced.key == t.lru[k].ced.key
    requires PartnerIsMate(t, i) && PartnerIsMate(t, k)
    ensures Mate(t, i) < Mate(t, k)
  {
    var key, b, m, n := t.lru[i].ced.key, Home(t, i), Mate(t, i), Mate(t, k);
    var s := t.slots[b];
    var w := WithKey(s, key);
    assert Mated(t, i) && Mated(t, k) && m != n;
    assert t.CoupledAt(key);
    WithKeySelves(s, key);
    RankLess(t.lru, i, k);
    RankAt(t.lru, i);
    RankAt(t.lru, k);
    RankAt(s, m);
    RankAt(s, n);
    assert w[Rank(t.lru, key, i)] == s[m] && w[Rank(t.lru, key, k)] == s[n];
    assert Rank(t.lru, key, i) == Rank(s, key, m) && Rank(t.lru, key, k) == Rank(s, key, n);
    if n < m {
      RankLess(s, n, m);
    }
  }

  /** Taking the parts together again, one eviction after the other. */
  lemma {:induction false} JoinedIsCoupled<H, L>(t: Table<H, L>)
    requires Joined(t) && InOrder(t) && UpToDate(t)
    ensures t.Coupled()
    decreases |t.lru|
  {
    if t.lru == [] {
      forall b | 0 <= b < |t.slots|
        ensures t.slots[b] == []
      {
        assert 0 < |t.slots[b]| ==> HasMate(t, b, 0);
      }
    } else {
      JoinedEvict(t);
      InOrderEvict(t);
      CanEvictJoined(t);
      JoinedIsCoupled(Evict(t).0);
      forall key: nat
        ensures t.CoupledAt(key)
      {
        CoupledBefore(t, key);
      }
    }
  }

  lemma CoupledBefore<H, L>(t: Table<H, L>, key: nat)
    requires Joined(t) && InOrder(t) && UpToDate(t) && t.lru != []
    requires CanEvict(t) && Evict(t).0.Shape() && Evict(t).0.CoupledAt(key)
    ensures t.CoupledAt(key)
  {
    var t', n := Evict(t).0, |t.lru| - 1;
    assert Mated(t, n) && LeadsBack(t, n);
    assert t'.Partners(WithKey(t'.lru, key)) == t.Partners(WithKey(t'.lru, key));
    if key == t.lru[n].ced.key {
      NoneBehind(t);
      LastOfKey(t.lru, n);
      LastOfKey(t.slots[Home(t, n)], Mate(t, n));
      assert RemoveAt(t.lru, n) == t.lru[..n];
      hide WithKey;
      hide RemoveAt;
      var front := WithKey(t.lru[..n], key);
      assert t.Partners(front + [t.lru[n]]) == t.Partners(front) + [t.Partner(t.lru[n])];
    } else {
      assert RemoveAt(t.lru, n) == t.lru[..n];
      WithKeyOther(t.lru, n, key);
      WithKeyOther(t.slots[Home(t, n)], Mate(t, n), key);
    }
  }

  /** Without the last cell of its key. */
  lemma LastOfKey<H, L>(s: seq<Cell<H, L>>, j: nat)
    requires j < |s| && WithKey(s[j + 1..], s[j].ced.key) == []
    ensures WithKey(s, s[j].ced.key) == WithKey(RemoveAt(s, j), s[j].ced.key) + [s[j]]
  {
    var key := s[j].ced.key;
    WithKeySplit(s, j, key);
    assert WithKey(s[..j], key) + [] == WithKey(s[..j], key);
    assert WithKey(s[..j], key) + [s[j]] + [] == WithKey(s[..j], key) + [s[j]];
  }

  /** The victim's mate is the last of its key in its bucket. */
  lemma NoneBehind<H, L>(t: Table<H, L>)
    requires Joined(t) && InOrder(t) && t.lru != []
    ensures var n := |t.lru| - 1;
            && Mate(t, n) < |t.slots[Home(t, n)]|
            && WithKey(t.slots[Home(t, n)][Mate(t, n) + 1..], t.lru[n].ced.key) == []
  {
    var n := |t.lru| - 1;
    var b, j := Home(t, n), Mate(t, n);
    assert Mated(t, n);
    var tail := t.slots[b][j + 1..];
    forall m | 0 <= m < |tail|
      ensures tail[m].ced.key != t.lru[n].ced.key
    {
      assert HasMate(t, b, j + 1 + m);
      var i: nat :| IsMate(t, i, b, j + 1 + m);
      assert Mated(t, i);
    }
    WithKeyNone(tail, t.lru[n].ced.key);
  }

  /** The invariant is these three: one-to-one, in order, and up to date. */
  lemma CoupledMeans<H, L>(t: Table<H, L>)
    ensures t.Coupled() <==> Joined(t) && InOrder(t) && UpToDate(t)
  {
    if t.Coupled() {
      CoupledIsJoined(t);
      CoupledInOrder(t);
    }
    if Joined(t) && InOrder(t) && UpToDate(t) {
      JoinedIsCoupled(t);
    }
  }

  // --- What each operation does to it

  lemma InsertCoupled<H, L>(t: Table<H, L>, c: Ced, ln: H, hn: H)
    requires t.Coupled() && !Holds(t.lru, ln) && !Holds(t.slots[t.Slot(c.key)], hn)
    ensures Insert(t, c, ln, hn).Coupled()
  {
    CoupledMeans(t);
    JoinedInsert(t, c, ln, hn);
    InOrderInsert(t, c, ln, hn);
    CoupledMeans(Insert(t, c, ln, hn));
  }

  /** The victim's handle leads to its partner, which is the last cell of its key in its bucket. */
  lemma VictimFound<H, L>(t: Table<H, L>)
    requires t.Coupled() && t.lru != []
    ensures var v := t.lru[|t.lru| - 1];
            var s := t.slots[t.Slot(v.ced.key)];
            && CanEvict(t)
            && s[At(s, v.other)] == t.Partner(v)
            && WithKey(s[At(s, v.other) + 1..], v.ced.key) == []
  {
    CoupledIsJoined(t);
    CoupledInOrder(t);
    NoneBehind(t);
    CanEvictJoined(t);
    assert PartnerIsMate(t, |t.lru| - 1);
  }

  lemma EvictCoupled<H, L>(t: Table<H, L>)
    requires t.Coupled() && t.lru != []
    ensures CanEvict(t) && Evict(t).0.Coupled() && Evict(t).1 == t.lru[|t.lru| - 1].ced
  {
    CoupledMeans(t);
    JoinedEvict(t);
    InOrderEvict(t);
    CoupledMeans(Evict(t).0);
  }

  /** A lookup by bucket and a lookup along the LRU list find partners. */
  lemma LookupAgrees<H, L>(t: Table<H, L>, key: nat)
    requires t.Coupled()
    ensures var s := t.slots[t.Slot(key)];
            var j, i := FirstKey(s, key), FirstKey(t.lru, key);
            && (j < |s| <==> i < |t.lru|)
            && (j < |s| ==> s[j] == t.Partner(t.lru[i]))
  {
    CoupledIsJoined(t);
    CoupledInOrder(t);
    FirstFound(t, key);
    var i := FirstKey(t.lru, key);
    assert i < |t.lru| ==> PartnerIsMate(t, i);
  }

  /**
   hash_get re-inserts the LRU item in an element it has just allocated and
   leaves the handle stored in the bucket item alone.  So the invariant survives
   a promotion exactly when the allocator hands back the element just freed.
   */
  lemma PromoteCoupled<H, L>(t: Table<H, L>, key: nat, block: H)
    requires t.Coupled() && FirstKey(t.lru, key) < |t.lru|
    requires Holds(t.lru, block) ==> t.lru[FirstKey(t.lru, key)].self == block
    ensures var i := FirstKey(t.lru, key);
            Promote(t, i, block).Coupled() <==> i == 0 || block == t.lru[i].self
  {
    var i := FirstKey(t.lru, key);
    CoupledMeans(t);
    JoinedPromote(t, i, block);
    InOrderPromote(t, i, block);
    assert LeadsBack(t, i);
    UpToDatePromote(t, i, block);
    CoupledMeans(Promote(t, i, block));
  }

  /** What hash_get leaves out: storing the LRU element in the bucket item. */
  ghost function Relink<H, L>(t: Table<H, L>, i: nat): (r: Table<H, L>)
    requires t.Shape() && i < |t.lru| && Mate(t, i) < |t.slots[Home(t, i)]|
    ensures r.lru == t.lru && |r.slots| == |t.slots| && r.slotLists == t.slotLists && r.lruList == t.lruList
  {
    var b, j := Home(t, i), Mate(t, i);
    t.(slots := t.slots[b := t.slots[b][j := t.slots[b][j].(other := t.lru[i].self)]])
  }

  /** Which changes no handle that an LRU item stores, and where none of them leads. */
  lemma RelinkMates<H, L>(t: Table<H, L>, i: nat, k: nat)
    requires Joined(t) && i < |t.lru| && k < |t.lru|
    ensures Mate(t, i) < |t.slots[Home(t, i)]|
    ensures var r := Relink(t, i);
            && Home(r, k) == Home(t, k) && Mate(r, k) == Mate(t, k) && Mated(r, k)
            && (LeadsBack(r, k) <==> k == i || LeadsBack(t, k))
  {
    assert Mated(t, i) && Mated(t, k);
    var b, j, r := Home(t, i), Mate(t, i), Relink(t, i);
    var s, s' := t.slots[Home(t, k)], r.slots[Home(t, k)];
    assert |s'| == |s| && forall m :: 0 <= m < |s| ==> s'[m].self == s[m].self && s'[m].ced == s[m].ced;
    assert Home(t, k) == b && Mate(t, k) == j ==> k == i;
  }

  lemma RelinkTidy<H, L>(t: Table<H, L>, i: nat)
    requires Joined(t) && i < |t.lru|
    ensures Mate(t, i) < |t.slots[Home(t, i)]| && Relink(t, i).Tidy()
    ensures forall d :: 0 <= d < |t.slots| ==> |Relink(t, i).slots[d]| == |t.slots[d]|
  {
    assert Mated(t, i);
    var r := Relink(t, i);
    assert forall d, m :: 0 <= d < |t.slots| && 0 <= m < |t.slots[d]| ==>
        r.slots[d][m].self == t.slots[d][m].self && r.slots[d][m].ced == t.slots[d][m].ced;
  }

  lemma RelinkJoined<H, L>(t: Table<H, L>, i: nat)
    requires Joined(t) && i < |t.lru|
    ensures Mate(t, i) < |t.slots[Home(t, i)]| && Joined(Relink(t, i))
  {
    RelinkMates(t, i, i);
    RelinkTidy(t, i);
    var r := Relink(t, i);
    hide Mate;
    hide Mated;
    hide Home;
    hide Relink;
    hide Table.Tidy;
    forall k | 0 <= k < |r.lru|
      ensures Mated(r, k)
    {
      RelinkMates(t, i, k);
    }
    forall k, m | 0 <= k < m < |r.lru| && Home(r, k) == Home(r, m)
      ensures Mate(r, k) != Mate(r, m)
    {
      RelinkMates(t, i, k);
      RelinkMates(t, i, m);
    }
    forall b, j | 0 <= b < |r.slots| && 0 <= j < |r.slots[b]|
      ensures HasMate(r, b, j)
    {
      assert HasMate(t, b, j);
      var k: nat :| IsMate(t, k, b, j);
      RelinkMates(t, i, k);
      assert IsMate(r, k, b, j);
    }
  }

  lemma RelinkUpToDate<H, L>(t: Table<H, L>, i: nat)
    requires Joined(t) && InOrder(t) && i < |t.lru| && forall k :: 0 <= k < |t.lru| && k != i ==> LeadsBack(t, k)
    ensures Mate(t, i) < |t.slots[Home(t, i)]| && InOrder(Relink(t, i)) && UpToDate(Relink(t, i))
  {
    RelinkMates(t, i, i);
    var r := Relink(t, i);
    hide Joined;
    hide Mate;
    hide Mated;
    hide Home;
    hide Relink;
    hide LeadsBack;
    forall k | 0 <= k < |r.lru|
      ensures LeadsBack(r, k) && Mate(r, k) == Mate(t, k)
    {
      RelinkMates(t, i, k);
    }
  }

  /** Only the promoted item's handle can be out of date afterwards. */
  lemma OthersLeadBack<H, L>(t: Table<H, L>, p: nat, block: H, k: nat)
    requires Joined(t) && UpToDate(t) && p < |t.lru| && 0 < k < |t.lru|
    ensures Promote(t, p, block).Shape() && |Promote(t, p, block).lru| == |t.lru|
    ensures LeadsBack(Promote(t, p, block), k)
  {
    if p > 0 {
      LeadsBackPromote(t, p, block, k);
    }
  }

  /** With that, a promotion to any element would keep the invariant. */
  lemma RelinkCoupled<H, L>(t: Table<H, L>, key: nat, block: H)
    requires t.Coupled() && FirstKey(t.lru, key) < |t.lru|
    requires Holds(t.lru, block) ==> t.lru[FirstKey(t.lru, key)].self == block
    ensures var t' := Promote(t, FirstKey(t.lru, key), block);
            && t'.Shape() && |t'.lru| == |t.lru| && Mate(t', 0) < |t'.slots[Home(t', 0)]|
            && Relink(t', 0).Coupled()
  {
    var p := FirstKey(t.lru, key);
    var t' := Promote(t, p, block);
    CoupledMeans(t);
    JoinedPromote(t, p, block);
    InOrderPromote(t, p, block);
    PromotedLength(t, p, block);
    hide *;
    forall k | 0 <= k < |t'.lru| && k != 0
      ensures LeadsBack(t', k)
    {
      OthersLeadBack(t, p, block, k);
    }
    RelinkJoined(t', 0);
    RelinkUpToDate(t', 0);
    CoupledMeans(Relink(t', 0));
  }

  lemma PromotedLength<H, L>(t: Table<H, L>, p: nat, block: H)
    requires p < |t.lru|
    ensures |Promote(t, p, block).lru| == |t.lru|
  {
  }

  /** If the re-insertion finds no memory the LRU item is lost, and its bucket item has no mate any more. */
  lemma LossUnjoins<H, L>(t: Table<H, L>, p: nat)
    requires Joined(t) && p < |t.lru|
    ensures !Joined(t.(lru := RemoveAt(t.lru, p)))
  {
    var t' := t.(lru := RemoveAt(t.lru, p));
    var b, j := Home(t, p), Mate(t, p);
    assert Mated(t, p);
    if t'.Shape() {
      forall k | 0 <= k < |t'.lru|
        ensures !IsMate(t', k, b, j)
      {
        var m := if k < p then k else k + 1;
        assert t'.lru[k] == t.lru[m];
        assert Home(t, m) == Home(t, p) ==> Mate(t, m) != Mate(t, p);
      }
      assert !HasMate(t', b, j);
    }
  }
}
