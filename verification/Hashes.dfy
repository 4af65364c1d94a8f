/**
 hash.c: a table of bucket lists and one LRU list whose items name each other's
 list elements.  The ghost table mirrors the heap; what the operations do to it
 is HashModel, and why that is an LRU cache is HashLaws.
 */
module Hashes {
  import opened Wrappers
  import opened Zippers
  import opened ZipperLaws
  import opened Lists
  import opened Lru
  import opened HashModel
  import opened HashLaws
  import opened HashChecks
  import opened HashRuns

  type Handle = Node?<HashItem>
  type Cells = seq<Cell<Handle, List<HashItem>>>
  type View = Table<Handle, List<HashItem>>

  class HashItem {
    const ced: Ced
    const list: List<HashItem>
    var element: Handle

    constructor (ced: Ced, list: List<HashItem>)
      ensures this.ced == ced && this.list == list
    {
      this.ced := ced;
      this.list := list;
      element := null;
    }
  }

  /** uint64_t counters. */
  datatype Stats = Stats(checks: nat, insertions: nat, hits: nat, misses: nat, evictions: nat)

  function U64(n: int): (r: nat)
    ensures r < 0x1_0000_0000_0000_0000
    ensures 0 <= n < 0x1_0000_0000_0000_0000 ==> r == n
  {
    n % 0x1_0000_0000_0000_0000
  }

  /** checks = hits + misses, and insertions - evictions = the number of items, counted modulo 2^64. */
  predicate Balanced(s: Stats, items: nat) {
    s.checks == U64(s.hits + s.misses) && U64(s.insertions - s.evictions) == items
  }

  function CountHit(s: Stats): Stats {
    s.(checks := U64(s.checks + 1), hits := U64(s.hits + 1))
  }

  function CountMiss(s: Stats): Stats {
    s.(checks := U64(s.checks + 1), misses := U64(s.misses + 1))
  }

  function CountPut(s: Stats, evicted: bool): Stats {
    s.(insertions := U64(s.insertions + 1), evictions := if evicted then U64(s.evictions + 1) else s.evictions)
  }

  lemma CountsAre(s: Stats)
    ensures CountHit(s) == s.(checks := U64(s.checks + 1), hits := U64(s.hits + 1))
    ensures CountMiss(s) == s.(checks := U64(s.checks + 1), misses := U64(s.misses + 1))
  {
  }

  lemma CountPutIs(s: Stats)
    ensures CountPut(s, true) == s.(insertions := U64(s.insertions + 1), evictions := U64(s.evictions + 1))
    ensures CountPut(s, false) == s.(insertions := U64(s.insertions + 1))
  {
  }

  lemma U64Absorbs(a: int, b: int)
    ensures U64(U64(a) + b) == U64(a + b)
  {
  }

  lemma U64Difference(a: int, b: int)
    ensures U64(U64(a) - U64(b)) == U64(a - b)
  {
  }

  lemma LookupsBalance(s: Stats, items: nat)
    requires Balanced(s, items)
    ensures Balanced(CountHit(s), items) && Balanced(CountMiss(s), items)
  {
    hide U64;
    U64Absorbs(s.hits + s.misses, 1);
    U64Absorbs(s.hits + 1, s.misses);
    U64Absorbs(s.misses + 1, s.hits);
  }

  lemma PutsBalance(s: Stats, items: nat)
    requires Balanced(s, items) && items < 0x1000_0000
    ensures Balanced(CountPut(s, true), items) && Balanced(CountPut(s, false), items + 1)
  {
    var n: int, e: int := s.insertions, s.evictions;
    hide U64;
    U64Absorbs(n - e, 1);
    U64Absorbs(n + 1, -e);
    U64Difference(n + 1, e + 1);
  }

  class Hash {
    const maxItems: nat
    var stats: Stats
    const lru: List<HashItem>
    const table: seq<List<HashItem>>
    ghost var view: View
    ghost var Repr: set<object>

    /** These elements with these items are these cells. */
    static ghost predicate CellsOf(ns: seq<Node<HashItem>>, its: seq<HashItem>, cells: Cells)
      reads its
    {
      && |cells| == |ns| == |its|
      && forall i {:trigger cells[i]} {:trigger its[i]} :: 0 <= i < |cells| ==>
           cells[i] == Cell(its[i].ced, ns[i], its[i].element, its[i].list)
    }

    static lemma CellsCons(n: Node<HashItem>, it: HashItem, ns: seq<Node<HashItem>>, its: seq<HashItem>, cells: Cells)
      requires CellsOf(ns, its, cells)
      ensures CellsOf([n] + ns, [it] + its, [Cell(it.ced, n, it.element, it.list)] + cells)
    {
    }

    static lemma CellsRemoved(ns: seq<Node<HashItem>>, its: seq<HashItem>, cells: Cells, i: nat)
      requires CellsOf(ns, its, cells) && i < |cells|
      ensures CellsOf(RemoveAt(ns, i), RemoveAt(its, i), RemoveAt(cells, i))
      ensures CellsOf(ns[..i], its[..i], cells[..i])
    {
    }

    /** The list holds exactly these cells, in this order, and no item twice. */
    static ghost predicate Mirrors(l: List<HashItem>, cells: Cells)
      reads l, l.owned, l.items
    {
      l.Valid() && CellsOf(l.nodes, l.items, cells) && Distinct(l.items)
    }

    static lemma MirrorsIs(l: List<HashItem>, cells: Cells)
      ensures Mirrors(l, cells) <==> l.Valid() && CellsOf(l.nodes, l.items, cells) && Distinct(l.items)
    {
    }

    static lemma CellAt(l: List<HashItem>, cells: Cells, i: nat)
      requires Mirrors(l, cells) && i < |cells|
      ensures |cells| == |l.nodes| == |l.items| && l.nodes[i] in l.owned
      ensures cells[i] == Cell(l.items[i].ced, l.nodes[i], l.items[i].element, l.items[i].list)
    {
    }

    /** All of the list's memory belongs to the cache. */
    static ghost predicate Within(l: List<HashItem>, repr: set<object>)
      reads l
    {
      && l in repr && l.owned <= repr
      && (forall it <- l.items :: it in repr)
    }

    /** The lists of this cache, no element in two of them, hold what the table says. */
    ghost predicate Shows(v: View, repr: set<object>)
      reads repr
    {
      && this !in repr
      && 0 < maxItems < 0x1000_0000
      && |table| == |v.slots| == maxItems
      && v.lruList == lru && v.slotLists == table
      && lru in repr && Within(lru, repr) && Mirrors(lru, v.lru)
      && (forall b {:trigger table[b]} :: 0 <= b < |table| ==>
            && table[b] in repr && Within(table[b], repr)
            && lru.id != table[b].id && lru.owned !! table[b].owned
            && Mirrors(table[b], v.slots[b]))
      && (forall b, c {:trigger table[b], table[c]} :: 0 <= b < c < |table| ==>
            table[b].id != table[c].id && table[b].owned !! table[c].owned)
    }

    ghost predicate WellFormed()
      reads this`view, this`Repr, Repr
    {
      Shows(view, Repr)
    }

    constructor (maxItems: nat, lru: List<HashItem>, table: seq<List<HashItem>>)
      requires 0 < maxItems < 0x1000_0000 && |table| == maxItems
      requires lru.Valid() && lru.nodes == [] && lru.owned == {}
      requires forall b {:trigger table[b]} :: 0 <= b < |table| ==>
                 table[b].Valid() && table[b].nodes == [] && table[b].owned == {} && lru.id != table[b].id
      requires forall b, c {:trigger table[b], table[c]} :: 0 <= b < c < |table| ==> table[b].id != table[c].id
      ensures WellFormed() && this.maxItems == maxItems && this.lru == lru && this.table == table
      ensures stats == Stats(0, 0, 0, 0, 0)
      ensures view == Table([], seq(|table|, _ => []), lru, table)
      ensures Repr == {lru} + set l | l in table
    {
      hide List.Valid;
      hide CellsOf;
      hide Mirrors;
      this.maxItems := maxItems;
      this.lru := lru;
      this.table := table;
      stats := Stats(0, 0, 0, 0, 0);
      view := Table([], seq(|table|, _ => []), lru, table);
      Repr := {lru} + set l | l in table;
      new;
      EmptyMirrors(lru);
      forall b {:trigger table[b]} | 0 <= b < |table|
        ensures Mirrors(table[b], []) && table[b].items == []
      {
        EmptyMirrors(table[b]);
      }
    }

    static lemma EmptyMirrors(l: List<HashItem>)
      requires l.Valid() && l.nodes == []
      ensures Mirrors(l, []) && l.items == []
    {
    }

    // --- What the methods below use of these definitions, which they hide

    lemma WellFormedIs()
      ensures WellFormed() <==> Shows(view, Repr)
    {
    }

    lemma TableIs()
      requires WellFormed()
      ensures |table| == |view.slots| == maxItems && 0 < maxItems < 0x1000_0000 && this !in Repr
      ensures view.Shape() && view.lruList == lru && view.slotLists == table
      ensures forall key: nat {:trigger view.Slot(key)} :: view.Slot(key) == key % maxItems
      ensures lru in Repr && forall b {:trigger table[b]} :: 0 <= b < |table| ==> table[b] in Repr && table[b] != lru
      ensures Mirrors(lru, view.lru)
      ensures forall b {:trigger table[b]} :: 0 <= b < |table| ==> Mirrors(table[b], view.slots[b])
    {
    }

    lemma Sizes()
      requires WellFormed()
      ensures lru.size == U32(|view.lru|) && |lru.nodes| == |view.lru|
      ensures forall b {:trigger table[b]} :: 0 <= b < |table| ==> table[b].size == U32(|view.slots[b]|)
    {
    }

    /** An element is in a list exactly when its handle is in the cells. */
    static lemma HoldsIsIn(l: List<HashItem>, cells: Cells, h: Handle)
      requires Mirrors(l, cells)
      ensures Holds(cells, h) <==> h in l.owned
      ensures Holds(cells, h) ==> h != null && h.id == l.id && At(cells, h) < |l.nodes| && l.nodes[At(cells, h)] == h
      ensures h in l.owned <==> h in l.nodes
    {
      l.OwnedIs();
      if h in l.nodes {
        var i :| 0 <= i < |l.nodes| && l.nodes[i] == h;
        assert cells[i].self == h;
      }
    }

    /** An element that is in use in no list of the cache. */
    lemma NotLiveIsOut(h: Handle)
      requires WellFormed() && !Live(view, h)
      ensures h !in lru.owned && h !in lru.nodes
      ensures forall b {:trigger table[b]} :: 0 <= b < |table| ==> h !in table[b].owned && h !in table[b].nodes
    {
      NotLive(view, h);
      HoldsIsIn(lru, view.lru, h);
      forall b {:trigger table[b]} | 0 <= b < |table|
        ensures h !in table[b].owned && h !in table[b].nodes
      {
        HoldsIsIn(table[b], view.slots[b], h);
      }
    }

    /** A live element carries the LRU list's id exactly when it is in that list. */
    lemma LiveMeans(h: Handle)
      requires WellFormed() && Live(view, h)
      ensures h != null && (h.id == lru.id <==> Holds(view.lru, h))
    {
      HoldsIsIn(lru, view.lru, h);
      if !Holds(view.lru, h) {
        var b :| 0 <= b < |view.slots| && Holds(view.slots[b], h);
        HoldsIsIn(table[b], view.slots[b], h);
      }
    }

    /** Distinct list ids keep the elements apart. */
    lemma ViewIsSeparate()
      requires WellFormed()
      ensures Separate(view)
    {
      forall i, j | 0 <= i < j < |view.lru|
        ensures view.lru[i].self != view.lru[j].self
      {
        assert lru.nodes[i] != lru.nodes[j];
      }
      forall b, i, j | 0 <= b < |view.slots| && 0 <= i < j < |view.slots[b]|
        ensures view.slots[b][i].self != view.slots[b][j].self
      {
        assert Mirrors(table[b], view.slots[b]);
        assert table[b].nodes[i] != table[b].nodes[j];
      }
      forall b, c, i, j | 0 <= b < c < |view.slots| && 0 <= i < |view.slots[b]| && 0 <= j < |view.slots[c]|
        ensures view.slots[b][i].self != view.slots[c][j].self
      {
        assert table[b].nodes[i].id == table[b].id != table[c].id == table[c].nodes[j].id;
      }
    }

    /** The rear LRU item goes, and its partner is removed through the handle it stores. */
    static method RemovePair(lru: List<HashItem>, bucket: List<HashItem>, ghost j: nat) returns (victim: Ced)
      requires lru.Valid() && bucket.Valid() && lru.id != bucket.id && lru.owned !! bucket.owned
      requires lru.nodes != [] && j < |bucket.nodes|
      requires lru.items[|lru.items| - 1].element == bucket.nodes[j]
      modifies lru, lru.owned, bucket, bucket.owned
      ensures lru.Valid() && lru.id == old(lru.id) && lru.owned <= old(lru.owned)
      ensures bucket.Valid() && bucket.id == old(bucket.id) && bucket.owned <= old(bucket.owned)
      ensures old(lru.at) == 0 ==> lru.at == 0
      ensures lru.nodes == old(lru.nodes[..|lru.nodes| - 1]) && lru.items == old(lru.items[..|lru.nodes| - 1])
      ensures bucket.nodes == RemoveAt(old(bucket.nodes), j) && bucket.items == RemoveAt(old(bucket.items), j)
      ensures victim == old(bucket.items[j].ced)
    {
      hide List.Valid;
      bucket.ElementAt(j);
      lru.ElementAt(|lru.nodes| - 1);
      var r := lru.RemoveRear();
      var lruItem := r.value;
      var found := bucket.SetCurr(lruItem.element);
      assert found;  // the exit(1) of hash_put is never reached
      bucket.ElementAt(j);
      r := bucket.RemoveCurr();
      victim := r.value.ced;
    }

    /** The same in terms of cells. */
    static method RemovePairCells(lru: List<HashItem>, bucket: List<HashItem>, ghost lruCells: Cells,
                                  ghost bucketCells: Cells, ghost j: nat) returns (victim: Ced)
      requires Mirrors(lru, lruCells) && Mirrors(bucket, bucketCells)
      requires lru.id != bucket.id && lru.owned !! bucket.owned
      requires lruCells != [] && j < |bucketCells| && lruCells[|lruCells| - 1].other == bucketCells[j].self
      modifies lru, lru.owned, bucket, bucket.owned
      ensures lru.id == old(lru.id) && lru.owned <= old(lru.owned)
      ensures bucket.id == old(bucket.id) && bucket.owned <= old(bucket.owned)
      ensures old(lru.at) == 0 ==> lru.at == 0
      ensures Mirrors(lru, lruCells[..|lruCells| - 1]) && Mirrors(bucket, RemoveAt(bucketCells, j))
      ensures (forall it <- lru.items :: it in old(lru.items)) && (forall it <- bucket.items :: it in old(bucket.items))
      ensures victim == bucketCells[j].ced
    {
      hide List.Valid;
      hide CellsOf;
      ghost var ns, its, ms, jts := lru.nodes, lru.items, bucket.nodes, bucket.items;
      CellAt(lru, lruCells, |lruCells| - 1);
      CellAt(bucket, bucketCells, j);
      CellsRemoved(ns, its, lruCells, |lruCells| - 1);
      CellsRemoved(ms, jts, bucketCells, j);
      RemoveAtMembers(jts, j);
      RemovedDistinct(jts, j);
      victim := RemovePair(lru, bucket, j);
    }

    method Unlink(index: nat, ghost j: nat) returns (victim: Ced)
      requires WellFormed() && view.lru != [] && index < |table| && j < |view.slots[index]|
      requires view.lru[|view.lru| - 1].other == view.slots[index][j].self
      modifies Repr
      ensures Shows(view.(lru := view.lru[..|view.lru| - 1],
                          slots := view.slots[index := RemoveAt(view.slots[index], j)]), Repr)
      ensures old(lru.at) == 0 ==> lru.at == 0
      ensures victim == view.slots[index][j].ced
    {
      hide Mirrors;
      victim := RemovePairCells(lru, table[index], view.lru, view.slots[index], j);
    }

    static lemma LastCell(l: List<HashItem>, cells: Cells)
      requires Mirrors(l, cells) && cells != []
      ensures l.rear != null && l.rear.data.ced == cells[|cells| - 1].ced
    {
    }

    method EvictRear() returns (victim: Ced)
      requires WellFormed() && Joined(view) && view.lru != []
      modifies Repr, this`view
      ensures WellFormed() && (old(lru.at) == 0 ==> lru.at == 0)
      ensures CanEvict(old(view)) && (view, victim) == Evict(old(view))
    {
      hide *;
      TableIs();
      LastCell(lru, view.lru);
      JoinedEvict(view);
      EvictIs(view);
      ghost var cell := view.lru[|view.lru| - 1];
      var index := lru.rear.data.ced.key % maxItems;
      victim := Unlink(index, At(view.slots[index], cell.other));
      view := Evict(view).0;
      WellFormedIs();
    }

    static lemma EvictIs(t: View)
      requires CanEvict(t)
      ensures var v := t.lru[|t.lru| - 1];
              var b := t.Slot(v.ced.key);
              && At(t.slots[b], v.other) < |t.slots[b]|
              && var j := At(t.slots[b], v.other);
                 t.slots[b][j].self == v.other &&
                 Evict(t) == (t.(lru := t.lru[..|t.lru| - 1], slots := t.slots[b := RemoveAt(t.slots[b], j)]),
                              t.slots[b][j].ced)
    {
    }

    /** The second insertion of hash_put; if it fails, the first is undone. */
    static method InsertSecond(lru: List<HashItem>, bucket: List<HashItem>, hashItem: HashItem, hashNode: Handle)
        returns (ok: bool)
      requires lru.Valid() && bucket.Valid() && lru.id != bucket.id && lru.owned !! bucket.owned
      requires lru.nodes != [] && lru.at == 0
      requires hashNode !in lru.owned && hashNode !in bucket.nodes
      modifies lru, lru.owned, bucket, bucket.owned, hashNode
      ensures lru.Valid() && lru.id == old(lru.id) && lru.owned <= old(lru.owned) && lru.at == 0
      ensures bucket.Valid() && bucket.id == old(bucket.id)
      ensures bucket.owned == if ok then old(bucket.owned) + {hashNode} else old(bucket.owned)
      ensures ok == (hashNode != null)
      ensures ok ==> lru.nodes == old(lru.nodes) && lru.items == old(lru.items)
      ensures ok ==> bucket.nodes == [hashNode] + old(bucket.nodes) && bucket.items == [hashItem] + old(bucket.items)
      ensures !ok ==> lru.nodes == old(lru.nodes)[1..] && lru.items == old(lru.items)[1..]
      ensures !ok ==> bucket.nodes == old(bucket.nodes) && bucket.items == old(bucket.items)
    {
      hide List.Valid;
      lru.CursorOk();
      var p := bucket.InsertFront(hashItem, hashNode);
      if p == None {
        ghost var ns, ds := lru.nodes, lru.items;
        var _ := lru.RemoveCurr();
        assert RemoveAt(ns, 0) == ns[1..] && RemoveAt(ds, 0) == ds[1..];
      }
      return p != None;
    }

    /** The insertions of hash_put and its cross links. */
    static method InsertPair(lru: List<HashItem>, bucket: List<HashItem>, lruItem: HashItem, hashItem: HashItem,
                             lruNode: Handle, hashNode: Handle) returns (ok: bool)
      requires lru.Valid() && bucket.Valid() && lru.id != bucket.id && lru.owned !! bucket.owned
      requires lruNode !in lru.nodes && lruNode !in bucket.owned && hashNode !in lru.owned && hashNode !in bucket.nodes
      requires (lruNode != null ==> lruNode != hashNode) && lruItem != hashItem
      modifies lru, lru.owned, bucket, bucket.owned, lruNode, hashNode, lruItem`element, hashItem`element
      ensures lru.Valid() && lru.id == old(lru.id) && lru.owned <= old(lru.owned) + Block(lruNode) && lru.at == 0
      ensures bucket.Valid() && bucket.id == old(bucket.id) && bucket.owned <= old(bucket.owned) + Block(hashNode)
      ensures ok == (lruNode != null && hashNode != null)
      ensures lru.nodes == if ok then [lruNode] + old(lru.nodes) else old(lru.nodes)
      ensures lru.items == if ok then [lruItem] + old(lru.items) else old(lru.items)
      ensures bucket.nodes == if ok then [hashNode] + old(bucket.nodes) else old(bucket.nodes)
      ensures bucket.items == if ok then [hashItem] + old(bucket.items) else old(bucket.items)
      ensures ok ==> lruItem.element == hashNode && hashItem.element == lruNode
      ensures !ok ==> lruItem.element == old(lruItem.element) && hashItem.element == old(hashItem.element)
    {
      hide *;
      BlockIs(lruNode);
      BlockIs(hashNode);
      var p := lru.InsertFront(lruItem, lruNode);
      if p == None {
        return false;
      }
      ok := InsertSecond(lru, bucket, hashItem, hashNode);
      if ok {
        lru.FrontAndRear();
        bucket.FrontAndRear();
        lruItem.element := bucket.front;
        hashItem.element := lru.front;
      }
    }

    /** The same in terms of cells. */
    static method InsertPairCells(lru: List<HashItem>, bucket: List<HashItem>, lruItem: HashItem, hashItem: HashItem,
                                  lruNode: Handle, hashNode: Handle, ghost lruCells: Cells, ghost bucketCells: Cells)
        returns (ok: bool)
      requires Mirrors(lru, lruCells) && Mirrors(bucket, bucketCells)
      requires lru.id != bucket.id && lru.owned !! bucket.owned
      requires lruNode !in lru.nodes && lruNode !in bucket.owned && hashNode !in lru.owned && hashNode !in bucket.nodes
      requires (lruNode != null ==> lruNode != hashNode) && lruItem != hashItem
      requires lruItem !in lru.items + bucket.items && hashItem !in lru.items + bucket.items
      modifies lru, lru.owned, bucket, bucket.owned, lruNode, hashNode, lruItem`element, hashItem`element
      ensures lru.id == old(lru.id) && bucket.id == old(bucket.id) && lru.at == 0
      ensures lru.owned <= old(lru.owned) + Block(lruNode) && bucket.owned <= old(bucket.owned) + Block(hashNode)
      ensures ok == (lruNode != null && hashNode != null)
      ensures lru.items == if ok then [lruItem] + old(lru.items) else old(lru.items)
      ensures bucket.items == if ok then [hashItem] + old(bucket.items) else old(bucket.items)
      ensures ok ==> Mirrors(lru, [Cell(lruItem.ced, lruNode, hashNode, lruItem.list)] + lruCells)
      ensures ok ==> Mirrors(bucket, [Cell(hashItem.ced, hashNode, lruNode, hashItem.list)] + bucketCells)
      ensures !ok ==> Mirrors(lru, lruCells) && Mirrors(bucket, bucketCells)
    {
      hide List.Valid;
      hide CellsOf;
      ghost var ns, its, ms, jts := lru.nodes, lru.items, bucket.nodes, bucket.items;
      ok := InsertPair(lru, bucket, lruItem, hashItem, lruNode, hashNode);
      assert CellsOf(ns, its, lruCells) && CellsOf(ms, jts, bucketCells);
      if ok {
        CellsCons(lruNode, lruItem, ns, its, lruCells);
        CellsCons(hashNode, hashItem, ms, jts, bucketCells);
        NewFrontDistinct(its, lruItem);
        NewFrontDistinct(jts, hashItem);
      }
    }

    /** The same on the lists of the cache. */
    method LinkCells(index: nat, lruItem: HashItem, hashItem: HashItem, lruNode: Handle, hashNode: Handle)
        returns (ok: bool)
      requires WellFormed() && index < |table| && table[index] == lruItem.list && hashItem.list == lru
      requires lruItem.ced == hashItem.ced && lruItem.ced.key % maxItems == index
      requires lruItem !in Repr && hashItem !in Repr && lruItem != hashItem
      requires lruNode !in lru.nodes && hashNode !in lru.owned && hashNode !in table[index].nodes
      requires forall b {:trigger table[b]} :: 0 <= b < |table| ==>
                 lruNode !in table[b].owned && hashNode !in table[b].owned
      requires lruNode != null ==> lruNode != hashNode
      modifies lru, lru.owned, table[index], table[index].owned, lruNode, hashNode, lruItem`element, hashItem`element
      ensures ok == (lruNode != null && hashNode != null) && lru.at == 0
      ensures lru.id == old(lru.id) && table[index].id == old(table[index].id)
      ensures lru.owned <= old(lru.owned) + Block(lruNode)
      ensures table[index].owned <= old(table[index].owned) + Block(hashNode)
      ensures forall it <- lru.items :: it in old(lru.items) || it == lruItem
      ensures forall it <- table[index].items :: it in old(table[index].items) || it == hashItem
      ensures var v := if ok then Insert(view, lruItem.ced, lruNode, hashNode) else view;
              && Mirrors(lru, v.lru) && Mirrors(table[index], v.slots[index])
              && v.lruList == lru && v.slotLists == table && |v.slots| == |table|
              && forall b :: 0 <= b < |table| && b != index ==> v.slots[b] == view.slots[b]
    {
      hide Mirrors;
      hide Block;
      ok := InsertPairCells(lru, table[index], lruItem, hashItem, lruNode, hashNode, view.lru, view.slots[index]);
    }

    method LinkItems(index: nat, lruItem: HashItem, hashItem: HashItem, lruNode: Handle, hashNode: Handle,
                     ghost more: set<object>) returns (ok: bool)
      requires WellFormed() && index < |table| && table[index] == lruItem.list && hashItem.list == lru
      requires lruItem.ced == hashItem.ced && lruItem.ced.key % maxItems == index
      requires lruItem !in Repr && hashItem !in Repr && lruItem != hashItem
      requires lruNode !in lru.nodes && hashNode !in lru.owned && hashNode !in table[index].nodes
      requires forall b {:trigger table[b]} :: 0 <= b < |table| ==>
                 lruNode !in table[b].owned && hashNode !in table[b].owned
      requires lruNode != null ==> lruNode != hashNode && lruNode in more
      requires hashNode != null ==> hashNode in more
      requires Repr <= more && lruItem in more && hashItem in more && this !in more
      modifies Repr, lruNode, hashNode, lruItem`element, hashItem`element
      ensures ok == (lruNode != null && hashNode != null) && lru.at == 0
      ensures Shows(if ok then Insert(view, lruItem.ced, lruNode, hashNode) else view, more)
    {
      hide Mirrors;
      hide Block;
      hide Insert;
      BlockIs(lruNode);
      BlockIs(hashNode);
      ok := LinkCells(index, lruItem, hashItem, lruNode, hashNode);
    }

    /** What holds between calls. */
    ghost predicate Valid()
      reads this, Repr
    {
      && WellFormed() && Joined(view)
      && |view.lru| <= maxItems && Balanced(stats, |view.lru|)
    }

    lemma ValidIs()
      ensures Valid() <==> WellFormed() && Joined(view) && |view.lru| <= maxItems && Balanced(stats, |view.lru|)
    {
    }

    ghost function Now(): State<Handle, List<HashItem>>
      reads this`view, lru
    {
      State(view, lru.at)
    }

    lemma NowIs()
      requires WellFormed()
      ensures Now() == State(view, lru.at) && Ready(Now())
    {
    }

    lemma Bounds()
      requires Valid()
      ensures |view.lru| <= maxItems < 0x1000_0000 && Total(view.slots) == |view.lru|
      ensures Sound(Now(), maxItems)
    {
      ViewIsSeparate();
      JoinedTotal(view);
    }

    /** The element malloc returned, if it returned one. */
    static ghost function Block(b: Handle): set<Node<HashItem>> {
      if b == null then {} else {b}
    }

    static lemma BlockIs(b: Handle)
      ensures Block(b) == if b == null then {} else {b}
    {
    }

    /** The blocks that malloc may hand out of the rest of the heap. */
    static ghost function Blocks(mem: Memory<Node<HashItem>>): set<Node<HashItem>> {
      (if mem.lruNode.Some? then {mem.lruNode.value} else {}) +
      (if mem.hashNode.Some? then {mem.hashNode.value} else {})
    }

    static function Pointer(n: Option<Node<HashItem>>): Handle {
      match n
      case None => null
      case Some(node) => node
    }

    static lemma BlocksAre(mem: Memory<Node<HashItem>>)
      ensures Blocks(mem) == Block(Pointer(mem.lruNode)) + Block(Pointer(mem.hashNode))
      ensures mem.lruNode.Some? <==> Pointer(mem.lruNode) != null
      ensures mem.hashNode.Some? <==> Pointer(mem.hashNode) != null
      ensures mem.lruNode.Some? ==> Pointer(mem.lruNode) == mem.lruNode.value
      ensures mem.hashNode.Some? ==> Pointer(mem.hashNode) == mem.hashNode.value
    {
    }

    /** hash_put up to the eviction: all or nothing. */
    method Enter(ced: Ced, mem: Memory<Node<HashItem>>) returns (ok: bool)
      requires WellFormed() && Ready(Now()) && Permits(Now(), PutCall(ced, mem))
      modifies this`Repr, this`view, Repr, Blocks(mem)
      ensures WellFormed() && fresh(Repr - old(Repr) - Blocks(mem))
      ensures ok == mem.Enough() && old(view).Shape()
      ensures lru.at == if mem.Items() then 0 else old(lru.at)
      ensures view == if ok then Insert(old(view), ced, mem.lruNode.value, mem.hashNode.value) else old(view)
    {
      hide *;
      TableIs();
      NowIs();
      mem.EnoughIs();
      BlocksAre(mem);
      if !mem.lruItem || !mem.hashItem {
        return false;
      }
      var index := ced.key % maxItems;
      var lruItem := new HashItem(ced, table[index]);
      var hashItem := new HashItem(ced, lru);
      var ln, hn := Pointer(mem.lruNode), Pointer(mem.hashNode);
      PutPermitted(Now(), ced, mem);
      BlockIsOut(mem.lruNode);
      BlockIsOut(mem.hashNode);
      ghost var more := Repr + {lruItem, hashItem} + Blocks(mem);
      BlockIs(ln);
      BlockIs(hn);
      ok := LinkItems(index, lruItem, hashItem, ln, hn, more);
      if ok {
        view := Insert(view, ced, ln, hn);
      }
      Repr := more;
      WellFormedIs();
    }

    static lemma PutPermitted(s: State<Handle, List<HashItem>>, ced: Ced, mem: Memory<Node<HashItem>>)
      requires Ready(s) && Permits(s, PutCall(ced, mem))
      ensures mem.lruNode.Some? ==> !Live(s.t, mem.lruNode.value)
      ensures mem.hashNode.Some? ==> !Live(s.t, mem.hashNode.value)
      ensures mem.lruNode.Some? && mem.hashNode.Some? ==> mem.lruNode.value != mem.hashNode.value
    {
    }

    lemma BlockIsOut(n: Option<Node<HashItem>>)
      requires WellFormed() && (n.Some? ==> !Live(view, n.value))
      ensures var h := Pointer(n);
              && h !in lru.owned && h !in lru.nodes
              && forall b {:trigger table[b]} :: 0 <= b < |table| ==> h !in table[b].owned && h !in table[b].nodes
    {
      if n.Some? {
        NotLiveIsOut(n.value);
      }
    }

    /**
     hash_put.  Whatever allocation fails, a failing call leaves the entries as they
     were; a succeeding one inserts, and evicts through the victim's handle.
     */
    method Put(ced: Option<Ced>, mem: Memory<Node<HashItem>>) returns (rc: int, evicted: Option<Ced>)
      requires Valid() && Ready(Now()) && (ced.Some? ==> Permits(Now(), PutCall(ced.value, mem)))
      modifies this, Repr, Blocks(mem)
      ensures Valid() && fresh(Repr - old(Repr) - Blocks(mem)) && old(Ready(Now()))
      ensures rc == if ced.Some? && mem.Enough() then 0 else -1
      ensures rc == -1 ==> view == old(view) && stats == old(stats) && evicted == None
      ensures rc == 0 ==> stats == CountPut(old(stats), evicted.Some?)
      ensures ced == None ==> Now() == old(Now())
      ensures ced.Some? ==>
                PutStep(old(Now()), ced.value, mem, maxItems) == (Now(), if rc == 0 then Entered(evicted) else Refused)
    {
      hide *;
      ValidIs();
      TableIs();
      NowIs();
      Bounds();
      mem.EnoughIs();
      if ced == None {
        return -1, None;
      }
      PutsBalance(stats, |view.lru|);
      CountPutIs(stats);
      PutSteps(Now(), ced.value, mem, maxItems);
      var ok := Enter(ced.value, mem);
      NowIs();
      if !ok {
        ValidIs();
        return -1, None;
      }
      Sizes();
      if lru.size > maxItems {
        var victim := EvictRear();
        stats := stats.(evictions := U64(stats.evictions + 1));
        evicted := Some(victim);
        NowIs();
      } else {
        evicted := None;
      }
      stats := stats.(insertions := U64(stats.insertions + 1));
      rc := 0;
      ValidIs();
    }

    /** The cases of HashRuns.PutStep. */
    static lemma PutSteps(s: State<Handle, List<HashItem>>, ced: Ced, mem: Memory<Node<HashItem>>, cap: nat)
      requires Sound(s, cap) && cap > 0 && Permits(s, PutCall(ced, mem))
      ensures !mem.Items() ==> PutStep(s, ced, mem, cap) == (s, Refused)
      ensures mem.Items() && !mem.Enough() ==> PutStep(s, ced, mem, cap) == (State(s.t, 0), Refused)
      ensures mem.Enough() ==>
                var t := Insert(s.t, ced, mem.lruNode.value, mem.hashNode.value);
                && Joined(t) && |t.lru| == |s.t.lru| + 1 && CanEvict(t)
                && Joined(Evict(t).0) && |Evict(t).0.lru| == |s.t.lru|
                && PutStep(s, ced, mem, cap) ==
                   if |t.lru| > cap then (State(Evict(t).0, 0), Entered(Some(Evict(t).1)))
                   else (State(t, 0), Entered(None))
    {
      hide Joined;
      hide InOrder;
      hide UpToDate;
      hide Live;
      hide Insert;
      hide Evict;
      hide CanEvict;
      if mem.Enough() {
        InsertMeans(s.t, ced, mem.lruNode.value, mem.hashNode.value);
        EvictMeans(Insert(s.t, ced, mem.lruNode.value, mem.hashNode.value));
      }
    }

    /** hash_keymatch: the traversal goes on while the keys differ. */
    static function KeyDiffers(key: nat): HashItem -> bool {
      (it: HashItem) => it.ced.key != key
    }

    static lemma SearchIsFirstKey(ns: seq<Node<HashItem>>, its: seq<HashItem>, cells: Cells, key: nat)
      requires CellsOf(ns, its, cells)
      ensures FirstMatch(its, KeyDiffers(key)) == FirstKey(cells, key)
    {
      var ks, f, g := Keys(Ceds(cells)), KeyDiffers(key), (k: nat) => k != key;
      assert forall j :: 0 <= j < |its| ==> f(its[j]) == g(ks[j]);
      SameMatch(its, f, ks, g);
    }

    /** The bucket search of hash_get: only that bucket's cursor moves. */
    method Find(ghost index: nat, bucket: List<HashItem>, key: nat) returns (rc: Outcome)
      requires WellFormed() && index < |table| && bucket == table[index]
      modifies bucket`curr, bucket`at
      ensures WellFormed()
      ensures var k := FirstKey(view.slots[index], key);
              && (rc == Ok <==> k < |view.slots[index]|)
              && (rc == Ok ==> bucket.at == k)
    {
      hide List.Valid;
      SearchIsFirstKey(bucket.nodes, bucket.items, view.slots[index], key);
      hide CellsOf;
      rc := bucket.Search(KeyDiffers(key));
    }

    /** The cells of the LRU list after a promotion from i. */
    static ghost function Reinserted(cells: Cells, i: nat, malloc: Malloc<Handle>): Cells
      requires i < |cells|
    {
      match malloc
      case Fails => RemoveAt(cells, i)
      case Recycles => [cells[i]] + RemoveAt(cells, i)
      case Gives(block) => [cells[i].(self := block)] + RemoveAt(cells, i)
    }

    static lemma ReinsertedIs(t: View, i: nat, malloc: Malloc<Handle>)
      requires 0 < i < |t.lru|
      ensures PromoteBy(t, i, malloc) == t.(lru := Reinserted(t.lru, i, malloc))
    {
      assert t.lru[i].(self := t.lru[i].self) == t.lru[i];
    }

    /** The LRU list alone through a promotion. */
    static method PromoteCells(lru: List<HashItem>, malloc: Malloc<Node<HashItem>>, ghost cells: Cells)
      requires Mirrors(lru, cells) && 0 < lru.at && (malloc.Gives? ==> malloc.block !in lru.nodes)
      modifies lru, lru.owned, List.Given(malloc)
      ensures lru.id == old(lru.id) && lru.owned <= old(lru.owned) + List.Given(malloc) && lru.at == 0
      ensures old(lru.at) < |cells| && Mirrors(lru, Reinserted(cells, old(lru.at), malloc))
      ensures forall it <- lru.items :: it in old(lru.items)
    {
      hide List.Valid;
      hide CellsOf;
      hide RemoveAt;
      hide U32;
      CellCount(lru, cells);
      lru.CurrIsAt();
      ghost var i := lru.at;
      CellAt(lru, cells, i);
      ghost var ns, its := lru.nodes, lru.items;
      var lruItem, block := lru.Promote(malloc);
      CellsRemoved(ns, its, cells, i);
      RemoveAtMembers(its, i);
      ToFrontStaysDistinct(its, i);
      if block != null {
        CellsCons(block, lruItem, RemoveAt(ns, i), RemoveAt(its, i), RemoveAt(cells, i));
      }
    }

    static lemma ToFrontStaysDistinct(its: seq<HashItem>, i: nat)
      requires Distinct(its) && i < |its|
      ensures Distinct(RemoveAt(its, i)) && Distinct([its[i]] + RemoveAt(its, i))
    {
      RemovedDistinct(its, i);
      RemovedIsGone(its, i);
      NewFrontDistinct(RemoveAt(its, i), its[i]);
    }

    method PromoteCurr(malloc: Malloc<Node<HashItem>>)
      requires WellFormed() && 0 < lru.at < |view.lru| && (malloc.Gives? ==> malloc.block !in lru.nodes)
      requires forall b {:trigger table[b]} :: 0 <= b < |table| ==> List.Given(malloc) !! table[b].owned
      modifies Repr, List.Given(malloc)
      ensures lru.at == 0
      ensures Shows(view.(lru := Reinserted(view.lru, old(lru.at), malloc)), Repr + List.Given(malloc))
    {
      hide Mirrors;
      hide Reinserted;
      hide List.Given;
      PromoteCells(lru, malloc, view.lru);
    }

    /** list_setcurr on the LRU list, and the test whether the current item is in front. */
    method Seek(element: Node<HashItem>) returns (behind: bool)
      requires WellFormed() && view.lru != [] && (element.id == lru.id ==> Holds(view.lru, element))
      modifies lru`curr, lru`at
      ensures WellFormed()
      ensures lru.at == if Holds(view.lru, element) then At(view.lru, element) else old(lru.at)
      ensures behind <==> lru.at > 0
    {
      hide List.Valid;
      hide CellsOf;
      hide Distinct;
      hide Holds;
      behind := SeekCells(lru, view.lru, element);
    }

    static method SeekCells(lru: List<HashItem>, ghost cells: Cells, element: Node<HashItem>) returns (behind: bool)
      requires Mirrors(lru, cells) && cells != [] && (element.id == lru.id ==> Holds(cells, element))
      modifies lru`curr, lru`at
      ensures Mirrors(lru, cells)
      ensures lru.at == if Holds(cells, element) then At(cells, element) else old(lru.at)
      ensures behind <==> lru.at > 0
    {
      hide List.Valid;
      hide CellsOf;
      hide Holds;
      HoldsIsIn(lru, cells, element);
      CellCount(lru, cells);
      var ok := lru.SetCurr(element);
      if ok {
        lru.ElementAt(At(cells, element));
      }
      lru.CurrIsFront();
      behind := lru.curr.data != lru.front.data;
    }

    static lemma CurrCell(l: List<HashItem>, cells: Cells)
      requires Mirrors(l, cells) && l.at < |cells|
      ensures l.at < |l.nodes| && l.curr == l.nodes[l.at] && l.curr != null && l.curr == cells[l.at].self
      ensures var it := l.curr.data;
              cells[l.at] == Cell(it.ced, l.curr, it.element, it.list)
    {
    }

    /** A handle that list_setcurr can be given: an element of the LRU list, or one with another list's id. */
    ghost predicate Usable(h: Handle)
      reads this`view, lru`id, (if h == null then {} else {h})`id
    {
      h != null && (h.id == lru.id ==> Holds(view.lru, h))
    }

    lemma UsableIs(h: Handle)
      ensures Usable(h) <==> h != null && (h.id == lru.id ==> Holds(view.lru, h))
    {
    }

    /** hash_get with the bucket's cursor on the item found. */
    method Hit(bucket: List<HashItem>, ghost key: nat, malloc: Malloc<Node<HashItem>>) returns (ced: Ced)
      requires WellFormed() && view.Shape() && bucket == table[view.Slot(key)] && view.lru != [] && Finds(view, key)
      requires bucket.at == FirstKey(view.slots[view.Slot(key)], key)
      requires Usable(Stored(view, key))
      requires malloc.Gives? ==> !Live(view, malloc.block)
      modifies this`Repr, this`view, Repr, List.Given(malloc)
      ensures WellFormed() && fresh(Repr - old(Repr) - List.Given(malloc)) && old(Ready(Now()))
      ensures (view, lru.at, Some(ced)) == Fetch(old(view), old(lru.at), key, malloc)
    {
      hide *;
      TableIs();
      NowIs();
      FoundAre(view, lru.at, key, malloc);
      CurrCell(bucket, view.slots[view.Slot(key)]);
      var hashItem := bucket.curr.data;
      UsableIs(hashItem.element);
      GivenIs(malloc);
      if malloc.Gives? {
        NotLiveIsOut(malloc.block);
      }
      var behind := Seek(hashItem.element);
      NowIs();
      if behind {
        if malloc.Gives? {
          NotLiveIsOut(malloc.block);
        }
        ReinsertedIs(view, lru.at, malloc);
        ghost var p := lru.at;
        PromoteCurr(malloc);
        view := PromoteBy(view, p, malloc);
        Repr := Repr + List.Given(malloc);
        WellFormedIs();
      }
      ced := hashItem.ced;
    }

    static lemma GivenIs(malloc: Malloc<Node<HashItem>>)
      ensures List.Given(malloc) == if malloc.Gives? then {malloc.block} else {}
    {
    }

    /** The cases of HashModel.Fetch, for a lookup that finds something and for one that does not. */
    static lemma FoundAre(t: View, at: nat, key: nat, malloc: Malloc<Handle>)
      requires t.Shape() && (t.lru != [] ==> at < |t.lru|)
      ensures Finds(t, key) <==> FirstKey(t.slots[t.Slot(key)], key) < |t.slots[t.Slot(key)]|
      ensures t.lru == [] || !Finds(t, key) ==> Fetch(t, at, key, malloc) == (t, at, None)
      ensures t.lru != [] && Finds(t, key) ==>
                var cell := t.slots[t.Slot(key)][FirstKey(t.slots[t.Slot(key)], key)];
                && Stored(t, key) == cell.other
                && Aim(t, at, key) == (if Holds(t.lru, cell.other) then At(t.lru, cell.other) else at)
                && Aim(t, at, key) < |t.lru|
                && Fetch(t, at, key, malloc) == (PromoteBy(t, Aim(t, at, key), malloc), 0, Some(cell.ced))
                && PromoteBy(t, 0, malloc) == t
    {
    }

    lemma BucketBound(b: nat)
      requires WellFormed() && Joined(view) && b < |table|
      ensures |view.slots[b]| <= |view.lru|
    {
      ViewIsSeparate();
      JoinedTotal(view);
      TotalBound(view.slots, b);
    }

    /**
     hash_get, for every handle that is a live element of some list: the entry found
     in the bucket is returned, and the LRU item whose element the handle is comes to
     the front, whoever's it is.  Only a promotion without memory breaks the cache.
     */
    method Get(key: nat, malloc: Malloc<Node<HashItem>>) returns (ced: Option<Ced>)
      requires Valid() && view.Shape() && (Finds(view, key) ==> Usable(Stored(view, key)))
      requires malloc.Gives? ==> !Live(view, malloc.block)
      modifies this, Repr, List.Given(malloc)
      ensures WellFormed() && fresh(Repr - old(Repr) - List.Given(malloc)) && old(Ready(Now()))
      ensures (view, lru.at, ced) == Fetch(old(view), old(lru.at), key, malloc)
      ensures Valid() <==> malloc != Fails || !Finds(old(view), key) || Aim(old(view), old(lru.at), key) == 0
      ensures stats == if ced.Some? then CountHit(old(stats)) else CountMiss(old(stats))
    {
      hide *;
      ghost var t, at, s := view, lru.at, stats;
      ValidIs();
      TableIs();
      NowIs();
      Sizes();
      LookupsBalance(s, |t.lru|);
      CountsAre(s);
      FoundAre(t, at, key, malloc);
      GetKept(t, at, key, malloc);
      stats := stats.(checks := U64(stats.checks + 1));
      var index := key % maxItems;
      BucketBound(index);
      if lru.size == 0 {
        stats := stats.(misses := U64(stats.misses + 1));
        ValidIs();
        return None;
      }
      if table[index].size == 0 {
        stats := stats.(misses := U64(stats.misses + 1));
        ValidIs();
        return None;
      }
      ced := Serve(index, key, malloc);
      if ced.Some? {
        stats := stats.(hits := U64(stats.hits + 1));
      } else {
        stats := stats.(misses := U64(stats.misses + 1));
      }
      ValidIs();
    }

    /** What hash_get does with the mutex held, but for the counters. */
    method Serve(index: nat, key: nat, malloc: Malloc<Node<HashItem>>) returns (ced: Option<Ced>)
      requires WellFormed() && view.Shape() && view.lru != [] && index == view.Slot(key)
      requires Finds(view, key) ==> Usable(Stored(view, key))
      requires malloc.Gives? ==> !Live(view, malloc.block)
      modifies this`view, this`Repr, Repr, List.Given(malloc)
      ensures WellFormed() && fresh(Repr - old(Repr) - List.Given(malloc)) && old(Ready(Now()))
      ensures (view, lru.at, ced) == Fetch(old(view), old(lru.at), key, malloc)
    {
      hide *;
      TableIs();
      NowIs();
      FoundAre(view, lru.at, key, malloc);
      ghost var h := if Finds(view, key) then Stored(view, key) else null;
      UsableIs(h);
      var rc := Find(index, table[index], key);
      NowIs();
      UsableIs(h);
      if rc == Ok {
        var c := Hit(table[index], key, malloc);
        ced := Some(c);
      } else {
        ced := None;
      }
    }

    /** Which lookups keep the LRU items and the bucket items one to one. */
    static lemma GetKept(t: View, at: nat, key: nat, malloc: Malloc<Handle>)
      requires Joined(t) && (t.lru != [] ==> at < |t.lru|) && (malloc.Gives? ==> !Live(t, malloc.block))
      ensures Finds(t, key) ==> t.lru != []
      ensures var r := Fetch(t, at, key, malloc).0;
              && (Joined(r) <==> malloc != Fails || !Finds(t, key) || Aim(t, at, key) == 0)
              && (Joined(r) ==> |r.lru| == |t.lru|)
    {
      if Finds(t, key) {
        AimInside(State(t, at), key);
        var p := Aim(t, at, key);
        if malloc == Fails && p > 0 {
          LossUnjoins(t, p);
        } else {
          if malloc.Gives? {
            NotLive(t, malloc.block);
          }
          var block := PromoteByIs(t, p, malloc);
          JoinedPromote(t, p, block);
        }
      }
    }

    // --- hash_check

    /** hash_datamatch */
    static function BufDiffers(buf: nat): HashItem -> bool {
      (it: HashItem) => it.ced.buf != buf
    }

    /** A traversal that leaves the cursor where it is. */
    static method Probe(l: List<HashItem>, goOn: HashItem -> bool, onward: bool) returns (hit: bool)
      requires l.Valid()
      modifies l`curr, l`at
      ensures l.Valid() && l.at == old(l.at)
      ensures hit <==> SaysNo(l.items, if onward then l.at else 0, goOn)
    {
      hide *;
      l.CursorOk();
      SearchKeepingCursor(l.items, l.at, goOn);
      var rc, visited := l.Traverse(goOn, if onward then FromCurr() else FromFront());
      hit := rc == Ok;
    }

    /** How hash_check looks for a repetition: once from the front, and once from the cursor on. */
    static method CountMatches(l: List<HashItem>, goOn: HashItem -> bool, last: bool) returns (n: nat)
      requires l.Valid()
      modifies l`curr, l`at
      ensures l.Valid() && l.at == old(l.at)
      ensures n == (if SaysNo(l.items, 0, goOn) then 1 else 0) + (if !last && SaysNo(l.items, l.at, goOn) then 1 else 0)
    {
      hide *;
      n := 0;
      var hit := Probe(l, goOn, false);
      if hit {
        n := n + 1;
      }
      if !last {
        hit := Probe(l, goOn, true);
        if hit {
          n := n + 1;
        }
      }
    }

    /** What the two counts tell about one item. */
    static lemma RepetitionTold(l: List<HashItem>, cells: Cells, i: nat)
      requires Mirrors(l, cells) && i < |cells|
      ensures var f := KeyDiffers(cells[i].ced.key);
              SaysNo(l.items, 0, f) && (SaysNo(l.items, i + 1, f) <==> KeyAgain(cells, i))
      ensures var f := BufDiffers(cells[i].ced.buf);
              SaysNo(l.items, 0, f) && (SaysNo(l.items, i + 1, f) <==> BufAgain(cells, i))
      ensures i == |cells| - 1 ==> !KeyAgain(cells, i) && !BufAgain(cells, i)
    {
      hide List.Valid;
      var its, f, g := l.items, KeyDiffers(cells[i].ced.key), BufDiffers(cells[i].ced.buf);
      assert forall j :: 0 <= j < |its| ==> f(its[j]) == (cells[j].ced.key != cells[i].ced.key);
      assert forall j :: 0 <= j < |its| ==> g(its[j]) == (cells[j].ced.buf != cells[i].ced.buf);
      assert !f(its[i]) && !g(its[i]);
    }

    /** The uniqueness tests of hash_check on the item at i, the cursor advanced beyond it unless it is the last. */
    static method Repeats(l: List<HashItem>, ghost cells: Cells, lruItem: HashItem, ghost i: nat, last: bool)
        returns (bad: bool)
      requires Mirrors(l, cells) && i < |cells| && lruItem.ced == cells[i].ced
      requires last <==> i == |cells| - 1
      requires l.at == if last then i else i + 1
      modifies l`curr, l`at
      ensures Mirrors(l, cells) && l.at == old(l.at)
      ensures bad <==> KeyAgain(cells, i) || BufAgain(cells, i)
    {
      hide *;
      MirrorsIs(l, cells);
      RepetitionTold(l, cells, i);
      var match_ := CountMatches(l, KeyDiffers(lruItem.ced.key), last);
      bad := match_ != 1;
      match_ := CountMatches(l, BufDiffers(lruItem.ced.buf), last);
      if match_ != 1 {
        bad := true;
      }
      MirrorsIs(l, cells);
    }

    method CheckUnique(lruItem: HashItem, ghost i: nat, last: bool) returns (bad: bool)
      requires WellFormed() && i < |view.lru| && lruItem.ced == view.lru[i].ced
      requires last <==> i == |view.lru| - 1
      requires lru.at == if last then i else i + 1
      modifies lru`curr, lru`at
      ensures WellFormed() && lru.at == old(lru.at)
      ensures bad <==> KeyAgain(view.lru, i) || BufAgain(view.lru, i)
    {
      hide List.Valid;
      hide CellsOf;
      hide KeyAgain;
      hide BufAgain;
      bad := Repeats(lru, view.lru, lruItem, i, last);
    }

    /** The tests of hash_check against the first bucket item with the key. */
    method CheckPartner(bucket: List<HashItem>, lruItem: HashItem, element: Node<HashItem>, ghost i: nat)
        returns (bad: bool)
      requires WellFormed() && view.Shape() && i < |view.lru|
      requires view.lru[i] == Cell(lruItem.ced, element, lruItem.element, lruItem.list)
      requires bucket == table[view.Slot(view.lru[i].ced.key)]
      modifies bucket`curr, bucket`at
      ensures WellFormed()
      ensures bad <==> !PartnerFits(view, i)
    {
      hide *;
      TableIs();
      var key := lruItem.ced.key;
      ghost var b := view.Slot(key);
      PartnerFitsIs(view, i);
      var rc := Find(b, bucket, key);
      if rc != Ok {
        return true;
      }
      TableIs();
      CurrCell(bucket, view.slots[b]);
      var hashItem := bucket.curr.data;
      bad := lruItem.element != bucket.curr;
      if lruItem.list != bucket {
        bad := true;
      }
      if hashItem.element != element {
        bad := true;
      }
      if hashItem.list != lru {
        bad := true;
      }
      if hashItem.ced.key != lruItem.ced.key {
        bad := true;
      }
      if hashItem.ced.buf != lruItem.ced.buf {
        bad := true;
      }
      if hashItem.ced.buflen != lruItem.ced.buflen {
        bad := true;
      }
    }

    static lemma PartnerFitsIs(t: View, i: nat)
      requires t.Shape() && i < |t.lru|
      ensures var l, slot := t.lru[i], t.slots[t.Slot(t.lru[i].ced.key)];
              var j := FirstKey(slot, l.ced.key);
              PartnerFits(t, i) <==>
                && j < |slot|
                && l.other == slot[j].self && l.list == t.slotLists[t.Slot(l.ced.key)]
                && slot[j].other == l.self && slot[j].list == t.lruList
                && slot[j].ced.key == l.ced.key && slot[j].ced.buf == l.ced.buf && slot[j].ced.buflen == l.ced.buflen
    {
    }

    /** hash_count over one list, with its uint32_t counter, the cursor following. */
    static method CountItems(l: List<HashItem>, ghost cells: Cells) returns (n: nat)
      requires Mirrors(l, cells)
      modifies l`curr, l`at
      ensures Mirrors(l, cells) && l.at == (if cells == [] then 0 else |cells| - 1)
      ensures n == U32(|cells|) == l.size
    {
      hide *;
      var onward := (it: HashItem) => true;
      MirrorsIs(l, cells);
      CellCount(l, cells);
      l.CursorOk();
      VisitsAll(l.items, l.at, onward);
      var rc, visited := l.Traverse(onward, Seeking());
      n := U32(|visited|);
      MirrorsIs(l, cells);
    }

    method CountBucket(ghost index: nat, bucket: List<HashItem>) returns (n: nat)
      requires WellFormed() && index < |table| && bucket == table[index]
      modifies bucket`curr, bucket`at
      ensures WellFormed()
      ensures n == U32(|view.slots[index]|) == bucket.size
    {
      hide List.Valid;
      hide CellsOf;
      hide U32;
      n := CountItems(bucket, view.slots[index]);
    }

    method CountLru() returns (n: nat)
      requires WellFormed()
      modifies lru`curr, lru`at
      ensures WellFormed() && lru.at == (if view.lru == [] then 0 else |view.lru| - 1)
      ensures n == U32(|view.lru|) == lru.size
    {
      hide List.Valid;
      hide CellsOf;
      hide U32;
      n := CountItems(lru, view.lru);
    }

    static lemma CellCount(l: List<HashItem>, cells: Cells)
      requires Mirrors(l, cells)
      ensures |cells| == |l.nodes| == |l.items| && l.size == U32(|cells|)
    {
    }

    /** The totals of hash_check. */
    method CheckCounts() returns (bad: bool)
      requires WellFormed()
      modifies lru`curr, lru`at, table`curr, table`at
      ensures WellFormed()
      ensures bad <==> U32(|view.lru|) > maxItems || U32(Total(view.slots)) != U32(|view.lru|)
    {
      hide *;
      TableIs();
      Sizes();
      var items := lru.size;
      bad := items > maxItems;
      var iitems := CountLru();
      if items != iitems {
        bad := true;
      }
      var titems := CountTable();
      if titems != items {
        bad := true;
      }
    }

    /** The bucket lengths added up, in a uint32_t; no bucket is found to be of another length than its size says. */
    method CountTable() returns (titems: nat)
      requires WellFormed()
      modifies table`curr, table`at
      ensures WellFormed()
      ensures titems == U32(Total(view.slots))
    {
      hide *;
      TableIs();
      titems := 0;
      var i := 0;
      ghost var total: nat := 0;
      TotalFrom(view.slots, 0);
      while i < maxItems
        invariant i <= maxItems && WellFormed()
        invariant total + Total(view.slots[i..]) == Total(view.slots) && titems == U32(total)
      {
        TotalFrom(view.slots, i);
        U32Sum(total, |view.slots[i]|);
        var iitems := CountBucket(i, table[i]);
        assert table[i].size == iitems;  // the message about this bucket is never printed
        titems := U32(titems + table[i].size);
        total := total + |view.slots[i]|;
        i := i + 1;
      }
      TotalFrom(view.slots, i);
    }

    static lemma TotalFrom(ss: seq<Cells>, i: nat)
      requires i <= |ss|
      ensures ss[0..] == ss && U32(0) == 0
      ensures Total(ss[i..]) == if i == |ss| then 0 else |ss[i]| + Total(ss[i + 1..])
    {
      if i < |ss| {
        assert ss[i..][0] == ss[i] && ss[i..][1..] == ss[i + 1..];
      }
    }

    static lemma U32Sum(a: nat, b: nat)
      ensures U32(U32(a) + U32(b)) == U32(a + b)
    {
    }

    /** Read the current LRU item and step past it, if there is a next one. */
    static method Advance(l: List<HashItem>, ghost cells: Cells)
        returns (lruItem: HashItem, element: Node<HashItem>, last: bool)
      requires Mirrors(l, cells) && l.at < |cells|
      modifies l`curr, l`at
      ensures Mirrors(l, cells)
      ensures cells[old(l.at)] == Cell(lruItem.ced, element, lruItem.element, lruItem.list)
      ensures last <==> old(l.at) == |cells| - 1
      ensures l.at == if last then old(l.at) else old(l.at) + 1
    {
      hide List.Valid;
      hide CellsOf;
      CurrCell(l, cells);
      CellCount(l, cells);
      lruItem, element := l.curr.data, l.curr;
      var moved := l.MvNext();
      last := !moved;
    }

    method AdvanceLru(ghost i: nat) returns (lruItem: HashItem, element: Node<HashItem>, last: bool)
      requires WellFormed() && i < |view.lru| && lru.at == i
      modifies lru`curr, lru`at
      ensures WellFormed()
      ensures view.lru[i] == Cell(lruItem.ced, element, lruItem.element, lruItem.list)
      ensures last <==> i == |view.lru| - 1
      ensures lru.at == if last then i else i + 1
    {
      hide List.Valid;
      hide CellsOf;
      lruItem, element, last := Advance(lru, view.lru);
    }

    /** One round of hash_check's loop along the LRU list. */
    method CheckItem(ghost i: nat) returns (bad: bool, last: bool)
      requires WellFormed() && view.Shape() && i < |view.lru| && lru.at == i
      modifies lru`curr, lru`at, table`curr, table`at
      ensures WellFormed()
      ensures last <==> i == |view.lru| - 1
      ensures lru.at == if last then i else i + 1
      ensures bad <==> !QuietAt(view, i)
    {
      hide *;
      TableIs();
      QuietAtIs(view, i);
      var lruItem, element;
      lruItem, element, last := AdvanceLru(i);
      bad := CheckUnique(lruItem, i, last);
      var index := lruItem.ced.key % maxItems;
      var unfit := CheckPartner(table[index], lruItem, element, i);
      if unfit {
        bad := true;
      }
    }

    static lemma QuietAtIs(t: View, i: nat)
      requires t.Shape() && i < |t.lru|
      ensures QuietAt(t, i) <==> !KeyAgain(t.lru, i) && !BufAgain(t.lru, i) && PartnerFits(t, i)
    {
    }

    lemma CursorInside()
      requires WellFormed()
      ensures lru.curr == null <==> view.lru == []
      ensures if view.lru == [] then lru.at == 0 else lru.at < |view.lru|
    {
    }

    method ToFront()
      requires WellFormed()
      modifies lru`curr, lru`at
      ensures WellFormed() && lru.at == 0
    {
      hide List.Valid;
      hide CellsOf;
      lru.MvFront();
    }

    /**
     hash_check.  It moves cursors and nothing else, and it complains exactly when
     one of the tests behind HashChecks.Quiet fails.
     */
    method Check() returns (complained: bool)
      requires WellFormed()
      modifies lru`curr, lru`at, table`curr, table`at
      ensures WellFormed() && view.Shape() && lru.at == (if view.lru == [] then 0 else |view.lru| - 1)
      ensures complained <==> !Quiet(view, maxItems)
      ensures |view.lru| < 0x1_0000_0000 && Total(view.slots) < 0x1_0000_0000 ==>
                (complained <==> !Consistent(view, maxItems))
    {
      hide *;
      TableIs();
      ViewIsSeparate();
      QuietIs(view, maxItems);
      if |view.lru| < 0x1_0000_0000 && Total(view.slots) < 0x1_0000_0000 {
        QuietMeansConsistent(view, maxItems);
      }
      complained := CheckCounts();
      ghost var countsBad := complained;
      ToFront();
      var last := false;
      ghost var i := 0;
      CursorInside();
      while !last && lru.curr != null
        invariant WellFormed()
        invariant i <= |view.lru| && (lru.curr == null <==> view.lru == []) && (view.lru == [] ==> lru.at == 0)
        invariant if last then i == |view.lru| > 0 && lru.at == i - 1
                  else view.lru == [] || (i < |view.lru| && lru.at == i)
        invariant complained <==> countsBad || exists k :: 0 <= k < i && !QuietAt(view, k)
        decreases |view.lru| - i
      {
        var bad;
        bad, last := CheckItem(i);
        if bad {
          complained := true;
        }
        i := i + 1;
        CursorInside();
      }
    }

    static lemma QuietIs(t: View, cap: nat)
      requires t.Shape()
      ensures Quiet(t, cap) <==>
                && U32(|t.lru|) <= cap && U32(Total(t.slots)) == U32(|t.lru|)
                && forall i :: 0 <= i < |t.lru| ==> QuietAt(t, i)
    {
    }

    /** The traversals of hash_print: the cursors end at the rear, and nothing else changes. */
    method Print()
      requires WellFormed()
      modifies lru`curr, lru`at, table`curr, table`at
      ensures WellFormed() && lru.at == (if view.lru == [] then 0 else |view.lru| - 1)
    {
      hide *;
      TableIs();
      var _ := CountLru();
      for i := 0 to maxItems
        invariant WellFormed() && lru.at == (if view.lru == [] then 0 else |view.lru| - 1)
      {
        var _ := CountBucket(i, table[i]);
      }
    }

    // --- hash_destroy

    /** Remove the current element until there is none. */
    static method DrainList(l: List<HashItem>) returns (freed: seq<HashItem>)
      requires l.Valid()
      modifies l, l.owned
      ensures l.Valid() && l.nodes == [] && l.id == old(l.id) && l.owned <= old(l.owned)
      ensures freed == Drain(old(l.Contents()))
    {
      hide List.Valid;
      freed := [];
      l.CursorOk();
      while l.curr != null
        invariant l.Valid() && l.id == old(l.id) && l.owned <= old(l.owned) && l.Contents().Ok()
        invariant freed + Drain(l.Contents()) == Drain(old(l.Contents()))
        decreases |l.nodes|
      {
        l.Facts();
        ghost var z := l.Contents();
        var r := l.RemoveCurr();
        l.CursorOk();
        assert Drain(z) == [r.value] + Drain(l.Contents());
        freed := freed + [r.value];
      }
      l.Facts();
    }

    /** Each bucket's items and cursor. */
    ghost function Buckets(): (zs: seq<Zipper<HashItem>>)
      reads table
      ensures |zs| == |table| && forall b :: 0 <= b < |zs| ==> zs[b] == table[b].Contents()
    {
      seq(|table|, b requires 0 <= b < |table| reads table => table[b].Contents())
    }

    /** Every item of the cache. */
    ghost function AllItems(): seq<HashItem>
      reads lru, table
    {
      lru.items + Flat(Buckets())
    }

    /** No item is stored in two elements. */
    lemma ItemsApart()
      requires WellFormed() && Joined(view)
      ensures Distinct(AllItems())
    {
      hide List.Valid;
      hide Joined;
      hide Table.Tidy;
      TableIs();
      JoinedShape(view);
      forall b, c, i, k | 0 <= b < |table| && 0 <= c < |table| && 0 <= i < |table[b].items| && 0 <= k < |table[c].items|
                          && table[b].items[i] == table[c].items[k]
        ensures b == c && i == k
      {
        BucketItemsDiffer(b, i, c, k);
      }
      forall b, i, k | 0 <= b < |table| && 0 <= i < |lru.items| && 0 <= k < |table[b].items|
        ensures lru.items[i] != table[b].items[k]
      {
        LruAndBucketDiffer(b, i, k);
      }
      FlatDistinct(Buckets());
      FlatDisjoint(lru.items, Buckets());
      DistinctConcat(lru.items, Flat(Buckets()));
    }

    lemma BucketItemsDiffer(b: nat, i: nat, c: nat, k: nat)
      requires WellFormed() && view.Tidy()
      requires b < |table| && i < |table[b].items| && c < |table| && k < |table[c].items|
      requires table[b].items[i] == table[c].items[k]
      ensures b == c && i == k
    {
      CellCount(table[b], view.slots[b]);
      CellCount(table[c], view.slots[c]);
      CellAt(table[b], view.slots[b], i);
      CellAt(table[c], view.slots[c], k);
      assert InSlot(view.slots[b], b, |view.slots|) && InSlot(view.slots[c], c, |view.slots|);
      assert view.slots[b][i].ced == view.slots[c][k].ced;
    }

    lemma LruAndBucketDiffer(b: nat, i: nat, k: nat)
      requires WellFormed() && Joined(view)
      requires b < |table| && i < |lru.items| && k < |table[b].items|
      ensures lru.items[i] != table[b].items[k]
    {
      CellCount(lru, view.lru);
      CellCount(table[b], view.slots[b]);
      CellAt(table[b], view.slots[b], k);
      CellAt(lru, view.lru, i);
      assert HasMate(view, b, k);
      var m: nat :| IsMate(view, m, b, k);
      assert Mated(view, m);
      assert view.lru[i].list == table[view.Slot(view.lru[i].ced.key)];
    }

    lemma ListsApart()
      requires WellFormed()
      ensures lru.Valid() && lru.owned <= Repr && lru.Contents() == Zipper(lru.items, lru.at)
      ensures forall b {:trigger table[b]} :: 0 <= b < |table| ==>
                && table[b].Valid() && table[b].Contents().Ok() && table[b].owned <= Repr
                && lru.id != table[b].id && lru.owned !! table[b].owned
      ensures forall b, c {:trigger table[b], table[c]} :: 0 <= b < c < |table| ==>
                table[b].id != table[c].id && table[b].owned !! table[c].owned
    {
    }

    /** The bucket loop of hash_destroy. */
    method DrainTable(ghost zs: seq<Zipper<HashItem>>) returns (freed: seq<HashItem>)
      requires |zs| == |table| == maxItems && forall b :: 0 <= b < |zs| ==> zs[b].Ok()
      requires forall b {:trigger table[b]} :: 0 <= b < |table| ==>
                 table[b].Valid() && table[b].Contents() == zs[b] && table[b] in Repr && table[b].owned <= Repr
      requires forall b, c {:trigger table[b], table[c]} :: 0 <= b < c < |table| ==>
                 table[b].id != table[c].id && table[b].owned !! table[c].owned
      modifies table, set b, n | 0 <= b < |table| && n in table[b].owned :: n
      ensures freed == DrainAll(zs)
      ensures forall b :: 0 <= b < |table| ==> table[b].nodes == []
    {
      hide *;
      freed := [];
      var i := 0;
      DrainAllStep(zs, 0);
      assert zs[..0] == [];
      while i < maxItems
        invariant i <= maxItems
        invariant forall c {:trigger table[c]} :: 0 <= c < |table| ==>
                    table[c].id == old(table[c].id) && table[c].owned <= old(table[c].owned)
        invariant forall c {:trigger table[c]} :: i <= c < |table| ==> table[c].Valid() && table[c].Contents() == zs[c]
        invariant forall c {:trigger table[c]} :: 0 <= c < i ==> table[c].nodes == []
        invariant freed == DrainAll(zs[..i])
      {
        DrainAllStep(zs, i);
        var items := DrainList(table[i]);
        freed := freed + items;
        i := i + 1;
      }
    }

    /** The loops of hash_destroy: the LRU items from the front, then each bucket's from wherever its cursor stands. */
    method FreeAll() returns (freed: seq<HashItem>)
      requires WellFormed()
      modifies Repr
      ensures forall b :: 0 <= b < |old(Buckets())| ==> old(Buckets())[b].Ok()
      ensures freed == old(lru.items) + DrainAll(old(Buckets()))
      ensures lru.nodes == [] && forall b :: 0 <= b < |table| ==> table[b].nodes == []
    {
      hide *;
      TableIs();
      ListsApart();
      ghost var zs, its := Buckets(), lru.items;
      lru.MvFront();
      lru.CursorOk();
      DrainFromFront(its);
      freed := DrainList(lru);
      var rest := DrainTable(zs);
      freed := freed + rest;
    }

    /** hash_destroy: wherever the cursors stand, every item is freed, and under the invariant none twice. */
    method Destroy() returns (freed: seq<HashItem>)
      requires WellFormed()
      modifies Repr
      ensures multiset(freed) == multiset(old(AllItems()))
      ensures old(Joined(view)) ==> Distinct(freed)
      ensures lru.nodes == [] && forall b :: 0 <= b < |table| ==> table[b].nodes == []
    {
      ghost var zs, its, all, joined := Buckets(), lru.items, AllItems(), Joined(view);
      if joined {
        ItemsApart();
      }
      hide List.Valid;
      hide CellsOf;
      hide WellFormed;
      hide Joined;
      hide Distinct;
      freed := FreeAll();
      DrainAllOnce(zs);
      if joined {
        DistinctPermutation(freed, all);
      }
    }

    // --- hash_create

    static lemma IdsDiffer(firstId: nat, b: nat, c: nat)
      requires b < c < 0x1_0000_0000
      ensures U32(firstId + b) != U32(firstId + c)
    {
    }

    static method CreateTable(maxItems: nat, firstId: nat) returns (table: seq<List<HashItem>>)
      requires maxItems < 0x1000_0000
      ensures |table| == maxItems
      ensures forall b {:trigger table[b]} :: 0 <= b < |table| ==>
                && fresh(table[b]) && table[b].Valid() && table[b].nodes == [] && table[b].owned == {}
                && table[b].id == U32(firstId + b)
      ensures forall b, c {:trigger table[b], table[c]} :: 0 <= b < c < |table| ==> table[b].id != table[c].id
    {
      hide List.Valid;
      table := [];
      var i := 0;
      while i < maxItems
        invariant i == |table| <= maxItems
        invariant forall b {:trigger table[b]} :: 0 <= b < |table| ==>
                    && fresh(table[b]) && table[b].Valid() && table[b].nodes == [] && table[b].owned == {}
                    && table[b].id == U32(firstId + b)
      {
        var list := new List<HashItem>(U32(firstId + i));
        table := table + [list];
        i := i + 1;
      }
      forall b, c | 0 <= b < c < |table|
        ensures table[b].id != table[c].id
      {
        IdsDiffer(firstId, b, c);
      }
    }

    static lemma EmptyIsCoupled(t: View)
      requires t.Shape() && t.lru == [] && forall b :: 0 <= b < |t.slots| ==> t.slots[b] == []
      ensures t.Coupled()
    {
    }

    /** An empty cache, or null for no capacity; the lists take consecutive ids (ListIds.IdsAreConsecutive). */
    static method Create(maxItems: nat, firstId: nat) returns (h: Hash?)
      requires maxItems < 0x1000_0000
      ensures h == null <==> maxItems == 0
      ensures h != null ==> fresh(h) && fresh(h.Repr) && h.Valid() && h.maxItems == maxItems
      ensures h != null ==> h.view.lru == [] && h.lru.at == 0 && h.stats == Stats(0, 0, 0, 0, 0)
      ensures h != null ==> h.view.Coupled()
    {
      hide List.Valid;
      hide CellsOf;
      hide Table.Coupled;
      if maxItems == 0 {
        return null;
      }
      var lru := new List<HashItem>(U32(firstId));
      var table := CreateTable(maxItems, firstId + 1);
      forall b {:trigger table[b]} | 0 <= b < |table|
        ensures lru.id != table[b].id
      {
        IdsDiffer(firstId, 0, b + 1);
      }
      h := new Hash(maxItems, lru, table);
      EmptyIsCoupled(h.view);
      CoupledIsJoined(h.view);
      h.lru.CurrIsFront();
    }
  }
}
