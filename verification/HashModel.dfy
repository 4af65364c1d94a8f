/**
 The hashed cache with its pointers: the LRU list and the bucket lists as
 sequences of cells that name each other by element handle.  The operations
 here do what hash.c does - search one bucket, follow a handle, never search the
 LRU list - and are proved to compute the simple LRU sequence of Lru.dfy.
 */
module HashModel {
  import opened Wrappers
  import opened Zippers
  import opened Lru

  /**
   A list element with the item it holds: its own handle, the handle stored in
   the item (hash_item->element), the list stored there (hash_item->list).
   H is the type of element handles and L of list handles.
   */
  datatype Cell<H, L> = Cell(ced: Ced, self: H, other: H, list: L)

  datatype Table<H, L> = Table(lru: seq<Cell<H, L>>, slots: seq<seq<Cell<H, L>>>, lruList: L, slotLists: seq<L>) {
    /** HASH_FN */
    ghost function Slot(key: nat): (b: nat)
      requires Shape()
      ensures b < |slots|
    {
      key % |slots|
    }

    ghost predicate Shape() {
      |slots| == |slotLists| > 0
    }

    /** What the bucket cell of an LRU cell has to be. */
    ghost function Partner(c: Cell<H, L>): Cell<H, L> {
      Cell(c.ced, c.other, c.self, lruList)
    }

    ghost function Partners(s: seq<Cell<H, L>>): (r: seq<Cell<H, L>>)
      ensures |r| == |s| && forall i :: 0 <= i < |r| ==> r[i] == Partner(s[i])
    {
      seq(|s|, i requires 0 <= i < |s| => Partner(s[i]))
    }

    /** Buckets hold their own keys, and no list holds an element twice. */
    ghost predicate Tidy() {
      && Shape()
      && Selves(lru)
      && (forall b :: 0 <= b < |slots| ==> Selves(slots[b]) && InSlot(slots[b], b, |slots|))
      && (forall i :: 0 <= i < |lru| ==> lru[i].list == slotLists[Slot(lru[i].ced.key)])
    }

    /**
     The invariant of hash.c: for each key, the cells of its bucket with that key
     are the partners of the LRU cells with that key, in the same order.
     */
    ghost predicate Coupled() {
      Tidy() && forall key: nat :: CoupledAt(key)
    }

    ghost predicate CoupledAt(key: nat)
      requires Shape()
    {
      WithKey(slots[Slot(key)], key) == Partners(WithKey(lru, key))
    }
  }

  ghost predicate Selves<H, L>(s: seq<Cell<H, L>>) {
    forall i, j :: 0 <= i < j < |s| ==> s[i].self != s[j].self
  }

  ghost predicate InSlot<H, L>(s: seq<Cell<H, L>>, b: nat, n: nat)
    requires n > 0
  {
    forall i :: 0 <= i < |s| ==> s[i].ced.key % n == b
  }

  ghost function Ceds<H, L>(s: seq<Cell<H, L>>): (r: seq<Ced>)
    ensures |r| == |s| && forall i :: 0 <= i < |r| ==> r[i] == s[i].ced
  {
    seq(|s|, i requires 0 <= i < |s| => s[i].ced)
  }

  ghost function WithKey<H, L>(s: seq<Cell<H, L>>, key: nat): seq<Cell<H, L>> {
    if s == [] then []
    else if s[0].ced.key == key then [s[0]] + WithKey(s[1..], key)
    else WithKey(s[1..], key)
  }

  ghost function FirstKey<H, L>(s: seq<Cell<H, L>>, key: nat): (i: nat)
    ensures i <= |s| && (i < |s| ==> s[i].ced.key == key)
    ensures forall j :: 0 <= j < i ==> s[j].ced.key != key
  {
    var ks := Keys(Ceds(s));
    assert forall i :: 0 <= i < |s| ==> ks[i] == s[i].ced.key;
    IndexOf(ks, key)
  }

  /** Where the element with handle h is, or the length. */
  ghost function At<H, L>(s: seq<Cell<H, L>>, h: H): (i: nat)
    ensures i <= |s| && (i < |s| ==> s[i].self == h)
    ensures forall j :: 0 <= j < i ==> s[j].self != h
  {
    FirstMatch(s, (c: Cell<H, L>) => c.self != h)
  }

  ghost predicate Holds<H, L>(s: seq<Cell<H, L>>, h: H) {
    At(s, h) < |s|
  }

  // --- The invariant taken apart

  /** The bucket of an LRU cell. */
  ghost function Home<H, L>(t: Table<H, L>, i: nat): (b: nat)
    requires t.Shape() && i < |t.lru|
    ensures b < |t.slots|
  {
    t.Slot(t.lru[i].ced.key)
  }

  /** Where in its bucket the handle stored in an LRU cell leads, or the bucket's length. */
  ghost function Mate<H, L>(t: Table<H, L>, i: nat): (j: nat)
    requires t.Shape() && i < |t.lru|
    ensures j <= |t.slots[Home(t, i)]|
  {
    At(t.slots[Home(t, i)], t.lru[i].other)
  }

  /** The handle leads to a bucket cell with the same descriptor. */
  ghost predicate Mated<H, L>(t: Table<H, L>, i: nat)
    requires t.Shape() && i < |t.lru|
  {
    var s, j := t.slots[Home(t, i)], Mate(t, i);
    j < |s| && s[j].ced == t.lru[i].ced && s[j].list == t.lruList
  }

  ghost predicate IsMate<H, L>(t: Table<H, L>, i: nat, b: nat, j: nat)
    requires t.Shape()
  {
    i < |t.lru| && Home(t, i) == b && Mate(t, i) == j
  }

  ghost predicate HasMate<H, L>(t: Table<H, L>, b: nat, j: nat)
    requires t.Shape()
  {
    exists i: nat :: IsMate(t, i, b, j)
  }

  /**
   The LRU cells and the bucket cells correspond one to one through the handles
   stored in the LRU cells, whatever the bucket cells store.
   */
  ghost predicate Joined<H, L>(t: Table<H, L>) {
    && t.Tidy()
    && (forall i :: 0 <= i < |t.lru| ==> Mated(t, i))
    && (forall i, k :: 0 <= i < k < |t.lru| && Home(t, i) == Home(t, k) ==> Mate(t, i) != Mate(t, k))
    && (forall b, j :: 0 <= b < |t.slots| && 0 <= j < |t.slots[b]| ==> HasMate(t, b, j))
  }

  /** Cells with one key are in the same order in the LRU list and in their bucket. */
  ghost predicate InOrder<H, L>(t: Table<H, L>)
    requires t.Shape()
  {
    forall i, k :: 0 <= i < k < |t.lru| && t.lru[i].ced.key == t.lru[k].ced.key ==> Mate(t, i) < Mate(t, k)
  }

  /** The handle in the bucket cell leads back. */
  ghost predicate LeadsBack<H, L>(t: Table<H, L>, i: nat)
    requires t.Shape() && i < |t.lru|
  {
    Mate(t, i) < |t.slots[Home(t, i)]| && t.slots[Home(t, i)][Mate(t, i)].other == t.lru[i].self
  }

  /** No entry has moved to another LRU element since it was put in. */
  ghost predicate UpToDate<H, L>(t: Table<H, L>)
    requires t.Shape()
  {
    forall i :: 0 <= i < |t.lru| ==> LeadsBack(t, i)
  }

  // --- The operations

  /** hash_put up to the cross links: ln and hn are the new list elements. */
  ghost function Insert<H, L>(t: Table<H, L>, c: Ced, ln: H, hn: H): Table<H, L>
    requires t.Shape()
  {
    var b := t.Slot(c.key);
    t.(lru := [Cell(c, ln, hn, t.slotLists[b])] + t.lru,
       slots := t.slots[b := [Cell(c, hn, ln, t.lruList)] + t.slots[b]])
  }

  /** The victim of an eviction, and where its handle leads. */
  ghost predicate CanEvict<H, L>(t: Table<H, L>) {
    t.Shape() && t.lru != [] && var v := t.lru[|t.lru| - 1]; Holds(t.slots[t.Slot(v.ced.key)], v.other)
  }

  /** Take the rear LRU cell, and through its handle the bucket cell, without a search. */
  ghost function Evict<H, L>(t: Table<H, L>): (Table<H, L>, Ced)
    requires CanEvict(t)
  {
    var v := t.lru[|t.lru| - 1];
    var b := t.Slot(v.ced.key);
    var j := At(t.slots[b], v.other);
    (t.(lru := t.lru[..|t.lru| - 1], slots := t.slots[b := RemoveAt(t.slots[b], j)]), t.slots[b][j].ced)
  }

  /** A promotion from position i of the LRU list; block is the element allocated for the re-insertion. */
  ghost function Promote<H, L>(t: Table<H, L>, i: nat, block: H): Table<H, L>
    requires i < |t.lru|
  {
    if i == 0 then t
    else t.(lru := [t.lru[i].(self := block)] + RemoveAt(t.lru, i))
  }

  /** The same by malloc's answer; without memory the LRU item is lost. */
  ghost function PromoteBy<H, L>(t: Table<H, L>, i: nat, malloc: Malloc<H>): Table<H, L>
    requires i < |t.lru|
  {
    match malloc
    case Recycles => Promote(t, i, t.lru[i].self)
    case Gives(block) => Promote(t, i, block)
    case Fails => if i == 0 then t else t.(lru := RemoveAt(t.lru, i))
  }

  /** The handle that hash_get finds in the bucket. */
  ghost predicate Finds<H, L>(t: Table<H, L>, key: nat)
    requires t.Shape()
  {
    FirstKey(t.slots[t.Slot(key)], key) < |t.slots[t.Slot(key)]|
  }

  ghost function Stored<H, L>(t: Table<H, L>, key: nat): H
    requires t.Shape() && Finds(t, key)
  {
    t.slots[t.Slot(key)][FirstKey(t.slots[t.Slot(key)], key)].other
  }

  /**
   The LRU item that hash_get promotes: the one in the element its handle leads to.
   An element of another list is refused, and the current LRU element stays current.
   */
  ghost function Aim<H, L>(t: Table<H, L>, at: nat, key: nat): nat
    requires t.Shape() && Finds(t, key)
  {
    var h := Stored(t, key);
    if Holds(t.lru, h) then At(t.lru, h) else at
  }

  /** hash_get, the LRU list's cursor at `at`: the table, the cursor, and the entry found. */
  ghost function Fetch<H, L>(t: Table<H, L>, at: nat, key: nat, malloc: Malloc<H>): (Table<H, L>, nat, Option<Ced>)
    requires t.Shape() && (t.lru != [] ==> at < |t.lru|)
  {
    if t.lru == [] || !Finds(t, key) then (t, at, None)
    else (PromoteBy(t, Aim(t, at, key), malloc), 0, Some(t.slots[t.Slot(key)][FirstKey(t.slots[t.Slot(key)], key)].ced))
  }

  // --- Selection by key

  lemma {:induction false} WithKeyConcat<H, L>(s: seq<Cell<H, L>>, r: seq<Cell<H, L>>, key: nat)
    ensures WithKey(s + r, key) == WithKey(s, key) + WithKey(r, key)
  {
    if s == [] {
      assert s + r == r;
    } else {
      assert (s + r)[1..] == s[1..] + r;
      WithKeyConcat(s[1..], r, key);
    }
  }

  lemma WithKeyCons<H, L>(c: Cell<H, L>, s: seq<Cell<H, L>>, key: nat)
    ensures WithKey([c] + s, key) == if c.ced.key == key then [c] + WithKey(s, key) else WithKey(s, key)
  {
    assert ([c] + s)[1..] == s;
  }

  lemma {:induction false} WithKeyNone<H, L>(s: seq<Cell<H, L>>, key: nat)
    requires forall i :: 0 <= i < |s| ==> s[i].ced.key != key
    ensures WithKey(s, key) == []
  {
    if s != [] {
      WithKeyNone(s[1..], key);
    }
  }

  lemma {:induction false} WithKeyMembers<H, L>(s: seq<Cell<H, L>>, key: nat, c: Cell<H, L>)
    ensures c in WithKey(s, key) <==> c in s && c.ced.key == key
  {
    if s != [] {
      WithKeyMembers(s[1..], key, c);
      assert s == [s[0]] + s[1..];
    }
  }

  /** Around one position. */
  lemma WithKeySplit<H, L>(s: seq<Cell<H, L>>, i: nat, key: nat)
    requires i < |s|
    ensures WithKey(RemoveAt(s, i), key) == WithKey(s[..i], key) + WithKey(s[i + 1..], key)
    ensures WithKey(s, key) ==
            WithKey(s[..i], key) + (if s[i].ced.key == key then [s[i]] else []) + WithKey(s[i + 1..], key)
  {
    WithKeyConcat(s[..i], s[i + 1..], key);
    assert s == s[..i] + ([s[i]] + s[i + 1..]);
    WithKeyConcat(s[..i], [s[i]] + s[i + 1..], key);
    WithKeyCons(s[i], s[i + 1..], key);
  }

  /** Removing a cell does not show under other keys. */
  lemma WithKeyOther<H, L>(s: seq<Cell<H, L>>, i: nat, key: nat)
    requires i < |s| && s[i].ced.key != key
    ensures WithKey(RemoveAt(s, i), key) == WithKey(s, key)
  {
    WithKeySplit(s, i, key);
    assert WithKey(s[..i], key) + [] == WithKey(s[..i], key);
  }
}
