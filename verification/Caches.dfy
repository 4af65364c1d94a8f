/** cache.c: an LRU cache on one list, searched from the front by a caller's match function. */
module Caches {
  import opened Wrappers
  import opened Zippers
  import opened Lists
  import opened Lru

  /** A data pointer; None is NULL. */
  type Pointer<D> = Option<D>

  /**
   cache_enter: a NULL result of the insertion, failed or not, skips the eviction.
   The size compared with the limit is a uint32_t.
   */
  function Enter<D>(s: seq<Pointer<D>>, data: Pointer<D>, mem: bool, cap: nat): (seq<Pointer<D>>, Pointer<D>) {
    var full := [data] + s;
    if !mem then (s, None)
    else if data.None? || U32(|full|) <= cap then (full, None)
    else (full[..|s|], full[|s|])
  }

  /** cache_check; the promotion ignores a failed allocation and so loses the element. */
  function Check<D>(s: seq<Pointer<D>>, goOn: Pointer<D> -> bool, mem: bool): (seq<Pointer<D>>, Pointer<D>) {
    if U32(|s|) == 0 then (s, None) else Hit(s, FirstMatch(s, goOn), mem)
  }

  lemma HitIs<D>(s: seq<Pointer<D>>, i: nat, mem: bool)
    requires i <= |s|
    ensures i == |s| ==> Hit(s, i, mem) == (s, None)
    ensures i == 0 < |s| ==> Hit(s, i, mem) == (s, s[0])
    ensures 0 < i < |s| ==>
              Hit(s, i, mem) == (if mem then [s[i]] + RemoveAt(s, i) else RemoveAt(s, i), s[i])
  {
    if i == 0 < |s| {
      assert ToFront(s, 0) == s;
    }
  }

  lemma CheckIs<D>(s: seq<Pointer<D>>, goOn: Pointer<D> -> bool, mem: bool)
    ensures Check(s, goOn, mem) == if U32(|s|) == 0 then (s, None) else Hit(s, FirstMatch(s, goOn), mem)
  {
  }

  function Hit<D>(s: seq<Pointer<D>>, i: nat, mem: bool): (seq<Pointer<D>>, Pointer<D>)
    requires i <= |s|
  {
    if i == |s| then (s, None)
    else (if i > 0 && !mem then RemoveAt(s, i) else ToFront(s, i), s[i])
  }

  /** Equal pointers match alike, so the first match carries the front's pointer only if it is the front. */
  lemma FrontOrBehind<D>(s: seq<D>, goOn: D -> bool)
    requires FirstMatch(s, goOn) < |s|
    ensures s[FirstMatch(s, goOn)] == s[0] <==> FirstMatch(s, goOn) == 0
    ensures ToFront(s, 0) == s
  {
    assert FirstMatch(s, goOn) > 0 ==> goOn(s[0]) && !goOn(s[FirstMatch(s, goOn)]);
  }

  /**
   The bound is kept by an insertion exactly when there was room anyway, or the
   datum is not NULL and the limit is not the largest uint32_t, which no size exceeds.
   */
  lemma EnterBound<D>(s: seq<Pointer<D>>, data: Pointer<D>, cap: nat)
    requires |s| <= cap < 0x1_0000_0000
    ensures |Enter(s, data, true, cap).0| <= cap <==> |s| < cap || (data.Some? && cap != 0xFFFF_FFFF)
  {
    if |s| == cap == 0xFFFF_FFFF {
      assert U32(|s| + 1) == 0;
    }
  }

  /** Entering NULL twice into a cache of one element leaves two. */
  lemma NullOutgrows()
    ensures var once := Enter<int>([], None, true, 1).0;
            |Enter(once, None, true, 1).0| == 2
  {
  }

  datatype Op<!D> = EnterOp(data: Pointer<D>, mem: bool) | CheckOp(goOn: Pointer<D> -> bool, mem: bool)

  /** One call: the sequence afterwards, and the datum removed or found. */
  function Step<D>(s: seq<Pointer<D>>, op: Op<D>, cap: nat): (seq<Pointer<D>>, Pointer<D>) {
    match op
    case EnterOp(data, mem) => Enter(s, data, mem, cap)
    case CheckOp(goOn, mem) => Check(s, goOn, mem)
  }

  /** The sequence after a run, and what its calls returned. */
  function Run<D>(s: seq<Pointer<D>>, ops: seq<Op<D>>, cap: nat): (seq<Pointer<D>>, seq<Pointer<D>>)
    decreases |ops|
  {
    if ops == [] then (s, [])
    else
      var n := |ops| - 1;
      var before := Run(s, ops[..n], cap);
      var r := Step(before.0, ops[n], cap);
      (r.0, before.1 + [r.1])
  }

  /** No NULL is entered. */
  predicate NoNulls<D>(ops: seq<Op<D>>) {
    forall i :: 0 <= i < |ops| ==> ops[i].EnterOp? ==> ops[i].data.Some?
  }

  lemma StepBound<D>(s: seq<Pointer<D>>, op: Op<D>, cap: nat)
    requires |s| <= cap < 0xFFFF_FFFF && None !in s && (op.EnterOp? ==> op.data.Some?)
    ensures |Step(s, op, cap).0| <= cap && None !in Step(s, op, cap).0
  {
    match op
    case EnterOp(data, mem) =>
      assert None !in [data] + s;
    case CheckOp(goOn, mem) =>
      var i := FirstMatch(s, goOn);
      if i < |s| {
        assert forall x <- RemoveAt(s, i) :: x in s;
      }
  }

  /** Over every run that enters no NULL, the cache never outgrows its limit and never holds NULL. */
  lemma {:induction false} RunBound<D>(s: seq<Pointer<D>>, ops: seq<Op<D>>, cap: nat)
    requires |s| <= cap < 0xFFFF_FFFF && None !in s && NoNulls(ops)
    ensures |Run(s, ops, cap).0| <= cap && None !in Run(s, ops, cap).0
    decreases |ops|
  {
    if ops != [] {
      var n := |ops| - 1;
      RunBound(s, ops[..n], cap);
      StepBound(Run(s, ops[..n], cap).0, ops[n], cap);
    }
  }

  class Cache<D(==)> {
    const maxElements: int
    const list: List<Pointer<D>>

    /** Between calls the current element is the front one. */
    ghost predicate Valid()
      reads list, list.owned
    {
      && list.Valid() && list.at == 0
      && -0x8000_0000 <= maxElements < 0x8000_0000
    }

    lemma ValidIs()
      ensures Valid() <==> list.Valid() && list.at == 0 && -0x8000_0000 <= maxElements < 0x8000_0000
    {
    }

    static ghost function Block(block: Node?<Pointer<D>>): set<Node<Pointer<D>>> {
      if block == null then {} else {block}
    }

    /** The limit as list_size compares with it: converted to unsigned. */
    function Cap(): (cap: nat)
      requires -0x8000_0000 <= maxElements < 0x8000_0000
      ensures cap < 0x1_0000_0000 && (0 <= maxElements ==> cap == maxElements)
      ensures cap == 0xFFFF_FFFF <==> maxElements == -1
    {
      if maxElements < 0 then maxElements + 0x1_0000_0000 else maxElements
    }

    constructor (maxElements: int, id: nat)
      requires -0x8000_0000 <= maxElements < 0x8000_0000
      ensures Valid() && fresh(list) && fresh(list.owned) && list.items == [] && this.maxElements == maxElements
    {
      this.maxElements := maxElements;
      list := new List<Pointer<D>>(id);
    }

    method Add(data: Pointer<D>, block: Node?<Pointer<D>>) returns (newElement: Pointer<D>, removed: Pointer<D>)
      requires Valid() && block !in list.nodes
      modifies list, list.owned, block
      ensures Valid() && list.owned <= old(list.owned) + Block(block)
      ensures (list.items, removed) == Enter(old(list.items), data, block != null, Cap())
      ensures newElement == if block != null then data else None
    {
      hide List.Valid;
      hide Splice;
      removed := None;
      SpliceFront(list.items, data);
      list.CursorOk();
      var r := list.InsertBefore(data, block);
      list.CursorOk();
      newElement := match r case None => None case Some(p) => p;
      if newElement != None {
        if list.size > Cap() {
          var rear := list.RemoveRear();
          removed := rear.value;
        }
      }
    }

    /**
     The list is searched with the cursor following.  On a hit the C compares data
     pointers, not elements, to see whether the match is already in front.
     */
    method Lookup(goOn: Pointer<D> -> bool, malloc: Malloc<Node<Pointer<D>>>) returns (found: Pointer<D>)
      requires Valid() && (malloc.Gives? ==> malloc.block !in list.nodes)
      modifies list, list.owned, List.Given(malloc)
      ensures Valid() && list.owned <= old(list.owned) + List.Given(malloc)
      ensures (list.items, found) == Check(old(list.items), goOn, malloc != Fails)
    {
      hide *;
      ValidIs();
      list.CursorOk();
      CheckIs(list.items, goOn, malloc != Fails);
      ghost var k := FirstMatch(list.items, goOn);
      if k < |list.items| {
        FrontOrBehind(list.items, goOn);
      }
      if list.size == 0 {
        return None;
      }
      var rc := list.Search(goOn);
      found := Answer(rc, k, malloc);
    }

    /** The rest of cache_check, the search having stopped at k. */
    method Answer(rc: Outcome, ghost k: nat, malloc: Malloc<Node<Pointer<D>>>) returns (found: Pointer<D>)
      requires list.Valid() && -0x8000_0000 <= maxElements < 0x8000_0000
      requires malloc.Gives? ==> malloc.block !in list.nodes
      requires rc == Ok <==> k < |list.items|
      requires rc == Ok ==> list.at == k && (list.items[k] == list.items[0] <==> k == 0)
      requires k <= |list.items|
      modifies list, list.owned, List.Given(malloc)
      ensures Valid() && list.owned <= old(list.owned) + List.Given(malloc)
      ensures (list.items, found) == Hit(old(list.items), k, malloc != Fails)
    {
      hide *;
      HitIs(list.items, k, malloc != Fails);
      list.CurrIsFront();
      if rc == Ok {
        if list.curr.data != list.front.data {
          var block;
          found, block := list.Promote(malloc);
        } else {
          found := list.front.data;
        }
      } else {
        list.MvFront();
        found := None;
      }
      ValidIs();
    }
  }

  /** One call of the client; which block malloc returns makes no difference to cache.c. */
  method Call<D(==)>(c: Cache<D>, op: Op<D>) returns (out: Pointer<D>)
    requires c.Valid()
    modifies c.list, c.list.owned
    ensures c.Valid() && fresh(c.list.owned - old(c.list.owned))
    ensures c.list.items == Step(old(c.list.items), op, c.Cap()).0 && out == Step(old(c.list.items), op, c.Cap()).1
  {
    hide List.Valid;
    hide Enter;
    hide Check;
    match op {
      case EnterOp(data, mem) =>
        var block: Node?<Pointer<D>> := null;
        if mem {
          block := new Node<Pointer<D>>(data);
        }
        NewBlock(c, block);
        var newElement;
        newElement, out := c.Add(data, block);
      case CheckOp(goOn, mem) =>
        var malloc := Recycles;
        if !mem {
          malloc := Fails;
        } else if * {
          var block := new Node<Pointer<D>>(None);
          malloc := Gives(block);
          NewBlock(c, block);
        }
        out := c.Lookup(goOn, malloc);
    }
  }

  lemma NewBlock<D>(c: Cache<D>, block: Node?<Pointer<D>>)
    requires c.Valid() && block !in c.list.owned
    ensures block !in c.list.nodes
  {
    c.list.OwnedIs();
  }

  /** Every run of a real cache, NULL data, failing allocations and all: its entries, and what its calls returned. */
  method Play<D(==)>(maxElements: int, id: nat, ops: seq<Op<D>>) returns (c: Cache<D>, outs: seq<Pointer<D>>)
    requires -0x8000_0000 <= maxElements < 0x8000_0000
    ensures c.Valid() && c.maxElements == maxElements
    ensures c.list.items == Run([], ops, c.Cap()).0 && outs == Run([], ops, c.Cap()).1
    ensures maxElements != -1 && NoNulls(ops) ==> |c.list.items| <= c.Cap() && None !in c.list.items
  {
    c := new Cache<D>(maxElements, id);
    outs := [];
    var i := 0;
    while i < |ops|
      invariant i <= |ops|
      invariant c.Valid() && c.maxElements == maxElements && fresh(c.list) && fresh(c.list.owned)
      invariant c.list.items == Run([], ops[..i], c.Cap()).0 && outs == Run([], ops[..i], c.Cap()).1
    {
      assert ops[..i + 1][..i] == ops[..i];
      var out := Call(c, ops[i]);
      outs := outs + [out];
      i := i + 1;
    }
    assert ops[..i] == ops;
    if maxElements != -1 && NoNulls(ops) {
      RunBound<D>([], ops, c.Cap());
    }
  }
}
