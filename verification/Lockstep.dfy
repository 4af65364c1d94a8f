/** hash.c against cache.c: the same calls on both, and when they give the same answers. */
module Lockstep {
  import opened Wrappers
  import opened Zippers
  import opened Lists
  import opened Lru
  import opened HashModel
  import opened HashLaws
  import opened HashRuns
  import opened Hashes
  import opened HashCalls
  import Caches

  /** The match function that makes cache_check look for a key. */
  function KeyMatch(key: nat): Option<Ced> -> bool {
    (p: Option<Ced>) => p.None? || p.value.key != key
  }

  /** What cache.c holds: the same entries as pointers, none of them NULL. */
  function Pointers(s: seq<Ced>): (r: seq<Option<Ced>>)
    ensures |r| == |s| && forall i :: 0 <= i < |r| ==> r[i] == Some(s[i])
  {
    seq(|s|, i requires 0 <= i < |s| => Some(s[i]))
  }

  lemma MatchIsIndexOf(s: seq<Ced>, key: nat)
    ensures FirstMatch(Pointers(s), KeyMatch(key)) == IndexOf(Keys(s), key)
  {
    var f, ps, ks, g := KeyMatch(key), Pointers(s), Keys(s), (k: nat) => k != key;
    assert forall j :: 0 <= j < |s| ==> f(ps[j]) == g(ks[j]);
    SameMatch(ps, f, ks, g);
  }

  /** cache_check with a key match is the simple lookup, as long as no promotion fails. */
  lemma CheckIsGet(s: seq<Ced>, key: nat, mem: bool)
    requires |s| < 0x1_0000_0000
    requires 0 < IndexOf(Keys(s), key) < |s| ==> mem
    ensures var (s', found) := Get(s, key);
            Caches.Check(Pointers(s), KeyMatch(key), mem) == (Pointers(s'), found)
  {
    MatchIsIndexOf(s, key);
    var i := IndexOf(Keys(s), key);
    if i < |s| {
      assert Pointers(ToFront(s, i)) == ToFront(Pointers(s), i);
    }
  }

  /** cache_enter of a pointer that is not NULL is the simple insertion. */
  lemma EnterIsPut(s: seq<Ced>, c: Ced, cap: nat)
    requires |s| + 1 < 0x1_0000_0000
    ensures var (s', evicted) := Put(s, c, cap);
            Caches.Enter(Pointers(s), Some(c), true, cap) == (Pointers(s'), evicted)
  {
    assert Pointers([c] + s) == [Some(c)] + Pointers(s);
    assert Pointers(([c] + s)[..|s|]) == ([Some(c)] + Pointers(s))[..|s|];
  }

  // --- The list cache

  /** The call of cache.c that does what a call of hash.c is meant to do; mem is about cache_check's promotion. */
  function OpOf(call: Call<Handle>, mem: bool): Caches.Op<Ced>
    requires !call.Look?
  {
    match call
    case GetCall(key, _) => Caches.CheckOp(KeyMatch(key), mem)
    case PutCall(ced, memory) => Caches.EnterOp(Some(ced), memory.Enough())
  }

  /** A lookup that promotes an entry finds memory for it. */
  ghost predicate Spares(s: seq<Ced>, call: Call<Handle>, mem: bool) {
    call.GetCall? && 0 < IndexOf(Keys(s), call.key) < |s| ==> mem
  }

  ghost predicate SparesRun(s: seq<Ced>, calls: seq<Call<Handle>>, mems: seq<bool>, cap: nat)
    requires |mems| == |calls|
  {
    forall i :: 0 <= i < |calls| ==> Spares(SimpleRun(s, calls[..i], cap).0, calls[i], mems[i])
  }

  lemma SparesAt(s: seq<Ced>, calls: seq<Call<Handle>>, mems: seq<bool>, i: nat, cap: nat)
    requires |mems| == |calls| && SparesRun(s, calls, mems, cap) && i < |calls|
    ensures Spares(SimpleRun(s, calls[..i], cap).0, calls[i], mems[i])
  {
  }

  /** One call on the list cache is one call on the simple LRU cache. */
  lemma OpIsStep(s: seq<Ced>, call: Call<Handle>, mem: bool, cap: nat)
    requires |s| <= cap < 0x1000_0000 && Spares(s, call, mem)
    ensures |SimpleStep(s, call, cap).0| <= cap
    ensures call.Look? ==> SimpleStep(s, call, cap) == (s, [])
    ensures !call.Look? ==>
              var (r, out) := Caches.Step(Pointers(s), OpOf(call, mem), cap);
              && r == Pointers(SimpleStep(s, call, cap).0)
              && SimpleStep(s, call, cap).1 ==
                 [if call.GetCall? then Found(out) else if call.mem.Enough() then Entered(out) else Refused]
  {
    hide Memory.Enough;
    match call
    case Look =>
    case GetCall(key, _) => CheckIsGet(s, key, mem);
    case PutCall(ced, memory) => EnterIsPut(s, ced, cap);
  }

  method UseCache(c: Caches.Cache<Ced>, call: Call<Handle>, mem: bool, ghost s: seq<Ced>) returns (out: seq<Reply>)
    requires c.Valid() && c.list.items == Pointers(s) && |s| <= c.maxElements < 0x1000_0000 && Spares(s, call, mem)
    modifies c.list, c.list.owned
    ensures c.Valid() && fresh(c.list.owned - old(c.list.owned))
    ensures c.list.items == Pointers(SimpleStep(s, call, c.maxElements).0)
    ensures out == SimpleStep(s, call, c.maxElements).1
  {
    hide *;
    c.ValidIs();
    OpIsStep(s, call, mem, c.maxElements);
    out := [];
    if !call.Look? {
      var r := Caches.Call(c, OpOf(call, mem));
      out := [if call.GetCall? then Found(r) else if call.mem.Enough() then Entered(r) else Refused];
    }
  }

  method PlayCache(c: Caches.Cache<Ced>, calls: seq<Call<Handle>>, mems: seq<bool>, ghost s: seq<Ced>)
      returns (out: seq<Reply>)
    requires c.Valid() && c.list.items == Pointers(s) && |s| <= c.maxElements < 0x1000_0000
    requires |mems| == |calls| && SparesRun(s, calls, mems, c.maxElements)
    modifies c.list, c.list.owned
    ensures c.Valid() && fresh(c.list.owned - old(c.list.owned))
    ensures c.list.items == Pointers(SimpleRun(s, calls, c.maxElements).0)
    ensures out == SimpleRun(s, calls, c.maxElements).1
  {
    hide *;
    ghost var cap := c.maxElements;
    out := [];
    var i := 0;
    SimpleEnds(s, calls, cap);
    while i < |calls|
      invariant i <= |calls| && c.Valid() && fresh(c.list.owned - old(c.list.owned))
      invariant |SimpleRun(s, calls[..i], cap).0| <= cap
      invariant (c.list.items, out) == (Pointers(SimpleRun(s, calls[..i], cap).0), SimpleRun(s, calls[..i], cap).1)
    {
      SparesAt(s, calls, mems, i, cap);
      SimpleNext(s, calls, i, cap);
      OpIsStep(SimpleRun(s, calls[..i], cap).0, calls[i], mems[i], cap);
      var more := UseCache(c, calls[i], mems[i], SimpleRun(s, calls[..i], cap).0);
      out := out + more;
      i := i + 1;
    }
  }

  // --- Both

  /** Both caches hold these entries in the same order of use, and share no memory. */
  ghost predicate Agree(h: Hash, c: Caches.Cache<Ced>)
    reads h, h.Repr, c.list, c.list.owned
  {
    && h.Valid() && c.Valid() && Ready(h.Now()) && c.maxElements == h.maxItems
    && c.list.items == Pointers(Ceds(h.view.lru))
    && c.list !in h.Repr && h.Repr !! c.list.owned
  }

  lemma AgreeMeans(h: Hash, c: Caches.Cache<Ced>)
    ensures Agree(h, c) <==>
              && h.Valid() && c.Valid() && Ready(h.Now()) && c.maxElements == h.maxItems
              && c.list.items == Pointers(Ceds(h.view.lru))
              && c.list !in h.Repr && h.Repr !! c.list.owned
  {
  }

  /**
   From any agreeing state, hash.c and cache.c through the same calls, keys repeating
   freely, allocations failing, printing and checking in between.  The hash is the
   state machine of HashRuns and the list cache is the simple LRU cache; so as long
   as every lookup of the hash promotes the entry it has found, both find the same
   entries, evict the same victims and agree again afterwards.
   */
  method Play(h: Hash, c: Caches.Cache<Ced>, calls: seq<HashCall>, mems: seq<bool>)
      returns (fromHash: seq<Reply>, fromCache: seq<Reply>)
    requires Agree(h, c) && InOrder(h.view) && PermitsRun(h.Now(), calls, h.maxItems)
    requires |mems| == |calls| && SparesRun(Ceds(h.view.lru), calls, mems, h.maxItems)
    modifies h, h.Repr, BlocksIn(calls), c.list, c.list.owned
    ensures h.Valid() && c.Valid() && old(Ready(h.Now()))
    ensures (h.Now(), fromHash) == Run(old(h.Now()), calls, h.maxItems)
    ensures (c.list.items, fromCache) ==
            (Pointers(SimpleRun<Handle>(old(Ceds(h.view.lru)), calls, h.maxItems).0),
             SimpleRun<Handle>(old(Ceds(h.view.lru)), calls, h.maxItems).1)
    ensures old(RightRun(h.Now(), calls, h.maxItems)) ==>
              Agree(h, c) && InOrder(h.view) && fromHash == fromCache
  {
    hide *;
    ghost var s, cap := h.Now(), h.maxItems;
    AgreeMeans(h, c);
    h.ValidIs();
    h.TableIs();
    h.NowIs();
    h.Bounds();
    RightMeans(s, calls, cap);
    fromHash := HashCalls.Play(h, calls);
    fromCache := PlayCache(c, calls, mems, Ceds(s.t.lru));
    h.ValidIs();
    h.TableIs();
    h.NowIs();
    AgreeMeans(h, c);
  }

  /** HashRuns.RunRight, for the whole run. */
  lemma RightMeans(s: HashState, calls: seq<Call<Handle>>, cap: nat)
    requires Sound(s, cap) && cap > 0 && InOrder(s.t) && PermitsRun(s, calls, cap)
    ensures Ready(s)
    ensures RightRun(s, calls, cap) ==>
              var r, simple := Run(s, calls, cap), SimpleRun(Ceds(s.t.lru), calls, cap);
              r.0.t.Shape() && InOrder(r.0.t) && Ceds(r.0.t.lru) == simple.0 && r.1 == simple.1
  {
    hide Sound;
    hide InOrder;
    hide PermitsRun;
    hide Right;
    hide Run;
    hide SimpleRun;
    SoundIsReady(s, cap);
    RunEnds(s, calls, cap);
    if RightRun(s, calls, cap) {
      RunRight(s, calls, cap, |calls|);
      SameOrderIs(s, calls, cap, |calls|);
    }
  }

  /** Two new caches agree. */
  method Start(maxItems: nat, firstId: nat) returns (h: Hash, c: Caches.Cache<Ced>)
    requires 0 < maxItems < 0x1000_0000
    ensures fresh(h) && fresh(h.Repr) && fresh(c) && fresh(c.list) && fresh(c.list.owned)
    ensures h.maxItems == maxItems && Agree(h, c) && InOrder(h.view) && UpToDate(h.view) && h.view.lru == []
  {
    hide *;
    var created := Hash.Create(maxItems, firstId);
    h := created;
    c := new Caches.Cache<Ced>(maxItems, 0);
    h.ValidIs();
    h.TableIs();
    h.NowIs();
    CoupledMeans(h.view);
    NoEntries(h.view);
    AgreeMeans(h, c);
  }

  lemma NoEntries(t: View)
    requires t.lru == []
    ensures Pointers(Ceds(t.lru)) == []
  {
  }
}
