/**
 Runs of the hashed cache: every sequence of calls, under every allocator.  A list
 element that a removal freed may come back in any later allocation, so a handle
 that a promotion has left out of date may lead to another entry's element.
 */
module HashRuns {
  import opened Wrappers
  import opened Zippers
  import opened Lru
  import opened HashModel
  import opened HashLaws

  /** hash_put's four allocations: the two items, then the two list elements. */
  datatype Memory<+H> = Memory(lruItem: bool, hashItem: bool, lruNode: Option<H>, hashNode: Option<H>) {
    predicate Items() {
      lruItem && hashItem
    }

    predicate Enough() {
      Items() && lruNode.Some? && hashNode.Some?
    }

    lemma EnoughIs()
      ensures Enough() <==> lruItem && hashItem && lruNode.Some? && hashNode.Some?
      ensures Items() <==> lruItem && hashItem
    {
    }
  }

  /** A call with malloc's answers.  Look is hash_print and hash_check, which move cursors. */
  datatype Call<+H> = Look | GetCall(key: nat, malloc: Malloc<H>) | PutCall(ced: Ced, mem: Memory<H>)

  datatype Reply = Found(ced: Option<Ced>) | Entered(evicted: Option<Ced>) | Refused

  /** The table, and the cursor of the LRU list. */
  datatype State<H, L> = State(t: Table<H, L>, at: nat)

  ghost predicate Ready<H, L>(s: State<H, L>) {
    s.t.Shape() && (s.t.lru != [] ==> s.at < |s.t.lru|)
  }

  /** hash_put; when the second insertion fails the first is undone. */
  ghost function PutStep<H, L>(s: State<H, L>, ced: Ced, mem: Memory<H>, cap: nat): (State<H, L>, Reply)
    requires s.t.Shape()
  {
    if !mem.Items() then (s, Refused)
    else if !mem.Enough() then (State(s.t, 0), Refused)
    else
      var t := Insert(s.t, ced, mem.lruNode.value, mem.hashNode.value);
      if |t.lru| > cap && CanEvict(t) then (State(Evict(t).0, 0), Entered(Some(Evict(t).1)))
      else (State(t, 0), Entered(None))
  }

  ghost function Step<H, L>(s: State<H, L>, call: Call<H>, cap: nat): (r: (State<H, L>, seq<Reply>))
    requires Ready(s)
    ensures Ready(r.0)
  {
    match call
    case Look => (State(s.t, if s.t.lru == [] then s.at else |s.t.lru| - 1), [])
    case GetCall(key, malloc) => var (t, at, found) := Fetch(s.t, s.at, key, malloc); (State(t, at), [Found(found)])
    case PutCall(ced, mem) => var (r, reply) := PutStep(s, ced, mem, cap); (r, [reply])
  }

  ghost function Run<H, L>(s: State<H, L>, calls: seq<Call<H>>, cap: nat): (r: (State<H, L>, seq<Reply>))
    requires Ready(s)
    ensures Ready(r.0)
  {
    if calls == [] then (s, [])
    else
      var n := |calls| - 1;
      var before := Run(s, calls[..n], cap);
      var r := Step(before.0, calls[n], cap);
      (r.0, before.1 + r.1)
  }

  /** The same calls on the simple LRU cache. */
  function SimpleStep<H>(s: seq<Ced>, call: Call<H>, cap: nat): (seq<Ced>, seq<Reply>) {
    match call
    case Look => (s, [])
    case GetCall(key, _) => var (r, found) := Get(s, key); (r, [Found(found)])
    case PutCall(ced, mem) =>
      if mem.Enough() then var (r, evicted) := Put(s, ced, cap); (r, [Entered(evicted)]) else (s, [Refused])
  }

  function SimpleRun<H>(s: seq<Ced>, calls: seq<Call<H>>, cap: nat): (seq<Ced>, seq<Reply>) {
    if calls == [] then (s, [])
    else
      var n := |calls| - 1;
      var before := SimpleRun(s, calls[..n], cap);
      var r := SimpleStep(before.0, calls[n], cap);
      (r.0, before.1 + r.1)
  }

  // --- Which calls are covered

  /** Some list of the cache holds the element. */
  ghost predicate Live<H, L>(t: Table<H, L>, h: H) {
    Holds(t.lru, h) || exists b :: 0 <= b < |t.slots| && Holds(t.slots[b], h)
  }

  /**
   The handle a lookup finds is a live element, as list_setcurr reads its id; the
   blocks malloc hands out are in use in no list; and a promotion finds memory.
   */
  ghost predicate Permits<H, L>(s: State<H, L>, call: Call<H>)
    requires Ready(s)
  {
    match call
    case Look => true
    case GetCall(key, malloc) =>
      && (Finds(s.t, key) ==>
            Live(s.t, Stored(s.t, key)) && (Aim(s.t, s.at, key) > 0 ==> malloc != Fails))
      && (malloc.Gives? ==> !Live(s.t, malloc.block))
    case PutCall(_, mem) =>
      && (mem.lruNode.Some? ==> !Live(s.t, mem.lruNode.value))
      && (mem.hashNode.Some? ==> !Live(s.t, mem.hashNode.value))
      && (mem.lruNode.Some? && mem.hashNode.Some? ==> mem.lruNode != mem.hashNode)
  }

  ghost predicate PermitsRun<H, L>(s: State<H, L>, calls: seq<Call<H>>, cap: nat)
    requires Ready(s)
  {
    forall i :: 0 <= i < |calls| ==> Permits(Run(s, calls[..i], cap).0, calls[i])
  }

  /** Whatever the handle found, the lookup promotes the entry it has found. */
  ghost predicate Right<H, L>(s: State<H, L>, call: Call<H>)
    requires Ready(s)
  {
    call.GetCall? && Finds(s.t, call.key) ==> Aim(s.t, s.at, call.key) == FirstKey(s.t.lru, call.key)
  }

  ghost predicate RightRun<H, L>(s: State<H, L>, calls: seq<Call<H>>, cap: nat)
    requires Ready(s)
  {
    forall i :: 0 <= i < |calls| ==> Right(Run(s, calls[..i], cap).0, calls[i])
  }

  /** Between calls. */
  ghost predicate Sound<H, L>(s: State<H, L>, cap: nat) {
    Ready(s) && Joined(s.t) && |s.t.lru| <= cap
  }

  // --- One call

  lemma NotLive<H, L>(t: Table<H, L>, h: H)
    requires !Live(t, h)
    ensures !Holds(t.lru, h) && forall b :: 0 <= b < |t.slots| ==> !Holds(t.slots[b], h)
  {
  }

  lemma AimInside<H, L>(s: State<H, L>, key: nat)
    requires Ready(s) && Joined(s.t) && Finds(s.t, key)
    ensures s.t.lru != [] && Aim(s.t, s.at, key) < |s.t.lru|
  {
    var b := s.t.Slot(key);
    assert HasMate(s.t, b, FirstKey(s.t.slots[b], key));
  }

  lemma PromoteByIs<H, L>(t: Table<H, L>, p: nat, malloc: Malloc<H>) returns (block: H)
    requires Joined(t) && p < |t.lru| && (p > 0 ==> malloc != Fails) && (malloc.Gives? ==> !Holds(t.lru, malloc.block))
    ensures PromoteBy(t, p, malloc) == Promote(t, p, block) && (Holds(t.lru, block) ==> t.lru[p].self == block)
  {
    block := if malloc.Gives? then malloc.block else t.lru[p].self;
  }

  /** What a lookup does, wherever its handle leads: that LRU item comes to the front. */
  lemma GetMeans<H, L>(s: State<H, L>, key: nat, malloc: Malloc<H>, cap: nat)
    requires Sound(s, cap) && Permits(s, GetCall(key, malloc)) && Finds(s.t, key)
    ensures var (r, replies) := Step(s, GetCall(key, malloc), cap);
            var p, b := Aim(s.t, s.at, key), s.t.Slot(key);
            && p < |s.t.lru| && Sound(r, cap) && r.at == 0
            && Ceds(r.t.lru) == ToFront(Ceds(s.t.lru), p)
            && replies == [Found(Some(s.t.slots[b][FirstKey(s.t.slots[b], key)].ced))]
  {
    AimInside(s, key);
    var p := Aim(s.t, s.at, key);
    if malloc.Gives? {
      NotLive(s.t, malloc.block);
    }
    var block := PromoteByIs(s.t, p, malloc);
    JoinedPromote(s.t, p, block);
    PromotedCeds(s.t, p, block);
  }

  /** What it does when the re-insertion finds no memory: the same answer, and that LRU item is lost. */
  lemma GetLoses<H, L>(s: State<H, L>, key: nat, cap: nat)
    requires Sound(s, cap) && Finds(s.t, key) && Aim(s.t, s.at, key) > 0
    ensures var (r, replies) := Step(s, GetCall(key, Fails), cap);
            var p, b := Aim(s.t, s.at, key), s.t.Slot(key);
            && p < |s.t.lru| && !Joined(r.t) && r.at == 0 && r.t.slots == s.t.slots
            && Ceds(r.t.lru) == Ceds(s.t.lru)[..p] + Ceds(s.t.lru)[p + 1..]
            && replies == [Found(Some(s.t.slots[b][FirstKey(s.t.slots[b], key)].ced))]
  {
    hide Joined;
    hide Finds;
    AimInside(s, key);
    var p := Aim(s.t, s.at, key);
    LossUnjoins(s.t, p);
    assert Ceds(RemoveAt(s.t.lru, p)) == Ceds(s.t.lru)[..p] + Ceds(s.t.lru)[p + 1..];
  }

  lemma PromotedCeds<H, L>(t: Table<H, L>, p: nat, block: H)
    requires p < |t.lru|
    ensures Ceds(Promote(t, p, block).lru) == ToFront(Ceds(t.lru), p) && |Promote(t, p, block).lru| == |t.lru|
  {
    if p == 0 {
      assert ToFront(Ceds(t.lru), 0) == Ceds(t.lru);
    } else {
      assert Ceds(Promote(t, p, block).lru) == ToFront(Ceds(t.lru), p);
    }
  }

  lemma JoinedShape<H, L>(t: Table<H, L>)
    requires Joined(t)
    ensures t.Tidy() && t.Shape()
  {
  }

  lemma InsertMeans<H, L>(t: Table<H, L>, ced: Ced, ln: H, hn: H)
    requires Joined(t) && !Live(t, ln) && !Live(t, hn)
    ensures var r := Insert(t, ced, ln, hn);
            && r.Shape() && Joined(r) && |r.lru| == |t.lru| + 1 && Ceds(r.lru) == [ced] + Ceds(t.lru)
            && (InOrder(t) ==> InOrder(r)) && (UpToDate(t) ==> UpToDate(r))
  {
    hide Joined;
    hide InOrder;
    hide UpToDate;
    hide Live;
    hide Holds;
    JoinedShape(t);
    NotLive(t, ln);
    NotLive(t, hn);
    JoinedInsert(t, ced, ln, hn);
    InOrderInsert(t, ced, ln, hn);
    assert Ceds(Insert(t, ced, ln, hn).lru) == [ced] + Ceds(t.lru);
  }

  lemma EvictMeans<H, L>(t: Table<H, L>)
    requires Joined(t) && t.lru != []
    ensures CanEvict(t)
    ensures var r, n := Evict(t).0, |t.lru| - 1;
            && r.Shape() && Joined(r) && |r.lru| == n && Ceds(r.lru) == Ceds(t.lru)[..n] && Evict(t).1 == Ceds(t.lru)[n]
            && (InOrder(t) ==> InOrder(r)) && (UpToDate(t) ==> UpToDate(r))
  {
    hide Joined;
    hide InOrder;
    hide UpToDate;
    hide Evict;
    hide CanEvict;
    JoinedEvict(t);
    InOrderEvict(t);
    CanEvictJoined(t);
    assert Ceds(t.lru[..|t.lru| - 1]) == Ceds(t.lru)[..|t.lru| - 1];
  }

  /** hash_put is the simple insertion, on every cache whose LRU items have their mates. */
  lemma PutMeans<H, L>(s: State<H, L>, ced: Ced, mem: Memory<H>, cap: nat)
    requires Sound(s, cap) && cap > 0 && Permits(s, PutCall(ced, mem))
    ensures var (r, replies) := Step(s, PutCall(ced, mem), cap);
            && Sound(r, cap)
            && (Ceds(r.t.lru), replies) == SimpleStep(Ceds(s.t.lru), PutCall(ced, mem), cap)
            && r.at == (if mem.Items() then 0 else s.at)
            && (InOrder(s.t) ==> InOrder(r.t)) && (UpToDate(s.t) ==> UpToDate(r.t))
  {
    hide Joined;
    hide InOrder;
    hide UpToDate;
    hide Live;
    hide Insert;
    hide Evict;
    hide CanEvict;
    if mem.Enough() {
      InsertMeans(s.t, ced, mem.lruNode.value, mem.hashNode.value);
      EvictMeans(Insert(s.t, ced, mem.lruNode.value, mem.hashNode.value));
    }
  }

  // --- Against the simple LRU cache

  /** In order, the entry a lookup finds is the one the simple lookup finds. */
  lemma GetReply<H, L>(s: State<H, L>, key: nat, malloc: Malloc<H>, cap: nat)
    requires Sound(s, cap) && InOrder(s.t)
    ensures Step(s, GetCall(key, malloc), cap).1 == SimpleStep(Ceds(s.t.lru), GetCall(key, malloc), cap).1
    ensures Finds(s.t, key) <==> FirstKey(s.t.lru, key) < |s.t.lru|
    ensures !Finds(s.t, key) ==> Step(s, GetCall(key, malloc), cap).0 == s
    ensures var (r, found) := Get(Ceds(s.t.lru), key);
            if Finds(s.t, key) then r == ToFront(Ceds(s.t.lru), FirstKey(s.t.lru, key)) else r == Ceds(s.t.lru)
  {
    FirstFound(s.t, key);
    hide Joined;
    hide InOrder;
    hide Mate;
  }

  /** A call that promotes the entry it has found keeps the order, and is the simple call. */
  lemma StepRight<H, L>(s: State<H, L>, call: Call<H>, cap: nat)
    requires Sound(s, cap) && cap > 0 && InOrder(s.t) && Permits(s, call) && Right(s, call)
    ensures var (r, replies) := Step(s, call, cap);
            && Sound(r, cap) && InOrder(r.t)
            && (Ceds(r.t.lru), replies) == SimpleStep(Ceds(s.t.lru), call, cap)
  {
    match call
    case Look =>
    case PutCall(ced, mem) => PutMeans(s, ced, mem, cap);
    case GetCall(key, malloc) =>
      GetReply(s, key, malloc, cap);
      if Finds(s.t, key) {
        GetMeans(s, key, malloc, cap);
        GetInOrder(s, key, malloc, cap);
      }
  }

  lemma GetInOrder<H, L>(s: State<H, L>, key: nat, malloc: Malloc<H>, cap: nat)
    requires Sound(s, cap) && InOrder(s.t) && Permits(s, GetCall(key, malloc))
    requires Finds(s.t, key) && Aim(s.t, s.at, key) == FirstKey(s.t.lru, key)
    ensures InOrder(Step(s, GetCall(key, malloc), cap).0.t)
  {
    AimInside(s, key);
    var p := Aim(s.t, s.at, key);
    if malloc.Gives? {
      NotLive(s.t, malloc.block);
    }
    var block := PromoteByIs(s.t, p, malloc);
    InOrderPromote(s.t, p, block);
  }

  lemma ToFrontDiffers<T>(s: seq<T>, p: nat, i: nat)
    requires Distinct(s) && p < |s| && i < |s| && p != i
    ensures ToFront(s, p) != ToFront(s, i)
  {
    assert ToFront(s, p)[0] != ToFront(s, i)[0];
  }

  /**
   What a lookup does that promotes another entry than the one it has found: the
   reply is still right, but the order is not that of the simple lookup.
   */
  lemma StepWrong<H, L>(s: State<H, L>, call: Call<H>, cap: nat)
    requires Sound(s, cap) && InOrder(s.t) && Distinct(Ceds(s.t.lru)) && Permits(s, call) && !Right(s, call)
    ensures var (r, replies) := Step(s, call, cap);
            && Sound(r, cap) && replies == SimpleStep(Ceds(s.t.lru), call, cap).1
            && Ceds(r.t.lru) != SimpleStep(Ceds(s.t.lru), call, cap).0
  {
    GetReply(s, call.key, call.malloc, cap);
    GetMeans(s, call.key, call.malloc, cap);
    ToFrontDiffers(Ceds(s.t.lru), Aim(s.t, s.at, call.key), FirstKey(s.t.lru, call.key));
  }

  // --- Runs

  lemma RunThen<H, L>(s: State<H, L>, calls: seq<Call<H>>, call: Call<H>, cap: nat)
    requires Ready(s)
    ensures var r := Run(s, calls, cap);
            && Run(s, calls + [call], cap).0 == Step(r.0, call, cap).0
            && Run(s, calls + [call], cap).1 == r.1 + Step(r.0, call, cap).1
  {
    assert (calls + [call])[..|calls|] == calls;
  }

  /** The run up to a call, and with it. */
  lemma RunNext<H, L>(s: State<H, L>, calls: seq<Call<H>>, i: nat, cap: nat)
    requires Ready(s) && i < |calls|
    ensures var r := Run(s, calls[..i], cap);
            && Run(s, calls[..i + 1], cap).0 == Step(r.0, calls[i], cap).0
            && Run(s, calls[..i + 1], cap).1 == r.1 + Step(r.0, calls[i], cap).1
  {
    hide *;
    PrefixStep(calls, i);
    RunThen(s, calls[..i], calls[i], cap);
  }

  lemma RunEnds<H, L>(s: State<H, L>, calls: seq<Call<H>>, cap: nat)
    requires Ready(s)
    ensures Run(s, calls[..0], cap) == (s, []) && calls[..|calls|] == calls
  {
    assert calls[..0] == [];
  }

  lemma SimpleNext<H>(s: seq<Ced>, calls: seq<Call<H>>, i: nat, cap: nat)
    requires i < |calls|
    ensures var r := SimpleRun(s, calls[..i], cap);
            && SimpleRun(s, calls[..i + 1], cap).0 == SimpleStep(r.0, calls[i], cap).0
            && SimpleRun(s, calls[..i + 1], cap).1 == r.1 + SimpleStep(r.0, calls[i], cap).1
    ensures SimpleRun(s, calls[..0], cap) == (s, [])
  {
    assert calls[..i + 1][..i] == calls[..i] && calls[..0] == [];
  }

  lemma SimpleEnds<H>(s: seq<Ced>, calls: seq<Call<H>>, cap: nat)
    ensures SimpleRun(s, calls[..0], cap) == (s, []) && calls[..|calls|] == calls
  {
  }

  lemma PermitsAt<H, L>(s: State<H, L>, calls: seq<Call<H>>, i: nat, cap: nat)
    requires Ready(s) && PermitsRun(s, calls, cap) && i < |calls|
    ensures Permits(Run(s, calls[..i], cap).0, calls[i])
  {
  }

  /** A run in two parts. */
  lemma {:induction false} RunConcat<H, L>(s: State<H, L>, calls: seq<Call<H>>, more: seq<Call<H>>, cap: nat)
    requires Ready(s)
    ensures var r := Run(s, calls, cap);
            var q := Run(r.0, more, cap);
            Run(s, calls + more, cap).0 == q.0 && Run(s, calls + more, cap).1 == r.1 + q.1
  {
    hide Step;
    if more == [] {
      assert calls + more == calls;
    } else {
      var n := |more| - 1;
      RunConcat(s, calls, more[..n], cap);
      RunThen(s, calls + more[..n], more[n], cap);
      assert calls + more == (calls + more[..n]) + [more[n]];
    }
  }

  /** Where the second part of a run gets to after i calls. */
  lemma SecondPart<H, L>(s: State<H, L>, calls: seq<Call<H>>, more: seq<Call<H>>, i: nat, cap: nat)
    requires Ready(s) && i < |more|
    ensures Run(s, (calls + more)[..|calls| + i], cap).0 == Run(Run(s, calls, cap).0, more[..i], cap).0
    ensures (calls + more)[|calls| + i] == more[i]
  {
    RunConcat(s, calls, more[..i], cap);
    assert (calls + more)[..|calls| + i] == calls + more[..i];
  }

  /** What holds of every call of a run holds of both its parts. */
  lemma PermitsParts<H, L>(s: State<H, L>, calls: seq<Call<H>>, more: seq<Call<H>>, cap: nat)
    requires Ready(s) && PermitsRun(s, calls + more, cap)
    ensures PermitsRun(s, calls, cap) && PermitsRun(Run(s, calls, cap).0, more, cap)
  {
    hide Permits;
    hide Run;
    forall i | 0 <= i < |calls|
      ensures Permits(Run(s, calls[..i], cap).0, calls[i])
    {
      PermitsAt(s, calls + more, i, cap);
      assert (calls + more)[..i] == calls[..i];
    }
    forall i | 0 <= i < |more|
      ensures Permits(Run(Run(s, calls, cap).0, more[..i], cap).0, more[i])
    {
      PermitsAt(s, calls + more, |calls| + i, cap);
      SecondPart(s, calls, more, i, cap);
    }
  }

  lemma RightParts<H, L>(s: State<H, L>, calls: seq<Call<H>>, more: seq<Call<H>>, cap: nat)
    requires Ready(s) && RightRun(s, calls + more, cap)
    ensures RightRun(s, calls, cap) && RightRun(Run(s, calls, cap).0, more, cap)
  {
    hide Right;
    hide Run;
    forall i | 0 <= i < |calls|
      ensures Right(Run(s, calls[..i], cap).0, calls[i])
    {
      assert (calls + more)[..i] == calls[..i] && (calls + more)[i] == calls[i];
    }
    forall i | 0 <= i < |more|
      ensures Right(Run(Run(s, calls, cap).0, more[..i], cap).0, more[i])
    {
      SecondPart(s, calls, more, i, cap);
      assert Right(Run(s, (calls + more)[..|calls| + i], cap).0, (calls + more)[|calls| + i]);
    }
  }

  lemma StepSound<H, L>(s: State<H, L>, call: Call<H>, cap: nat)
    requires Sound(s, cap) && cap > 0 && Permits(s, call)
    ensures Sound(Step(s, call, cap).0, cap)
  {
    match call
    case Look =>
    case PutCall(ced, mem) => PutMeans(s, ced, mem, cap);
    case GetCall(key, malloc) =>
      if Finds(s.t, key) {
        GetMeans(s, key, malloc, cap);
      }
  }

  /** Over every run that is covered, wherever the handles lead, every LRU item keeps its mate. */
  lemma {:induction false} RunSound<H, L>(s: State<H, L>, calls: seq<Call<H>>, cap: nat, n: nat)
    requires Sound(s, cap) && cap > 0 && PermitsRun(s, calls, cap) && n <= |calls|
    ensures Sound(Run(s, calls[..n], cap).0, cap)
  {
    hide *;
    SoundIsReady(s, cap);
    RunEnds(s, calls, cap);
    if n > 0 {
      RunSound(s, calls, cap, n - 1);
      RunNext(s, calls, n - 1, cap);
      PermitsAt(s, calls, n - 1, cap);
      StepSound(Run(s, calls[..n - 1], cap).0, calls[n - 1], cap);
    }
  }

  lemma SoundIsReady<H, L>(s: State<H, L>, cap: nat)
    requires Sound(s, cap)
    ensures Ready(s) && s.t.Shape() && Joined(s.t) && |s.t.lru| <= cap
  {
  }

  /** After n calls the entries are in the order of the simple LRU cache. */
  ghost predicate SameOrder<H, L>(s: State<H, L>, calls: seq<Call<H>>, cap: nat, n: nat)
    requires Ready(s) && n <= |calls|
  {
    Ceds(Run(s, calls[..n], cap).0.t.lru) == SimpleRun(Ceds(s.t.lru), calls[..n], cap).0
  }

  /** As long as every lookup promotes the entry it has found, the cache is the simple LRU cache. */
  lemma {:induction false} RunRight<H, L>(s: State<H, L>, calls: seq<Call<H>>, cap: nat, n: nat)
    requires Sound(s, cap) && cap > 0 && InOrder(s.t) && PermitsRun(s, calls, cap) && n <= |calls|
    requires forall i :: 0 <= i < n ==> Right(Run(s, calls[..i], cap).0, calls[i])
    ensures var r := Run(s, calls[..n], cap);
            && Sound(r.0, cap) && InOrder(r.0.t)
            && SameOrder(s, calls, cap, n) && r.1 == SimpleRun(Ceds(s.t.lru), calls[..n], cap).1
  {
    hide Sound;
    hide InOrder;
    hide Permits;
    hide Right;
    hide Step;
    hide SimpleStep;
    hide Run;
    SoundIsReady(s, cap);
    RunEnds(s, calls, cap);
    if n > 0 {
      var i := n - 1;
      RunRight(s, calls, cap, i);
      SoundIsReady(Run(s, calls[..i], cap).0, cap);
      RunNext(s, calls, i, cap);
      SimpleNext(Ceds(s.t.lru), calls, i, cap);
      hide SimpleRun;
      PermitsAt(s, calls, i, cap);
      StepRight(Run(s, calls[..i], cap).0, calls[i], cap);
    } else {
      assert calls[..0] == [];
    }
  }

  /** A put does not enter a descriptor that is in the cache already. */
  ghost predicate NewCed<H, L>(s: State<H, L>, call: Call<H>) {
    call.PutCall? ==> call.ced !in Ceds(s.t.lru)
  }

  ghost predicate NewCeds<H, L>(s: State<H, L>, calls: seq<Call<H>>, cap: nat)
    requires Ready(s)
  {
    forall i :: 0 <= i < |calls| ==> NewCed(Run(s, calls[..i], cap).0, calls[i])
  }

  lemma ToFrontDistinct<T>(s: seq<T>, p: nat)
    requires Distinct(s) && p < |s|
    ensures Distinct(ToFront(s, p))
  {
    var r := ToFront(s, p);
    assert forall k :: 0 <= k < |s| ==> r[k] == s[From(p, k)];
  }

  lemma PutDistinct<T>(s: seq<T>, x: T, cap: nat)
    requires Distinct(s) && x !in s
    ensures Distinct(Put(s, x, cap).0)
  {
    NewFrontDistinct(s, x);
  }

  lemma StepDistinct<H, L>(s: State<H, L>, call: Call<H>, cap: nat)
    requires Sound(s, cap) && cap > 0 && Permits(s, call) && NewCed(s, call) && Distinct(Ceds(s.t.lru))
    ensures Distinct(Ceds(Step(s, call, cap).0.t.lru))
  {
    hide Distinct;
    hide Joined;
    match call
    case Look =>
    case PutCall(ced, mem) =>
      PutMeans(s, ced, mem, cap);
      PutDistinct(Ceds(s.t.lru), ced, cap);
    case GetCall(key, malloc) =>
      if Finds(s.t, key) {
        GetMeans(s, key, malloc, cap);
        ToFrontDistinct(Ceds(s.t.lru), Aim(s.t, s.at, key));
      }
  }

  lemma {:induction false} RunDistinct<H, L>(s: State<H, L>, calls: seq<Call<H>>, cap: nat, n: nat)
    requires Sound(s, cap) && cap > 0 && PermitsRun(s, calls, cap) && NewCeds(s, calls, cap) && n <= |calls|
    requires Distinct(Ceds(s.t.lru))
    ensures Distinct(Ceds(Run(s, calls[..n], cap).0.t.lru))
  {
    hide *;
    SoundIsReady(s, cap);
    RunEnds(s, calls, cap);
    if n > 0 {
      RunDistinct(s, calls, cap, n - 1);
      RunSound(s, calls, cap, n - 1);
      RunNext(s, calls, n - 1, cap);
      PermitsAt(s, calls, n - 1, cap);
      NewCedAt(s, calls, n - 1, cap);
      StepDistinct(Run(s, calls[..n - 1], cap).0, calls[n - 1], cap);
    }
  }

  lemma NewCedAt<H, L>(s: State<H, L>, calls: seq<Call<H>>, i: nat, cap: nat)
    requires Ready(s) && NewCeds(s, calls, cap) && i < |calls|
    ensures NewCed(Run(s, calls[..i], cap).0, calls[i])
  {
  }

  lemma SameOrderIs<H, L>(s: State<H, L>, calls: seq<Call<H>>, cap: nat, n: nat)
    requires Ready(s) && n <= |calls|
    ensures SameOrder(s, calls, cap, n) <==>
              Ceds(Run(s, calls[..n], cap).0.t.lru) == SimpleRun(Ceds(s.t.lru), calls[..n], cap).0
  {
  }

  lemma {:induction false} SameMeansRight<H, L>(s: State<H, L>, calls: seq<Call<H>>, cap: nat, n: nat)
    requires Sound(s, cap) && cap > 0 && InOrder(s.t) && PermitsRun(s, calls, cap) && n <= |calls|
    requires Distinct(Ceds(s.t.lru)) && NewCeds(s, calls, cap)
    requires forall k :: 0 <= k <= |calls| ==> SameOrder(s, calls, cap, k)
    ensures forall i :: 0 <= i < n ==> Right(Run(s, calls[..i], cap).0, calls[i])
  {
    hide *;
    SoundIsReady(s, cap);
    if n > 0 {
      var i := n - 1;
      SameMeansRight(s, calls, cap, i);
      RunRight(s, calls, cap, i);
      RunDistinct(s, calls, cap, i);
      RunNext(s, calls, i, cap);
      SimpleNext(Ceds(s.t.lru), calls, i, cap);
      PermitsAt(s, calls, i, cap);
      SameOrderIs(s, calls, cap, i);
      SameOrderIs(s, calls, cap, n);
      var before := Run(s, calls[..i], cap).0;
      SoundIsReady(before, cap);
      if !Right(before, calls[i]) {
        StepWrong(before, calls[i], cap);
      }
    }
  }

  /**
   Exactly when the hashed cache is the simple LRU cache: the order of use agrees
   after every call if and only if every lookup promotes the entry it has found.
   */
  lemma RunExact<H, L>(s: State<H, L>, calls: seq<Call<H>>, cap: nat)
    requires Sound(s, cap) && cap > 0 && InOrder(s.t) && PermitsRun(s, calls, cap)
    requires Distinct(Ceds(s.t.lru)) && NewCeds(s, calls, cap)
    ensures RightRun(s, calls, cap) <==> forall n :: 0 <= n <= |calls| ==> SameOrder(s, calls, cap, n)
  {
    hide Run;
    hide SameOrder;
    hide Right;
    hide Permits;
    hide NewCed;
    if RightRun(s, calls, cap) {
      forall n | 0 <= n <= |calls|
        ensures SameOrder(s, calls, cap, n)
      {
        RunRight(s, calls, cap, n);
      }
    }
    if forall n :: 0 <= n <= |calls| ==> SameOrder(s, calls, cap, n) {
      SameMeansRight(s, calls, cap, |calls|);
    }
  }

  // --- Handles that are up to date

  /** When a lookup aims at its own entry: the handle is its element, or is refused with the cursor on it. */
  lemma AimMeans<H, L>(s: State<H, L>, key: nat)
    requires Ready(s) && Joined(s.t) && InOrder(s.t) && Finds(s.t, key)
    ensures var h, i := Stored(s.t, key), FirstKey(s.t.lru, key);
            && i < |s.t.lru|
            && (LeadsBack(s.t, i) <==> h == s.t.lru[i].self)
            && (Aim(s.t, s.at, key) == i <==> h == s.t.lru[i].self || (!Holds(s.t.lru, h) && s.at == i))
  {
    FirstFound(s.t, key);
    var i := FirstKey(s.t.lru, key);
    AtIs(s.t.lru, i);
  }

  /**
   A refused handle lets the previous call choose.  After printing and checking the
   lookup promotes the least recently used entry; after a lookup that found something
   or an insertion it promotes nothing, as the cursor is in front.
   */
  lemma RefusedAfter<H, L>(s: State<H, L>, call: Call<H>, key: nat, cap: nat)
    requires Sound(s, cap) && cap > 0 && Permits(s, call)
    requires var r := Step(s, call, cap).0; Finds(r.t, key) && !Holds(r.t.lru, Stored(r.t, key))
    ensures var r := Step(s, call, cap).0;
            Aim(r.t, r.at, key) == match call
                                   case Look => |r.t.lru| - 1
                                   case GetCall(k, _) => if Finds(s.t, k) then 0 else s.at
                                   case PutCall(_, mem) => if mem.Items() then 0 else s.at
  {
    match call {
      case Look =>
        AimInside(s, key);
      case GetCall(k, malloc) =>
        if Finds(s.t, k) {
          GetMeans(s, k, malloc, cap);
        }
      case PutCall(ced, mem) =>
        PutMeans(s, ced, mem, cap);
    }
    hide Joined;
    hide Finds;
    hide Holds;
    hide Insert;
    hide Evict;
  }

  /** The re-insertion gets the very element freed a moment before. */
  predicate Recycling<H>(call: Call<H>) {
    call.GetCall? ==> call.malloc.Recycles?
  }

  lemma RecyclingGet<H, L>(s: State<H, L>, key: nat, cap: nat)
    requires Sound(s, cap) && InOrder(s.t) && UpToDate(s.t)
    ensures Permits(s, GetCall(key, Recycles)) && Right(s, GetCall(key, Recycles))
    ensures UpToDate(Step(s, GetCall(key, Recycles), cap).0.t)
  {
    if Finds(s.t, key) {
      var i := FirstKey(s.t.lru, key);
      AimMeans(s, key);
      UpToDateAt(s.t, i);
      AtIs(s.t.lru, i);
      UpToDatePromote(s.t, i, s.t.lru[i].self);
      hide Joined;
      hide InOrder;
      hide UpToDate;
      hide LeadsBack;
    }
  }

  lemma UpToDateAt<H, L>(t: Table<H, L>, i: nat)
    requires t.Shape() && UpToDate(t) && i < |t.lru|
    ensures LeadsBack(t, i)
  {
  }

  lemma RecyclingStep<H, L>(s: State<H, L>, call: Call<H>, cap: nat)
    requires Sound(s, cap) && cap > 0 && InOrder(s.t) && UpToDate(s.t) && Recycling(call)
    requires call.PutCall? ==> Permits(s, call)
    ensures Permits(s, call) && Right(s, call)
    ensures var r := Step(s, call, cap).0; Sound(r, cap) && InOrder(r.t) && UpToDate(r.t)
  {
    hide Joined;
    hide InOrder;
    hide UpToDate;
    hide Live;
    hide Fetch;
    hide PutStep;
    match call {
      case Look =>
      case GetCall(key, _) => RecyclingGet(s, key, cap);
      case PutCall(ced, mem) => PutMeans(s, ced, mem, cap);
    }
    StepRight(s, call, cap);
  }

  /** Every re-insertion of the run gets that element; insertions get any elements not in use. */
  ghost predicate RecyclingRun<H, L>(s: State<H, L>, calls: seq<Call<H>>, cap: nat)
    requires Ready(s)
  {
    forall i :: 0 <= i < |calls| ==>
      Recycling(calls[i]) && (calls[i].PutCall? ==> Permits(Run(s, calls[..i], cap).0, calls[i]))
  }

  lemma RecyclingAt<H, L>(s: State<H, L>, calls: seq<Call<H>>, i: nat, cap: nat)
    requires Ready(s) && RecyclingRun(s, calls, cap) && i < |calls|
    ensures Recycling(calls[i]) && (calls[i].PutCall? ==> Permits(Run(s, calls[..i], cap).0, calls[i]))
  {
  }

  lemma {:induction false} RecyclingUpTo<H, L>(s: State<H, L>, calls: seq<Call<H>>, cap: nat, n: nat)
    requires Sound(s, cap) && cap > 0 && InOrder(s.t) && UpToDate(s.t) && RecyclingRun(s, calls, cap) && n <= |calls|
    ensures var r := Run(s, calls[..n], cap).0; Sound(r, cap) && InOrder(r.t) && UpToDate(r.t)
    ensures forall i :: 0 <= i < n ==>
              Permits(Run(s, calls[..i], cap).0, calls[i]) && Right(Run(s, calls[..i], cap).0, calls[i])
  {
    hide *;
    SoundIsReady(s, cap);
    RunEnds(s, calls, cap);
    if n > 0 {
      RecyclingUpTo(s, calls, cap, n - 1);
      RunNext(s, calls, n - 1, cap);
      RecyclingAt(s, calls, n - 1, cap);
      RecyclingStep(Run(s, calls[..n - 1], cap).0, calls[n - 1], cap);
    }
  }

  /**
   When every re-insertion gets the very element freed a moment before, no entry
   ever moves: every run is covered, and is that of the simple LRU cache.
   */
  lemma RecyclingIsRight<H, L>(s: State<H, L>, calls: seq<Call<H>>, cap: nat)
    requires Sound(s, cap) && cap > 0 && InOrder(s.t) && UpToDate(s.t) && RecyclingRun(s, calls, cap)
    ensures PermitsRun(s, calls, cap) && RightRun(s, calls, cap) && UpToDate(Run(s, calls, cap).0.t)
  {
    hide Sound;
    hide InOrder;
    hide UpToDate;
    hide RecyclingRun;
    hide Permits;
    hide Right;
    hide Run;
    SoundIsReady(s, cap);
    RunEnds(s, calls, cap);
    RecyclingUpTo(s, calls, cap, |calls|);
  }

  // --- A run that goes wrong

  /** The entry with key k; its LRU element and its bucket element are numbers. */
  function Entry(k: nat): Ced {
    Ced(k, k, k, 0)
  }

  function LruCell(k: nat, self: int, other: int): Cell<int, int> {
    Cell(Entry(k), self, other, k % 3 + 1)
  }

  function BucketCell(k: nat, self: int, other: int): Cell<int, int> {
    Cell(Entry(k), self, other, 0)
  }

  function Three(lru: seq<Cell<int, int>>, slots: seq<seq<Cell<int, int>>>): State<int, int> {
    State(Table(lru, slots, 0, [1, 2, 3]), 0)
  }

  function PutOf(k: nat, ln: int, hn: int): Call<int> {
    PutCall(Entry(k), Memory(true, true, Some(ln), Some(hn)))
  }

  /**
   A cache of three: put 1 and 2, get 1, which moves entry 1 from element 10 to 30;
   put 3, for which malloc hands 10 out again; get 1; put 4 and 5.
   */
  const STOLEN: seq<Call<int>> :=
    [PutOf(1, 10, 11), PutOf(2, 20, 21), GetCall(1, Gives(30)), PutOf(3, 10, 31), GetCall(1, Fails),
     PutOf(4, 40, 41), PutOf(5, 50, 51)]

  /** The states of that run. */
  function Stage(n: nat): State<int, int> {
    var a, b, c := BucketCell(1, 11, 10), BucketCell(2, 21, 20), BucketCell(3, 31, 10);
    if n == 0 then Three([], [[], [], []])
    else if n == 1 then Three([LruCell(1, 10, 11)], [[], [a], []])
    else if n == 2 then Three([LruCell(2, 20, 21), LruCell(1, 10, 11)], [[], [a], [b]])
    else if n == 3 then Three([LruCell(1, 30, 11), LruCell(2, 20, 21)], [[], [a], [b]])
    else if n <= 5 then Three([LruCell(3, 10, 31), LruCell(1, 30, 11), LruCell(2, 20, 21)], [[c], [a], [b]])
    else if n == 6 then Three([LruCell(4, 40, 41), LruCell(3, 10, 31), LruCell(1, 30, 11)],
                              [[c], [BucketCell(4, 41, 40), a], []])
    else Three([LruCell(5, 50, 51), LruCell(4, 40, 41), LruCell(3, 10, 31)],
               [[c], [BucketCell(4, 41, 40)], [BucketCell(5, 51, 50)]])
  }

  /** What the seven calls answer. */
  function Answer(n: nat): Reply {
    if n == 2 || n == 4 then Found(Some(Entry(1)))
    else if n == 5 then Entered(Some(Entry(2)))
    else if n == 6 then Entered(Some(Entry(1)))
    else Entered(None)
  }

  /** An insertion within the capacity. */
  lemma StolenPut(n: nat, k: nat, ln: int, hn: int)
    requires n < 7 && STOLEN[n] == PutOf(k, ln, hn) && |Stage(n).t.lru| < 3
    ensures Step(Stage(n), STOLEN[n], 3) == (Stage(n + 1), [Answer(n)])
  {
    var t := Insert(Stage(n).t, Entry(k), ln, hn);
    assert t.lru == Stage(n + 1).t.lru;
    assert forall b :: 0 <= b < 3 ==> t.slots[b] == Stage(n + 1).t.slots[b];
    assert t.slots == Stage(n + 1).t.slots;
  }

  /** An insertion with its eviction. */
  lemma StolenEvict(n: nat, k: nat, ln: int, hn: int)
    requires n < 7 && STOLEN[n] == PutOf(k, ln, hn) && |Stage(n).t.lru| == 3
    ensures Step(Stage(n), STOLEN[n], 3) == (Stage(n + 1), [Answer(n)])
  {
    var t := Insert(Stage(n).t, Entry(k), ln, hn);
    var v := t.lru[3];
    var slot := t.slots[t.Slot(v.ced.key)];
    assert At(slot, v.other) == |slot| - 1;
    assert RemoveAt(slot, |slot| - 1) == slot[..|slot| - 1];
    assert Evict(t).0.lru == Stage(n + 1).t.lru;
    assert forall b :: 0 <= b < 3 ==> Evict(t).0.slots[b] == Stage(n + 1).t.slots[b];
    assert Evict(t).0.slots == Stage(n + 1).t.slots;
  }

  lemma StolenGets()
    ensures Step(Stage(2), STOLEN[2], 3) == (Stage(3), [Answer(2)])
    ensures Step(Stage(4), STOLEN[4], 3) == (Stage(5), [Answer(4)])
  {
    var t, u := Stage(2).t, Stage(4).t;
    assert FirstKey(t.slots[1], 1) == 0 && At(t.lru, 10) == 1;
    assert Promote(t, 1, 30).lru == Stage(3).t.lru;
    assert FirstKey(u.slots[1], 1) == 0 && At(u.lru, 10) == 0;
  }

  lemma LiveInThree(t: Table<int, int>, h: int)
    requires |t.slots| == 3
    ensures Live(t, h) <==>
              Holds(t.lru, h) || Holds(t.slots[0], h) || Holds(t.slots[1], h) || Holds(t.slots[2], h)
  {
  }

  lemma StolenPermits(n: nat)
    requires n < 7
    ensures Ready(Stage(n)) && Permits(Stage(n), STOLEN[n])
  {
    hide Stage;
    if n == 2 || n == 4 {
      GetPermitted(n);
    } else {
      PutPermitted(n);
    }
  }

  lemma NotInUse(t: Table<int, int>, h: int)
    requires |t.slots| == 3 && forall c <- t.lru + t.slots[0] + t.slots[1] + t.slots[2] :: c.self != h
    ensures !Live(t, h)
  {
  }

  lemma PutPermitted(n: nat)
    requires n in {0, 1, 3, 5, 6}
    ensures Ready(Stage(n)) && Permits(Stage(n), STOLEN[n])
  {
    hide Live;
    var mem := STOLEN[n].mem;
    NotInUse(Stage(n).t, mem.lruNode.value);
    NotInUse(Stage(n).t, mem.hashNode.value);
  }

  lemma GetPermitted(n: nat)
    requires n == 2 || n == 4
    ensures Ready(Stage(n)) && Permits(Stage(n), STOLEN[n])
  {
    hide Live;
    var t := Stage(n).t;
    assert FirstKey(t.slots[1], 1) == 0 && At(t.lru, 10) == if n == 2 then 1 else 0;
    LiveInThree(t, 10);
    LiveInThree(t, 30);
  }

  lemma StolenStep(n: nat)
    requires n < 7
    ensures Ready(Stage(n)) && Step(Stage(n), STOLEN[n], 3) == (Stage(n + 1), [Answer(n)])
  {
    hide Step;
    hide Answer;
    if n == 0 {
      StolenPut(n, 1, 10, 11);
    } else if n == 1 {
      StolenPut(n, 2, 20, 21);
    } else if n == 3 {
      StolenPut(n, 3, 10, 31);
    } else if n == 5 {
      StolenEvict(n, 4, 40, 41);
    } else if n == 6 {
      StolenEvict(n, 5, 50, 51);
    } else {
      StolenGets();
    }
  }

  /** The order of use in the simple LRU cache. */
  function SimpleStage(n: nat): seq<Ced> {
    if n == 0 then []
    else if n == 1 then [Entry(1)]
    else if n == 2 then [Entry(2), Entry(1)]
    else if n == 3 then [Entry(1), Entry(2)]
    else if n == 4 then [Entry(3), Entry(1), Entry(2)]
    else if n == 5 then [Entry(1), Entry(3), Entry(2)]
    else if n == 6 then [Entry(4), Entry(1), Entry(3)]
    else [Entry(5), Entry(4), Entry(1)]
  }

  lemma SimpleStages(n: nat)
    requires n < 7 == |STOLEN|
    ensures SimpleStep(SimpleStage(n), STOLEN[n], 3) ==
            (SimpleStage(n + 1), [if n == 6 then Entered(Some(Entry(3))) else Answer(n)])
  {
    hide Get;
    hide Put;
    var s := SimpleStage(n);
    if n == 2 || n == 4 {
      SimpleGet(s);
      assert [s[1], s[0]] + s[2..] == SimpleStage(n + 1);
    } else {
      SimplePut(s, STOLEN[n].ced);
      var full := [STOLEN[n].ced] + s;
      assert full[..if |s| < 3 then |s| + 1 else 3] == SimpleStage(n + 1);
    }
  }

  lemma SimplePut(s: seq<Ced>, ced: Ced)
    requires |s| <= 3
    ensures var full := [ced] + s;
            Put(s, ced, 3) == (full[..if |s| < 3 then |s| + 1 else 3], if |s| < 3 then None else Some(full[3]))
  {
    assert ([ced] + s)[..|s| + 1] == [ced] + s;
  }

  lemma SimpleGet(s: seq<Ced>)
    requires |s| > 1 && s[0].key != 1 && s[1] == Entry(1)
    ensures Get(s, 1) == ([s[1], s[0]] + s[2..], Some(Entry(1)))
  {
    assert Keys(s)[0] != 1 && Keys(s)[1] == 1;
    assert IndexOf(Keys(s), 1) == 1;
    assert RemoveAt(s, 1) == [s[0]] + s[2..];
    assert [s[1]] + ([s[0]] + s[2..]) == [s[1], s[0]] + s[2..];
  }

  ghost function Answers(n: nat): seq<Reply> {
    seq(n, i requires 0 <= i < n => Answer(i))
  }

  lemma AnswersGrow(n: nat)
    ensures |STOLEN| == 7 && Answers(0) == []
    ensures n > 0 ==> Answers(n) == Answers(n - 1) + [Answer(n - 1)]
  {
  }

  lemma {:induction false} StolenRun(n: nat)
    requires n <= 7
    ensures |STOLEN| == 7 && Ready(Stage(0)) && Run(Stage(0), STOLEN[..n], 3) == (Stage(n), Answers(n))
  {
    hide *;
    AnswersGrow(n);
    StolenStep(0);
    RunEnds(Stage(0), STOLEN, 3);
    if n > 0 {
      StolenRun(n - 1);
      StolenStep(n - 1);
      RunNext(Stage(0), STOLEN, n - 1, 3);
    }
  }

  lemma {:induction false} SimpleStolenRun(n: nat)
    requires n <= 6
    ensures |STOLEN| == 7 && SimpleRun([], STOLEN[..n], 3) == (SimpleStage(n), Answers(n))
  {
    hide *;
    AnswersGrow(n);
    SimpleEnds([], STOLEN, 3);
    if n == 0 {
      SimpleStart();
    } else {
      SimpleStolenRun(n - 1);
      SimpleStages(n - 1);
      SimpleNext([], STOLEN, n - 1, 3);
    }
  }

  lemma SimpleStart()
    ensures SimpleStage(0) == []
  {
  }

  /**
   Every call of this run is covered, and its handles are all live elements; yet
   the hashed cache evicts entry 1 last, and the simple LRU cache entry 3: the
   second lookup of entry 1 found a handle to an element that is entry 3's by then.
   */
  lemma StolenElement()
    ensures Ready(Stage(0)) && PermitsRun(Stage(0), STOLEN, 3)
    ensures Run(Stage(0), STOLEN, 3).1 == Answers(6) + [Entered(Some(Entry(1)))]
    ensures SimpleRun([], STOLEN, 3).1 == Answers(6) + [Entered(Some(Entry(3)))]
  {
    hide Stage;
    hide SimpleStage;
    hide Permits;
    hide Run;
    hide SimpleRun;
    hide Answers;
    forall i | 0 <= i < |STOLEN|
      ensures Ready(Stage(0)) && Permits(Run(Stage(0), STOLEN[..i], 3).0, STOLEN[i])
    {
      StolenRun(i);
      StolenPermits(i);
    }
    StolenRun(7);
    AnswersGrow(7);
    RunEnds(Stage(0), STOLEN, 3);
    SimpleStolenRun(6);
    SimpleStages(6);
    SimpleNext([], STOLEN, 6, 3);
  }
}
