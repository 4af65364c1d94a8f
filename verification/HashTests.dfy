/** hashtest.c: the loop that looks a key up and enters it when it is not there, on the real hash. */
module HashTests {
  import opened Wrappers
  import opened Lists
  import opened Lru
  import opened Traces
  import opened HashModel
  import opened HashLaws
  import opened HashChecks
  import opened HashRuns
  import opened Hashes
  import opened HashCalls

  const BLENGTH: nat := 1048576

  /**
   One round of the loop: the key, and malloc's answers in it - to the re-insertion
   when the key is found, and when it is not, for the descriptor, for its buffer and
   for the two list elements.
   */
  datatype Request<+H> = Request(key: nat, malloc: Malloc<H>, addr: nat, buf: nat, lruNode: H, hashNode: H) {
    function Lookup(): Call<H> {
      GetCall(key, malloc)
    }

    function Descriptor(): Ced {
      Ced(addr, key, buf, BLENGTH)
    }

    function Entry(): Call<H> {
      PutCall(Descriptor(), Memory(true, true, Some(lruNode), Some(hashNode)))
    }

    lemma CallsAre()
      ensures Lookup() == GetCall(key, malloc) && Descriptor().key == key
      ensures Entry() == PutCall(Descriptor(), Memory(true, true, Some(lruNode), Some(hashNode)))
      ensures Entry().mem.Enough() && Descriptor() == Ced(addr, key, buf, BLENGTH)
    {
    }
  }

  function KeysOf<H>(rs: seq<Request<H>>): (ks: seq<nat>)
    ensures |ks| == |rs| && forall i :: 0 <= i < |ks| ==> ks[i] == rs[i].key
  {
    seq(|rs|, i requires 0 <= i < |rs| => rs[i].key)
  }

  /** The calls of one round. */
  ghost function Round<H, L>(s: State<H, L>, r: Request<H>): seq<Call<H>>
    requires Ready(s)
  {
    if Finds(s.t, r.key) then [r.Lookup()] else [r.Lookup(), r.Entry()]
  }

  /** The calls of the whole loop, each round's depending on what its lookup finds. */
  ghost function CallsOf<H, L>(s: State<H, L>, rs: seq<Request<H>>, cap: nat): seq<Call<H>>
    requires Ready(s)
    decreases |rs|, 0
  {
    if rs == [] then []
    else
      var n := |rs| - 1;
      CallsOf(s, rs[..n], cap) + Round(After(s, rs[..n], cap), rs[n])
  }

  /** The cache after these rounds. */
  ghost function After<H, L>(s: State<H, L>, rs: seq<Request<H>>, cap: nat): (r: State<H, L>)
    requires Ready(s)
    ensures Ready(r)
    decreases |rs|, 1
  {
    Run(s, CallsOf(s, rs, cap), cap).0
  }

  /** How many rounds find their key. */
  ghost function Founds<H, L>(s: State<H, L>, rs: seq<Request<H>>, cap: nat): nat
    requires Ready(s)
  {
    if rs == [] then 0
    else
      var n := |rs| - 1;
      Founds(s, rs[..n], cap) + if Finds(After(s, rs[..n], cap).t, rs[n].key) then 1 else 0
  }

  /** A new buffer is not one that an entry carries. */
  ghost predicate NewBuf<H, L>(s: State<H, L>, r: Request<H>)
    requires Ready(s)
  {
    !Finds(s.t, r.key) ==> forall c <- Ceds(s.t.lru) :: c.buf != r.buf
  }

  ghost predicate NewBufs<H, L>(s: State<H, L>, rs: seq<Request<H>>, cap: nat)
    requires Ready(s)
  {
    forall i :: 0 <= i < |rs| ==> NewBuf(After(s, rs[..i], cap), rs[i])
  }

  // --- One round

  lemma RoundIs<H, L>(s: State<H, L>, r: Request<H>, cap: nat)
    requires Ready(s)
    ensures Finds(s.t, r.key) ==> Run(s, Round(s, r), cap).0 == Step(s, r.Lookup(), cap).0
    ensures !Finds(s.t, r.key) ==> Run(s, Round(s, r), cap).0 == Step(s, r.Entry(), cap).0
    ensures !Finds(s.t, r.key) ==> Step(s, r.Lookup(), cap).0 == s
    ensures PermitsRun(s, Round(s, r), cap) ==> Permits(s, r.Lookup())
    ensures PermitsRun(s, Round(s, r), cap) && !Finds(s.t, r.key) ==> Permits(s, r.Entry())
    ensures RightRun(s, Round(s, r), cap) ==> Right(s, r.Lookup())
  {
    var get, put := r.Lookup(), r.Entry();
    MissKeeps(s, r, cap);
    hide Step;
    hide Permits;
    hide Right;
    hide Finds;
    RunThen(s, [], get, cap);
    RunThen(s, [get], put, cap);
    assert [] + [get] == [get] && [get] + [put] == [get, put];
    RoundStarts(s, get, put);
    if PermitsRun(s, Round(s, r), cap) {
      PermitsAt(s, Round(s, r), 0, cap);
      if !Finds(s.t, r.key) {
        PermitsAt(s, Round(s, r), 1, cap);
      }
    }
    if RightRun(s, Round(s, r), cap) {
      assert Right(Run(s, Round(s, r)[..0], cap).0, Round(s, r)[0]);
    }
  }

  lemma RoundStarts<H, L>(s: State<H, L>, get: Call<H>, put: Call<H>)
    ensures [get][..0] == [] && [get, put][..0] == [] && [get, put][..1] == [get]
  {
  }

  lemma MissKeeps<H, L>(s: State<H, L>, r: Request<H>, cap: nat)
    requires Ready(s)
    ensures !Finds(s.t, r.key) ==> Step(s, r.Lookup(), cap).0 == s
  {
  }

  /** Each LRU item has its mate in its bucket, so a key that is not found is in no entry. */
  lemma MissMeans<H, L>(t: Table<H, L>, key: nat)
    requires Joined(t) && t.Shape() && !Finds(t, key)
    ensures forall c <- Ceds(t.lru) :: c.key != key
  {
    forall i | 0 <= i < |t.lru|
      ensures t.lru[i].ced.key != key
    {
      assert Mated(t, i);
    }
  }

  /** No two entries share a key or a buffer. */
  predicate Differ(s: seq<Ced>) {
    forall i, k :: 0 <= i < k < |s| ==> s[i].key != s[k].key && s[i].buf != s[k].buf
  }

  lemma ToFrontDiffer(s: seq<Ced>, p: nat)
    requires Differ(s) && p < |s|
    ensures Differ(ToFront(s, p))
  {
    var r := ToFront(s, p);
    assert forall k :: 0 <= k < |s| ==> r[k] == s[From(p, k)];
  }

  lemma PutDiffer(s: seq<Ced>, ced: Ced, cap: nat)
    requires Differ(s) && forall c <- s :: c.key != ced.key && c.buf != ced.buf
    ensures Differ(Put(s, ced, cap).0)
  {
    var full := [ced] + s;
    assert forall j :: 1 <= j < |full| ==> full[j] == s[j - 1];
  }

  /** Whatever a lookup promotes, keys and buffers stay different. */
  lemma RoundDiffer<H, L>(s: State<H, L>, r: Request<H>, cap: nat)
    requires Sound(s, cap) && cap > 0 && Differ(Ceds(s.t.lru)) && NewBuf(s, r)
    requires PermitsRun(s, Round(s, r), cap)
    ensures var q := Run(s, Round(s, r), cap).0; Sound(q, cap) && Differ(Ceds(q.t.lru))
  {
    RoundIs(s, r, cap);
    r.CallsAre();
    hide Differ;
    hide Joined;
    hide Permits;
    hide PermitsRun;
    hide Run;
    hide Finds;
    if Finds(s.t, r.key) {
      GetMeans(s, r.key, r.malloc, cap);
      ToFrontDiffer(Ceds(s.t.lru), Aim(s.t, s.at, r.key));
    } else {
      MissMeans(s.t, r.key);
      PutMeans(s, r.Descriptor(), r.Entry().mem, cap);
      PutDiffer(Ceds(s.t.lru), r.Descriptor(), cap);
    }
  }

  lemma GetTouches(s: seq<Ced>, key: nat, cap: nat)
    requires key in Keys(s)
    ensures Keys(Get(s, key).0) == Touch(Keys(s), key, cap)
  {
    var i := IndexOf(Keys(s), key);
    assert Keys(ToFront(s, i)) == ToFront(Keys(s), i);
  }

  lemma PutTouches(s: seq<Ced>, c: Ced, cap: nat)
    requires c.key !in Keys(s)
    ensures Keys(Put(s, c, cap).0) == Touch(Keys(s), c.key, cap)
  {
    assert Keys([c] + s) == [c.key] + Keys(s);
    assert Keys(([c] + s)[..|s|]) == ([c.key] + Keys(s))[..|s|];
  }

  lemma FindsIsIn<H, L>(s: State<H, L>, key: nat, malloc: Malloc<H>, cap: nat)
    requires Sound(s, cap) && InOrder(s.t)
    ensures Ready(s) && (Finds(s.t, key) <==> key in Keys(Ceds(s.t.lru)))
  {
    GetReply(s, key, malloc, cap);
  }

  /** A round that promotes the entry it has found is a request of the client on keys alone. */
  lemma RoundTouches<H, L>(s: State<H, L>, r: Request<H>, cap: nat)
    requires Sound(s, cap) && cap > 0 && InOrder(s.t)
    requires PermitsRun(s, Round(s, r), cap) && RightRun(s, Round(s, r), cap)
    ensures var q := Run(s, Round(s, r), cap).0;
            && Sound(q, cap) && InOrder(q.t)
            && Keys(Ceds(q.t.lru)) == Touch(Keys(Ceds(s.t.lru)), r.key, cap)
    ensures Finds(s.t, r.key) <==> r.key in Keys(Ceds(s.t.lru))
  {
    hide *;
    SoundIsReady(s, cap);
    RoundIs(s, r, cap);
    r.CallsAre();
    FindsIsIn(s, r.key, r.malloc, cap);
    if Finds(s.t, r.key) {
      StepRight(s, r.Lookup(), cap);
      SimpleIs(Ceds(s.t.lru), r.Lookup(), cap);
      GetTouches(Ceds(s.t.lru), r.key, cap);
    } else {
      PutIsRight(s, r.Entry());
      StepRight(s, r.Entry(), cap);
      SimpleIs(Ceds(s.t.lru), r.Entry(), cap);
      PutTouches(Ceds(s.t.lru), r.Descriptor(), cap);
    }
  }

  lemma SimpleIs<H>(s: seq<Ced>, call: Call<H>, cap: nat)
    ensures call.GetCall? ==> SimpleStep(s, call, cap).0 == Get(s, call.key).0
    ensures call.PutCall? && call.mem.Enough() ==> SimpleStep(s, call, cap).0 == Put(s, call.ced, cap).0
  {
  }

  lemma PutIsRight<H, L>(s: State<H, L>, call: Call<H>)
    requires Ready(s) && call.PutCall?
    ensures Right(s, call)
  {
  }

  // --- The whole loop

  lemma NoRounds<H, L>(s: State<H, L>, rs: seq<Request<H>>, cap: nat)
    requires Ready(s)
    ensures CallsOf(s, rs[..0], cap) == [] && After(s, rs[..0], cap) == s && Founds(s, rs[..0], cap) == 0
    ensures rs[..|rs|] == rs
  {
  }

  /** One more round. */
  lemma NextRound<H, L>(s: State<H, L>, rs: seq<Request<H>>, i: nat, cap: nat)
    requires Ready(s) && i < |rs|
    ensures var q := After(s, rs[..i], cap);
            && CallsOf(s, rs[..i + 1], cap) == CallsOf(s, rs[..i], cap) + Round(q, rs[i])
            && After(s, rs[..i + 1], cap) == Run(q, Round(q, rs[i]), cap).0
            && Founds(s, rs[..i + 1], cap) == Founds(s, rs[..i], cap) + if Finds(q.t, rs[i].key) then 1 else 0
  {
    hide Run;
    hide Round;
    hide Finds;
    assert rs[..i + 1][..i] == rs[..i];
    RunConcat(s, CallsOf(s, rs[..i], cap), Round(After(s, rs[..i], cap), rs[i]), cap);
  }

  /** A run of rounds that is covered is covered up to every round, and in it. */
  lemma {:induction false} RoundPermitted<H, L>(s: State<H, L>, rs: seq<Request<H>>, i: nat, n: nat, cap: nat)
    requires Ready(s) && i < n <= |rs| && PermitsRun(s, CallsOf(s, rs[..n], cap), cap)
    ensures PermitsRun(After(s, rs[..i], cap), Round(After(s, rs[..i], cap), rs[i]), cap)
  {
    hide *;
    NextRound(s, rs, n - 1, cap);
    AfterIs(s, rs[..n - 1], cap);
    PermitsParts(s, CallsOf(s, rs[..n - 1], cap), Round(After(s, rs[..n - 1], cap), rs[n - 1]), cap);
    if i < n - 1 {
      RoundPermitted(s, rs, i, n - 1, cap);
    }
  }

  lemma {:induction false} RoundRight<H, L>(s: State<H, L>, rs: seq<Request<H>>, i: nat, n: nat, cap: nat)
    requires Ready(s) && i < n <= |rs| && RightRun(s, CallsOf(s, rs[..n], cap), cap)
    ensures RightRun(After(s, rs[..i], cap), Round(After(s, rs[..i], cap), rs[i]), cap)
  {
    hide *;
    NextRound(s, rs, n - 1, cap);
    AfterIs(s, rs[..n - 1], cap);
    RightParts(s, CallsOf(s, rs[..n - 1], cap), Round(After(s, rs[..n - 1], cap), rs[n - 1]), cap);
    if i < n - 1 {
      RoundRight(s, rs, i, n - 1, cap);
    }
  }

  lemma AfterIs<H, L>(s: State<H, L>, rs: seq<Request<H>>, cap: nat)
    requires Ready(s)
    ensures After(s, rs, cap) == Run(s, CallsOf(s, rs, cap), cap).0
  {
  }

  lemma NewBufAt<H, L>(s: State<H, L>, rs: seq<Request<H>>, i: nat, cap: nat)
    requires Ready(s) && NewBufs(s, rs, cap) && i < |rs|
    ensures NewBuf(After(s, rs[..i], cap), rs[i])
  {
  }

  /** Over every covered run, right or not, no two entries ever share a key or a buffer. */
  lemma {:induction false} RoundsDiffer<H, L>(s: State<H, L>, rs: seq<Request<H>>, n: nat, cap: nat)
    requires Sound(s, cap) && cap > 0 && Differ(Ceds(s.t.lru)) && n <= |rs|
    requires PermitsRun(s, CallsOf(s, rs, cap), cap) && NewBufs(s, rs, cap)
    ensures var q := After(s, rs[..n], cap); Sound(q, cap) && Differ(Ceds(q.t.lru))
  {
    hide *;
    SoundIsReady(s, cap);
    NoRounds(s, rs, cap);
    if n > 0 {
      var i := n - 1;
      RoundsDiffer(s, rs, i, cap);
      RoundPermitted(s, rs, i, |rs|, cap);
      NewBufAt(s, rs, i, cap);
      NextRound(s, rs, i, cap);
      RoundDiffer(After(s, rs[..i], cap), rs[i], cap);
    }
  }

  lemma NextRequest<H>(rs: seq<Request<H>>, i: nat, cap: nat)
    requires i < |rs|
    ensures KeysOf(rs[..0]) == [] && Contents([], cap) == [] && Hits([], cap) == 0
    ensures var ks, key := KeysOf(rs[..i]), rs[i].key;
            && Contents(KeysOf(rs[..i + 1]), cap) == Touch(Contents(ks, cap), key, cap)
            && Hits(KeysOf(rs[..i + 1]), cap) == Hits(ks, cap) + if key in Contents(ks, cap) then 1 else 0
  {
    var ks := KeysOf(rs[..i + 1]);
    assert ks[..|ks| - 1] == KeysOf(rs[..i]) && ks[|ks| - 1] == rs[i].key;
  }

  /**
   As long as every lookup promotes the entry it has found, the keys are those of
   the client on keys alone, and so are the hits.
   */
  lemma {:induction false} RoundsTouch<H, L>(s: State<H, L>, rs: seq<Request<H>>, n: nat, cap: nat)
    requires Sound(s, cap) && cap > 0 && InOrder(s.t) && Ceds(s.t.lru) == [] && n <= |rs|
    requires PermitsRun(s, CallsOf(s, rs, cap), cap) && RightRun(s, CallsOf(s, rs, cap), cap)
    ensures var q := After(s, rs[..n], cap);
            && Sound(q, cap) && InOrder(q.t)
            && Keys(Ceds(q.t.lru)) == Contents(KeysOf(rs[..n]), cap)
            && Founds(s, rs[..n], cap) == Hits(KeysOf(rs[..n]), cap)
  {
    hide *;
    SoundIsReady(s, cap);
    NoRounds(s, rs, cap);
    if n > 0 {
      var i := n - 1;
      RoundsTouch(s, rs, i, cap);
      RoundPermitted(s, rs, i, |rs|, cap);
      RoundRight(s, rs, i, |rs|, cap);
      NextRound(s, rs, i, cap);
      NextRequest(rs, i, cap);
      RoundTouches(After(s, rs[..i], cap), rs[i], cap);
    } else {
      assert KeysOf(rs[..0]) == [] && Keys([]) == [];
      NothingRequested(cap);
    }
  }

  lemma NothingRequested(cap: nat)
    ensures Contents([], cap) == [] && Hits([], cap) == 0
  {
  }

  // --- The loop on the hash

  ghost function BlocksOfRound(r: Request<Node<HashItem>>): set<Node<HashItem>> {
    BlocksOf(r.Lookup()) + BlocksOf(r.Entry())
  }

  /** The list elements that malloc may hand out in these rounds. */
  ghost function BlocksOfRounds(rs: seq<Request<Node<HashItem>>>): set<Node<HashItem>> {
    set r <- rs, n <- BlocksOfRound(r) :: n
  }

  lemma BlocksInRounds(rs: seq<Request<Node<HashItem>>>, i: nat)
    requires i < |rs|
    ensures BlocksOfRound(rs[i]) <= BlocksOfRounds(rs)
  {
    assert rs[i] in rs;
  }

  lemma BlocksExist(rs: seq<Request<Node<HashItem>>>)
    ensures forall n <- BlocksOfRounds(rs) :: allocated(n)
  {
  }

  /** What the loop keeps of the counters. */
  predicate Tally(s: Stats, rounds: nat, founds: nat) {
    s.checks == U64(rounds) && s.hits == U64(founds) && s.insertions == s.misses
  }

  lemma TallyIs(s: Stats, rounds: nat, founds: nat)
    ensures Tally(s, rounds, founds) <==>
              s.checks == U64(rounds) && s.hits == U64(founds) && s.insertions == s.misses
    ensures s == Stats(0, 0, 0, 0, 0) ==> Tally(s, 0, 0)
  {
  }

  /** The counters after a hit, and after a miss and the insertion it leads to. */
  lemma TallyRound(s: Stats, rounds: nat, founds: nat, found: Option<Ced>, evicted: Option<Ced>)
    requires Tally(s, rounds, founds)
    ensures found.Some? ==> Tally(Counted(s, [Found(found)]), rounds + 1, founds + 1)
    ensures found.None? ==> Tally(Counted(Counted(s, [Found(found)]), [Entered(evicted)]), rounds + 1, founds)
  {
    U64Absorbs(rounds, 1);
    U64Absorbs(founds, 1);
    hide U64;
    CountedIs(s, found);
    CountedIs(CountMiss(s), evicted);
    hide Counted;
  }

  /** What the calls of one round answer. */
  lemma RoundAnswers<H, L>(s: State<H, L>, r: Request<H>, cap: nat)
    requires Sound(s, cap) && Ready(s)
    ensures exists ced: Option<Ced> ::
              Step(s, r.Lookup(), cap).1 == [Found(ced)] && (ced.Some? <==> Finds(s.t, r.key))
    ensures exists evicted: Option<Ced> :: Step(s, r.Entry(), cap).1 == [Entered(evicted)]
  {
    if Finds(s.t, r.key) {
      AimInside(s, r.key);
    }
    hide Joined;
    hide Finds;
    var ced := Step(s, r.Lookup(), cap).1[0].ced;
    assert Step(s, r.Lookup(), cap).1 == [Found(ced)];
    var evicted := Step(s, r.Entry(), cap).1[0].evicted;
    assert Step(s, r.Entry(), cap).1 == [Entered(evicted)];
  }

  lemma BlocksOfRoundAre(r: Request<Node<HashItem>>)
    ensures BlocksOfRound(r) == BlocksOf(r.Lookup()) + BlocksOf(r.Entry())
  {
  }

  /** One round of the loop. */
  method Go(h: Hash, r: Request<Node<HashItem>>, ghost rounds: nat, ghost founds: nat)
    requires h.Valid() && Ready(h.Now()) && PermitsRun(h.Now(), Round(h.Now(), r), h.maxItems)
    requires Tally(h.stats, rounds, founds)
    modifies h, h.Repr, BlocksOfRound(r)
    ensures h.Valid() && fresh(h.Repr - old(h.Repr) - BlocksOfRound(r)) && old(Ready(h.Now()))
    ensures h.Now() == old(Run(h.Now(), Round(h.Now(), r), h.maxItems).0)
    ensures Tally(h.stats, rounds + 1, founds + if old(Finds(h.Now().t, r.key)) then 1 else 0)
  {
    hide *;
    ghost var s, stats, cap := h.Now(), h.stats, h.maxItems;
    ghost var q: Request<Handle> := r;
    h.ValidIs();
    h.TableIs();
    h.NowIs();
    h.Bounds();
    BlocksOfRoundAre(r);
    r.CallsAre();
    q.CallsAre();
    RoundIs(s, q, cap);
    RoundAnswers(s, q, cap);
    ghost var ced :| Step(s, q.Lookup(), cap).1 == [Found(ced)] && (ced.Some? <==> Finds(s.t, r.key));
    ghost var evicted :| Step(s, q.Entry(), cap).1 == [Entered(evicted)];
    TallyRound(stats, rounds, founds, ced, evicted);
    var out := Use(h, r.Lookup());
    if out == [Found(None)] {
      out := Use(h, r.Entry());
    }
  }

  /** A cache as hash_create leaves it. */
  ghost predicate New(h: Hash)
    reads h, h.Repr
  {
    h.Valid() && Ready(h.Now()) && h.view.lru == [] && h.stats == Stats(0, 0, 0, 0, 0)
  }

  lemma NewMeans(h: Hash)
    requires New(h)
    ensures h.Valid() && Ready(h.Now()) && h.stats == Stats(0, 0, 0, 0, 0)
    ensures Ceds(h.view.lru) == [] && h.Now().t == h.view && h.view.Shape() && InOrder(h.view) && Differ([])
  {
  }

  /** The loop of hash_test. */
  method Loop(h: Hash, rs: seq<Request<Node<HashItem>>>)
    requires New(h) && PermitsRun(h.Now(), CallsOf(h.Now(), rs, h.maxItems), h.maxItems)
    modifies h, h.Repr, BlocksOfRounds(rs)
    ensures h.Valid() && fresh(h.Repr - old(h.Repr) - BlocksOfRounds(rs)) && old(Ready(h.Now()))
    ensures h.Now() == After(old(h.Now()), rs, h.maxItems)
    ensures Tally(h.stats, |rs|, Founds(old(h.Now()), rs, h.maxItems))
  {
    hide *;
    ghost var s, cap := h.Now(), h.maxItems;
    NewMeans(h);
    NoRounds(s, rs, cap);
    TallyIs(h.stats, 0, 0);
    var i := 0;
    while i < |rs|
      invariant i <= |rs| && h.Valid() && fresh(h.Repr - old(h.Repr) - BlocksOfRounds(rs))
      invariant h.Now() == After(s, rs[..i], cap)
      invariant Tally(h.stats, i, Founds(s, rs[..i], cap))
    {
      RoundPermitted(s, rs, i, |rs|, cap);
      NextRound(s, rs, i, cap);
      BlocksInRounds(rs, i);
      Go(h, rs[i], i, Founds(s, rs[..i], cap));
      i := i + 1;
    }
  }

  /**
   The whole program, for every sequence of keys and every allocator.  Wherever the
   handles lead, keys and buffers stay different, every round is counted as a hit or
   as a miss with its insertion, and hash_check complains exactly when an entry has
   moved to another list element since it was put in.  As long as every lookup
   promotes the entry it has found, the cache holds the most recently requested
   distinct keys in order, and the hit counter has counted exactly the requests
   that found their key there.
   */
  method Play(h: Hash, rs: seq<Request<Node<HashItem>>>) returns (complained: bool)
    requires New(h) && PermitsRun(h.Now(), CallsOf(h.Now(), rs, h.maxItems), h.maxItems)
    requires NewBufs(h.Now(), rs, h.maxItems)
    modifies h, h.Repr, BlocksOfRounds(rs)
    ensures h.Valid() && fresh(h.Repr - old(h.Repr) - BlocksOfRounds(rs)) && old(Ready(h.Now()))
    ensures h.view == After(old(h.Now()), rs, h.maxItems).t && Differ(Ceds(h.view.lru))
    ensures Tally(h.stats, |rs|, Founds(old(h.Now()), rs, h.maxItems))
    ensures h.view.Shape() && (complained <==> !UpToDate(h.view))
    ensures old(RightRun(h.Now(), CallsOf(h.Now(), rs, h.maxItems), h.maxItems)) ==>
              && Keys(Ceds(h.view.lru)) == Take(Recency(KeysOf(rs)), h.maxItems)
              && Founds(old(h.Now()), rs, h.maxItems) == Hits(KeysOf(rs), h.maxItems)
  {
    hide *;
    ghost var s, cap := h.Now(), h.maxItems;
    NewMeans(h);
    h.ValidIs();
    h.TableIs();
    h.Bounds();
    NoRounds(s, rs, cap);
    RoundsDiffer(s, rs, |rs|, cap);
    RightLoop(s, rs, cap);
    SameKeys(rs);
    Loop(h, rs);
    h.ValidIs();
    h.NowIs();
    complained := Finish(h);
  }

  lemma SameKeys(rs: seq<Request<Node<HashItem>>>)
    ensures KeysOf<Handle>(rs) == KeysOf(rs)
  {
  }

  lemma RightLoop<H, L>(s: State<H, L>, rs: seq<Request<H>>, cap: nat)
    requires Sound(s, cap) && cap > 0 && InOrder(s.t) && Ceds(s.t.lru) == [] && Ready(s)
    requires PermitsRun(s, CallsOf(s, rs, cap), cap)
    ensures RightRun(s, CallsOf(s, rs, cap), cap) ==>
              && Keys(Ceds(After(s, rs, cap).t.lru)) == Take(Recency(KeysOf(rs)), cap)
              && Founds(s, rs, cap) == Hits(KeysOf(rs), cap)
  {
    hide *;
    NoRounds(s, rs, cap);
    if RightRun(s, CallsOf(s, rs, cap), cap) {
      RoundsTouch(s, rs, |rs|, cap);
      ContentsAreMostRecent(KeysOf(rs), cap);
    }
  }

  /** hash_print and hash_check at the end. */
  method Finish(h: Hash) returns (complained: bool)
    requires h.Valid() && Differ(Ceds(h.view.lru))
    modifies h.lru`curr, h.lru`at, h.table`curr, h.table`at
    ensures h.Valid() && h.view.Shape() && (complained <==> !UpToDate(h.view))
  {
    hide *;
    h.ValidIs();
    h.TableIs();
    h.Bounds();
    h.ViewIsSeparate();
    CheckTells(h.view, h.maxItems);
    h.Print();
    complained := h.Check();
    h.ValidIs();
  }

  lemma CheckTells(t: View, cap: nat)
    requires Separate(t) && Joined(t) && t.Shape() && |t.lru| <= cap && Differ(Ceds(t.lru))
    ensures Consistent(t, cap) <==> UpToDate(t)
  {
    assert forall i :: 0 <= i < |t.lru| ==> Ceds(t.lru)[i] == t.lru[i].ced;
    JoinedConsistent(t, cap);
  }

  /** A new cache and rounds for it, with every lookup promoting the entry it finds. */
  ghost predicate Fit(h: Hash, rs: seq<Request<Node<HashItem>>>)
    reads h, h.Repr
  {
    && New(h) && NewBufs(h.Now(), rs, h.maxItems)
    && PermitsRun(h.Now(), CallsOf(h.Now(), rs, h.maxItems), h.maxItems)
    && RightRun(h.Now(), CallsOf(h.Now(), rs, h.maxItems), h.maxItems)
  }

  lemma FitMeans(h: Hash, rs: seq<Request<Node<HashItem>>>)
    requires Fit(h, rs)
    ensures New(h) && Ready(h.Now()) && NewBufs(h.Now(), rs, h.maxItems)
    ensures PermitsRun(h.Now(), CallsOf(h.Now(), rs, h.maxItems), h.maxItems)
    ensures RightRun(h.Now(), CallsOf(h.Now(), rs, h.maxItems), h.maxItems)
  {
  }

  method PlayFit(h: Hash, rs: seq<Request<Node<HashItem>>>)
    requires Fit(h, rs)
    modifies h, h.Repr, BlocksOfRounds(rs)
    ensures h.Valid() && fresh(h.Repr - old(h.Repr) - BlocksOfRounds(rs))
    ensures Keys(Ceds(h.view.lru)) == Take(Recency(KeysOf(rs)), h.maxItems)
    ensures h.stats.hits == U64(Hits(KeysOf(rs), h.maxItems))
  {
    hide *;
    FitMeans(h, rs);
    ghost var founds := Founds(h.Now(), rs, h.maxItems);
    var complained := Play(h, rs);
    TallyIs(h.stats, |rs|, founds);
  }

  lemma TwoSizes(ks: seq<nat>, m: nat, n: nat)
    requires 0 < m <= n && |ks| < 0x1_0000_0000_0000_0000
    ensures Take(Recency(ks), m) == Take(Take(Recency(ks), n), m) && U64(Hits(ks, m)) <= U64(Hits(ks, n))
  {
    Inclusion(ks, m, n);
    ContentsAreMostRecent(ks, m);
    ContentsAreMostRecent(ks, n);
    LargerCacheHitsMore(ks, m, n);
  }

  /**
   The same keys on a smaller and a larger cache, each with its own allocator: the
   smaller one's entries have the first of the larger one's keys, and it has
   counted no more hits.
   */
  method PlayTwoSizes(small: Hash, large: Hash, rs: seq<Request<Node<HashItem>>>, qs: seq<Request<Node<HashItem>>>)
    requires Fit(small, rs) && Fit(large, qs) && small.maxItems <= large.maxItems
    requires KeysOf(rs) == KeysOf(qs) && |rs| < 0x1_0000_0000_0000_0000
    requires small != large && small !in large.Repr && large !in small.Repr
    requires small.Repr + BlocksOfRounds(rs) !! large.Repr + BlocksOfRounds(qs)
    modifies small, small.Repr, BlocksOfRounds(rs), large, large.Repr, BlocksOfRounds(qs)
    ensures small.Valid() && large.Valid()
    ensures Keys(Ceds(small.view.lru)) == Take(Keys(Ceds(large.view.lru)), small.maxItems)
    ensures small.stats.hits <= large.stats.hits
  {
    hide *;
    FitMeans(small, rs);
    FitMeans(large, qs);
    NewMeans(small);
    NewMeans(large);
    small.ValidIs();
    small.TableIs();
    TwoSizes(KeysOf(rs), small.maxItems, large.maxItems);
    BlocksExist(qs);
    PlayFit(small, rs);
    PlayFit(large, qs);
  }
}
