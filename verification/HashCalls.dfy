/** Calls on the real hash: one call, and every run of calls. */
module HashCalls {
  import opened Wrappers
  import opened Lists
  import opened Lru
  import opened HashModel
  import opened HashRuns
  import opened Hashes

  type HashState = State<Handle, List<HashItem>>
  type HashCall = Call<Node<HashItem>>

  /** The blocks that malloc hands out in a call. */
  ghost function BlocksOf(call: HashCall): set<Node<HashItem>> {
    match call
    case Look => {}
    case GetCall(_, malloc) => List.Given(malloc)
    case PutCall(_, mem) => Hash.Blocks(mem)
  }

  ghost function BlocksIn(calls: seq<HashCall>): set<Node<HashItem>> {
    set call <- calls, n <- BlocksOf(call) :: n
  }

  lemma BlocksInside(calls: seq<HashCall>, i: nat)
    requires i < |calls|
    ensures BlocksOf(calls[i]) <= BlocksIn(calls)
  {
    assert calls[i] in calls;
  }

  function Count(s: Stats, reply: Reply): Stats {
    match reply
    case Found(found) => if found.Some? then CountHit(s) else CountMiss(s)
    case Entered(evicted) => CountPut(s, evicted.Some?)
    case Refused => s
  }

  /** The counters after these replies. */
  function Counted(s: Stats, out: seq<Reply>): Stats {
    if out == [] then s else Count(Counted(s, out[..|out| - 1]), out[|out| - 1])
  }

  lemma CountedIs(s: Stats, found: Option<Ced>)
    ensures Counted(s, []) == s && Counted(s, [Refused]) == s
    ensures Counted(s, [Found(found)]) == if found.Some? then CountHit(s) else CountMiss(s)
    ensures Counted(s, [Entered(found)]) == CountPut(s, found.Some?)
  {
    hide CountHit;
    hide CountMiss;
    hide CountPut;
  }

  lemma {:induction false} CountedConcat(s: Stats, out: seq<Reply>, more: seq<Reply>)
    ensures Counted(s, out + more) == Counted(Counted(s, out), more)
  {
    if more == [] {
      assert out + more == out;
    } else {
      var n := |more| - 1;
      CountedConcat(s, out, more[..n]);
      assert (out + more)[..|out| + n] == out + more[..n];
    }
  }

  /** The cases of HashRuns.Step. */
  lemma StepIs(s: HashState, call: HashCall, cap: nat)
    requires Ready(s)
    ensures call.Look? ==> Step(s, call, cap) == (State(s.t, if s.t.lru == [] then s.at else |s.t.lru| - 1), [])
    ensures call.GetCall? ==>
              var (t, at, found) := Fetch(s.t, s.at, call.key, call.malloc);
              Step(s, call, cap) == (State(t, at), [Found(found)])
    ensures call.PutCall? ==>
              var (r, reply) := PutStep(s, call.ced, call.mem, cap);
              Step(s, call, cap) == (r, [reply])
    ensures BlocksOf(call) == match call
                              case Look => {}
                              case GetCall(_, malloc) => List.Given(malloc)
                              case PutCall(_, mem) => Hash.Blocks(mem)
  {
  }

  /** What a covered call gives hash_get. */
  lemma GetPermits(h: Hash, key: nat, malloc: Malloc<Node<HashItem>>)
    requires h.WellFormed() && Ready(h.Now()) && h.Now().t == h.view && h.Now().at == h.lru.at
    requires Permits(h.Now(), GetCall(key, malloc))
    ensures h.view.Shape() && (Finds(h.view, key) ==> h.Usable(Stored(h.view, key)))
    ensures malloc.Gives? ==> !Live(h.view, malloc.block)
    ensures malloc != Fails || !Finds(h.view, key) || Aim(h.view, h.lru.at, key) == 0
  {
    if Finds(h.view, key) {
      h.LiveMeans(Stored(h.view, key));
    }
  }

  /** One call: the hash is the state machine of HashRuns. */
  method Use(h: Hash, call: HashCall) returns (out: seq<Reply>)
    requires h.Valid() && Ready(h.Now()) && Permits(h.Now(), call)
    modifies h, h.Repr, BlocksOf(call)
    ensures h.Valid() && fresh(h.Repr - old(h.Repr) - BlocksOf(call)) && old(Ready(h.Now()))
    ensures (h.Now(), out) == Step(old(h.Now()), call, h.maxItems)
    ensures h.stats == Counted(old(h.stats), out)
  {
    hide *;
    h.ValidIs();
    h.TableIs();
    h.NowIs();
    h.CursorInside();
    StepIs(h.Now(), call, h.maxItems);
    match call {
      case Look =>
        h.Print();
        var complained := h.Check();
        out := [];
        CountedIs(h.stats, None);
        h.ValidIs();
      case GetCall(key, malloc) =>
        GetPermits(h, key, malloc);
        ghost var s := h.stats;
        var found := h.Get(key, malloc);
        out := [Found(found)];
        CountedIs(s, found);
        h.ValidIs();
      case PutCall(ced, mem) =>
        ghost var s := h.stats;
        var rc, evicted := h.Put(Some(ced), mem);
        out := [if rc == 0 then Entered(evicted) else Refused];
        CountedIs(s, evicted);
        h.ValidIs();
    }
    h.NowIs();
  }

  /** Every covered run of calls. */
  method Play(h: Hash, calls: seq<HashCall>) returns (out: seq<Reply>)
    requires h.Valid() && Ready(h.Now()) && PermitsRun(h.Now(), calls, h.maxItems)
    modifies h, h.Repr, BlocksIn(calls)
    ensures h.Valid() && fresh(h.Repr - old(h.Repr) - BlocksIn(calls)) && old(Ready(h.Now()))
    ensures (h.Now(), out) == Run(old(h.Now()), calls, h.maxItems)
    ensures h.stats == Counted(old(h.stats), out)
  {
    hide *;
    ghost var s, stats := h.Now(), h.stats;
    RunEnds(s, calls, h.maxItems);
    CountedIs(stats, None);
    out := [];
    var i := 0;
    while i < |calls|
      invariant i <= |calls| && h.Valid() && fresh(h.Repr - old(h.Repr) - BlocksIn(calls))
      invariant (h.Now(), out) == Run(s, calls[..i], h.maxItems)
      invariant h.stats == Counted(stats, out)
    {
      PermitsAt(s, calls, i, h.maxItems);
      RunNext(s, calls, i, h.maxItems);
      BlocksInside(calls, i);
      var more := Use(h, calls[i]);
      CountedConcat(stats, out, more);
      out := out + more;
      i := i + 1;
    }
  }
}
