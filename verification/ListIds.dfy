/**
 How list_create hands out list ids: threads read a global counter and try to
 compare-and-swap it forward, reading again whenever the swap fails.  A run is
 any interleaving of these two steps by any number of threads.
 */
module ListIds {
  import opened Zippers
  import opened Lists

  const FIRST_ID: nat := 1000

  /** A thread is about to read the counter, or has read it, after so many swaps, and is about to swap. */
  datatype Local = Reading | Swapping(value: nat, swaps: nat)

  datatype Issue = Issue(thread: nat, id: nat)

  /** `issued` lists the successful swaps in the order they happened. */
  datatype State = State(counter: nat, locals: seq<Local>, issued: seq<Issue>)

  function Init(threads: nat): State {
    State(FIRST_ID, seq(threads, _ => Reading), [])
  }

  /** The next step of thread t's loop.  A thread that got its id may call list_create again. */
  function Step(s: State, t: nat): State {
    if t >= |s.locals| then s
    else match s.locals[t]
      case Reading =>
        s.(locals := s.locals[t := Swapping(s.counter, |s.issued|)])
      case Swapping(value, _) =>
        if s.counter == value then
          State(U32(value + 1), s.locals[t := Reading], s.issued + [Issue(t, value)])
        else
          s.(locals := s.locals[t := Reading])
  }

  function Run(s: State, schedule: seq<nat>): State
    decreases |schedule|
  {
    if schedule == [] then s else Run(Step(s, schedule[0]), schedule[1..])
  }

  ghost predicate Inv(s: State) {
    && s.counter == U32(FIRST_ID + |s.issued|)
    && (forall k :: 0 <= k < |s.issued| ==> s.issued[k].id == U32(FIRST_ID + k))
    && (forall t {:trigger s.locals[t]} :: 0 <= t < |s.locals| && s.locals[t].Swapping? ==>
          && s.locals[t].swaps <= |s.issued|
          && s.locals[t].value == U32(FIRST_ID + s.locals[t].swaps)
          && forall k :: s.locals[t].swaps <= k < |s.issued| ==> s.issued[k].thread != t)
  }

  lemma {:induction false} InvHolds(s: State, schedule: seq<nat>)
    requires Inv(s)
    ensures Inv(Run(s, schedule))
    decreases |schedule|
  {
    if schedule != [] {
      InvHolds(Step(s, schedule[0]), schedule[1..]);
    }
  }

  /** Thread t is about to swap, and the counter still has the value it has read. */
  predicate Wins(s: State, t: nat) {
    t < |s.locals| && s.locals[t].Swapping? && s.locals[t].value == s.counter
  }

  /** The threads whose swaps find the counter as they have read it, in order. */
  function Winners(s: State, schedule: seq<nat>): seq<nat>
    decreases |schedule|
  {
    if schedule == [] then []
    else (if Wins(s, schedule[0]) then [schedule[0]] else []) + Winners(Step(s, schedule[0]), schedule[1..])
  }

  function Threads(issued: seq<Issue>): (r: seq<nat>)
    ensures |r| == |issued| && forall k :: 0 <= k < |r| ==> r[k] == issued[k].thread
  {
    seq(|issued|, k requires 0 <= k < |issued| => issued[k].thread)
  }

  /** Each of them gets an id, in that order, and nobody else does. */
  lemma {:induction false} WinnersAreIssued(s: State, schedule: seq<nat>)
    ensures Threads(Run(s, schedule).issued) == Threads(s.issued) + Winners(s, schedule)
    decreases |schedule|
  {
    if schedule != [] {
      var t := schedule[0];
      WinnersAreIssued(Step(s, t), schedule[1..]);
      StepIssues(s, t);
    }
  }

  lemma StepIssues(s: State, t: nat)
    ensures Threads(Step(s, t).issued) == Threads(s.issued) + if Wins(s, t) then [t] else []
  {
  }

  /**
   In every interleaving each swap that finds the counter unchanged hands out one id,
   and the ids are the consecutive values from 1000, wrapping at 2^32.
   */
  lemma IdsAreConsecutive(threads: nat, schedule: seq<nat>)
    ensures var issued := Run(Init(threads), schedule).issued;
            && Threads(issued) == Winners(Init(threads), schedule)
            && forall k :: 0 <= k < |issued| ==> issued[k].id == U32(FIRST_ID + k)
  {
    InvHolds(Init(threads), schedule);
    WinnersAreIssued(Init(threads), schedule);
  }

  ghost predicate IdsDistinct(issued: seq<Issue>) {
    forall j, k :: 0 <= j < k < |issued| ==> issued[j].id != issued[k].id
  }

  /** They are pairwise distinct for exactly as long as the 32-bit counter has not gone round. */
  lemma IdsAreDistinct(threads: nat, schedule: seq<nat>)
    ensures var issued := Run(Init(threads), schedule).issued;
            IdsDistinct(issued) <==> |issued| <= 0x1_0000_0000
  {
    IdsAreConsecutive(threads, schedule);
    var issued := Run(Init(threads), schedule).issued;
    if |issued| > 0x1_0000_0000 {
      assert issued[0].id == issued[0x1_0000_0000].id;
    }
  }

  lemma RoundTheClock(a: nat, n: int)
    ensures n >= 0 ==> (U32(a + n) == U32(a) <==> n % 0x1_0000_0000 == 0)
  {
  }

  /**
   A swap fails only because some other thread's swap succeeded since the read:
   precisely, it succeeds when the number of swaps in between is a multiple of 2^32.
   */
  lemma FailedSwapMeansRival(threads: nat, schedule: seq<nat>, t: nat)
    requires var s := Run(Init(threads), schedule); t < |s.locals| && s.locals[t].Swapping?
    ensures var s := Run(Init(threads), schedule);
            var between := |s.issued| - s.locals[t].swaps;
            && between >= 0
            && (Wins(s, t) <==> between % 0x1_0000_0000 == 0)
            && (!Wins(s, t) ==>
                  exists k :: s.locals[t].swaps <= k < |s.issued| && s.issued[k].thread != t)
  {
    hide U32;
    hide Run;
    InvHolds(Init(threads), schedule);
    var s := Run(Init(threads), schedule);
    RoundTheClock(FIRST_ID + s.locals[t].swaps, |s.issued| - s.locals[t].swaps);
    if !Wins(s, t) {
      assert s.issued[s.locals[t].swaps].thread != t;
    }
  }

  // --- Progress

  /** A thread that nobody disturbs has the next id after its read and its swap. */
  lemma AloneGetsNext(s: State, t: nat)
    requires t < |s.locals| && s.locals[t] == Reading
    ensures Run(s, [t, t]) == State(U32(s.counter + 1), s.locals, s.issued + [Issue(t, s.counter)])
  {
    var q := Step(s, t);
    assert [t, t][1..] == [t] && [t][1..] == [];
    assert Run(s, [t, t]) == Run(q, [t]) == Step(q, t);
    assert s.locals[t := q.locals[t]][t := Reading] == s.locals;
  }

  /** How many steps thread t can make before it either gets an id or sees that another thread got one. */
  function StepsLeft(s: State, t: nat): nat
    requires t < |s.locals|
  {
    if s.locals[t].Reading? then 1 else if Wins(s, t) then 0 else 2
  }

  lemma StepUses(s: State, u: nat, t: nat)
    requires t < |s.locals| && Step(s, u).issued == s.issued
    ensures |Step(s, u).locals| == |s.locals|
    ensures StepsLeft(Step(s, u), t) + (if u == t then 1 else 0) <= StepsLeft(s, t)
  {
  }

  lemma {:induction false} IssuedGrows(s: State, schedule: seq<nat>)
    ensures s.issued <= Run(s, schedule).issued
    decreases |schedule|
  {
    if schedule != [] {
      IssuedGrows(Step(s, schedule[0]), schedule[1..]);
    }
  }

  /**
   The loop is lock-free: whatever the interleaving and wherever the threads stand,
   while one thread makes three steps some thread gets an id.
   */
  lemma {:induction false} LockFree(s: State, schedule: seq<nat>, t: nat)
    requires t < |s.locals| && multiset(schedule)[t] > StepsLeft(s, t)
    ensures s.issued < Run(s, schedule).issued
    ensures StepsLeft(s, t) <= 2
    decreases |schedule|
  {
    IssuedGrows(s, schedule);
    var u, q := schedule[0], Step(s, schedule[0]);
    assert schedule == [u] + schedule[1..];
    if q.issued == s.issued {
      StepUses(s, u, t);
      LockFree(q, schedule[1..], t);
    } else {
      IssuedGrows(q, schedule[1..]);
    }
  }

  // --- One thread's loop, the others given by what they do to it

  class Counter {
    var next: nat
    constructor ()
      ensures next == FIRST_ID
    {
      next := FIRST_ID;
    }
  }

  function Sum(s: seq<nat>): nat {
    if s == [] then 0 else Sum(s[..|s| - 1]) + s[|s| - 1]
  }

  /**
   The loop of list_create; rivals[k] is the number of successful swaps of other
   threads between its k-th read and its k-th swap.  It returns after the first
   attempt that nobody disturbed (or disturbed a multiple of 2^32 times), with the
   id that comes next after all the ids the rivals took before.
   */
  method TakeId(ids: Counter, rivals: seq<nat>) returns (id: nat, failures: nat)
    requires ids.next < 0x1_0000_0000
    modifies ids
    ensures failures <= |rivals|
    ensures forall k :: 0 <= k < failures ==> U32(rivals[k]) != 0
    ensures failures < |rivals| ==> U32(rivals[failures]) == 0
    ensures id == U32(old(ids.next) + Sum(rivals[..failures])) && ids.next == U32(id + 1)
  {
    hide U32;
    failures := 0;
    ghost var first := ids.next;
    id := ids.next;
    if failures < |rivals| {
      ids.next := U32(ids.next + rivals[failures]);
    }
    while ids.next != id
      invariant failures <= |rivals|
      invariant forall k :: 0 <= k < failures ==> U32(rivals[k]) != 0
      invariant id == U32(first + Sum(rivals[..failures]))
      invariant ids.next == if failures < |rivals| then U32(id + rivals[failures]) else id
      decreases |rivals| - failures
    {
      ghost var k := failures;
      assert rivals[..k + 1][..k] == rivals[..k];
      SumWraps(first + Sum(rivals[..k]), rivals[k]);
      UndisturbedMeansNone(id, rivals[k]);
      failures := failures + 1;
      id := ids.next;
      if failures < |rivals| {
        ids.next := U32(ids.next + rivals[failures]);
      }
    }
    if failures < |rivals| {
      UndisturbedMeansNone(id, rivals[failures]);
    }
    ids.next := U32(id + 1);
  }

  lemma SumWraps(a: nat, b: nat)
    ensures U32(U32(a) + b) == U32(a + b)
  {
  }

  lemma UndisturbedMeansNone(id: nat, n: nat)
    requires id < 0x1_0000_0000
    ensures U32(id + n) == id <==> U32(n) == 0
  {
  }

  // --- That loop as a run of the machine

  /** n ids taken by thread r. */
  function Pairs(r: nat, n: nat): seq<nat> {
    if n == 0 then [] else Pairs(r, n - 1) + [r, r]
  }

  /** Thread t reads, thread r takes n ids, thread t swaps. */
  function Attempt(t: nat, r: nat, n: nat): seq<nat> {
    [t] + Pairs(r, n) + [t]
  }

  function Attempts(t: nat, r: nat, rivals: seq<nat>): seq<nat> {
    if rivals == [] then []
    else Attempts(t, r, rivals[..|rivals| - 1]) + Attempt(t, r, rivals[|rivals| - 1])
  }

  lemma {:induction false} RunConcat(s: State, schedule: seq<nat>, more: seq<nat>)
    ensures Run(s, schedule + more) == Run(Run(s, schedule), more)
    decreases |schedule|
  {
    if schedule == [] {
      assert schedule + more == more;
    } else {
      assert (schedule + more)[1..] == schedule[1..] + more;
      RunConcat(Step(s, schedule[0]), schedule[1..], more);
    }
  }

  lemma RunOne(s: State, t: nat)
    ensures Run(s, [t]) == Step(s, t)
  {
    assert [t][1..] == [];
  }

  function Repeat(r: nat, n: nat): (rs: seq<nat>)
    ensures |rs| == n && forall k :: 0 <= k < n ==> rs[k] == r
  {
    seq(n, _ => r)
  }

  lemma RepeatMore(r: nat, n: nat, m: nat)
    ensures Repeat(r, n) + Repeat(r, m) == Repeat(r, n + m)
    ensures Repeat(r, 0) == [] && Repeat(r, 1) == [r]
  {
  }

  lemma ThreadsMore(issued: seq<Issue>, t: nat, id: nat)
    ensures Threads(issued + [Issue(t, id)]) == Threads(issued) + [t]
  {
  }

  lemma {:induction false} PairsRun(s: State, r: nat, n: nat)
    requires r < |s.locals| && s.locals[r] == Reading && s.counter < 0x1_0000_0000
    ensures var q := Run(s, Pairs(r, n));
            && q.locals == s.locals && q.counter == U32(s.counter + n)
            && Threads(q.issued) == Threads(s.issued) + Repeat(r, n)
  {
    hide Run;
    hide U32;
    hide Threads;
    hide Repeat;
    if n == 0 {
      RunNone(s);
      SmallIsItself(s.counter);
      RepeatMore(r, 0, 0);
    } else {
      var q := Run(s, Pairs(r, n - 1));
      PairsRun(s, r, n - 1);
      RunConcat(s, Pairs(r, n - 1), [r, r]);
      AloneGetsNext(q, r);
      SumWraps(s.counter + (n - 1), 1);
      RepeatMore(r, n - 1, 1);
      ThreadsMore(q.issued, r, q.counter);
      Regroup(Threads(s.issued), Repeat(r, n - 1), [r]);
    }
  }

  lemma RunNone(s: State)
    ensures Run(s, []) == s
  {
  }

  lemma SmallIsItself(a: nat)
    requires a < 0x1_0000_0000
    ensures U32(a) == a
  {
  }

  /** The swap at the end of an attempt, the rival's ids in between having moved the counter to q's. */
  lemma AttemptSteps(s: State, t: nat, r: nat, n: nat)
    requires t < |s.locals| && s.locals[t] == Reading
    ensures Run(s, Attempt(t, r, n)) == Step(Run(Step(s, t), Pairs(r, n)), t)
  {
    hide Run;
    hide Step;
    RunConcat(s, [t] + Pairs(r, n), [t]);
    RunConcat(s, [t], Pairs(r, n));
    RunOne(s, t);
    RunOne(Run(Step(s, t), Pairs(r, n)), t);
  }

  lemma AttemptRun(s: State, t: nat, r: nat, n: nat)
    requires t < |s.locals| && r < |s.locals| && t != r && s.locals[t] == s.locals[r] == Reading
    requires s.counter < 0x1_0000_0000
    ensures var q := Run(s, Attempt(t, r, n));
            && q.locals == s.locals
            && (U32(n) != 0 ==>
                  q.counter == U32(s.counter + n) && Threads(q.issued) == Threads(s.issued) + Repeat(r, n))
            && (U32(n) == 0 ==>
                  && q.counter == U32(s.counter + 1)
                  && Threads(q.issued) == Threads(s.issued) + Repeat(r, n) + [t]
                  && q.issued[|q.issued| - 1] == Issue(t, s.counter))
  {
    hide Run;
    hide U32;
    hide Repeat;
    hide Threads;
    AttemptSteps(s, t, r, n);
    PairsRun(Step(s, t), r, n);
    UndisturbedMeansNone(s.counter, n);
    var p := Run(Step(s, t), Pairs(r, n));
    ThreadsMore(p.issued, t, s.counter);
    assert p.locals[t := Reading] == s.locals;
  }

  lemma {:induction false} FailedAttempts(s: State, t: nat, r: nat, rivals: seq<nat>)
    requires t < |s.locals| && r < |s.locals| && t != r && s.locals[t] == s.locals[r] == Reading
    requires s.counter < 0x1_0000_0000 && forall k :: 0 <= k < |rivals| ==> U32(rivals[k]) != 0
    ensures var q := Run(s, Attempts(t, r, rivals));
            && q.locals == s.locals && q.counter == U32(s.counter + Sum(rivals))
            && Threads(q.issued) == Threads(s.issued) + Repeat(r, Sum(rivals))
  {
    hide Run;
    hide U32;
    hide Repeat;
    hide Threads;
    hide Attempt;
    if rivals == [] {
      RunNone(s);
      SmallIsItself(s.counter);
      RepeatMore(r, 0, 0);
    } else {
      var before, n := rivals[..|rivals| - 1], rivals[|rivals| - 1];
      FailedAttempts(s, t, r, before);
      RunConcat(s, Attempts(t, r, before), Attempt(t, r, n));
      CounterFits(s.counter + Sum(before));
      AttemptRun(Run(s, Attempts(t, r, before)), t, r, n);
      SumWraps(s.counter + Sum(before), n);
      RepeatMore(r, Sum(before), n);
      Regroup(Threads(s.issued), Repeat(r, Sum(before)), Repeat(r, n));
    }
  }

  lemma CounterFits(a: nat)
    ensures U32(a) < 0x1_0000_0000
  {
  }

  /**
   What TakeId does is what the machine does: after the failed attempts and one that
   nobody disturbed, thread t has exactly one id, that of TakeId, and is given it last.
   */
  lemma TakeIdIsRun(s: State, t: nat, r: nat, rivals: seq<nat>, last: nat)
    requires t < |s.locals| && r < |s.locals| && t != r && s.locals[t] == s.locals[r] == Reading
    requires s.counter < 0x1_0000_0000
    requires U32(last) == 0 && forall k :: 0 <= k < |rivals| ==> U32(rivals[k]) != 0
    ensures var id := U32(s.counter + Sum(rivals));
            var q := Run(s, Attempts(t, r, rivals) + Attempt(t, r, last));
            && q.locals == s.locals && q.counter == U32(id + 1)
            && Threads(q.issued) == Threads(s.issued) + Repeat(r, Sum(rivals)) + Repeat(r, last) + [t]
            && q.issued[|q.issued| - 1] == Issue(t, id)
  {
    hide *;
    FailedAttempts(s, t, r, rivals);
    CounterFits(s.counter + Sum(rivals));
    RunConcat(s, Attempts(t, r, rivals), Attempt(t, r, last));
    AttemptRun(Run(s, Attempts(t, r, rivals)), t, r, last);
  }
}
