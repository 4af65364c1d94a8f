/**
 The abstract value of a list: a sequence of elements and the position of the
 current element.  Every routine of list.c is one function here; the class in
 Lists.dfy is proved to compute them by pointer surgery, and the laws of the
 list package are lemmas about them.
 */
module Zippers {
  datatype Zipper<T> = Zipper(elems: seq<T>, at: nat) {
    predicate Ok() {
      if elems == [] then at == 0 else at < |elems|
    }

    /** The new element becomes current, in front of the old current one. */
    function InsertBefore(x: T): Zipper<T>
      requires Ok()
    {
      Zipper(Splice(elems, at, x), at)
    }

    /** The new element becomes current, behind the old current one. */
    function InsertAfter(x: T): Zipper<T>
      requires Ok()
    {
      if elems == [] then Zipper([x], 0)
      else Zipper(Splice(elems, at + 1, x), at + 1)
    }

    function RemoveFront(): Zipper<T>
      requires Ok()
    {
      if elems == [] then this
      else Zipper(elems[1..], if at == 0 then 0 else at - 1)
    }

    function RemoveRear(): Zipper<T>
      requires Ok()
    {
      if elems == [] then this
      else Zipper(elems[..|elems| - 1], if at == |elems| - 1 && at > 0 then at - 1 else at)
    }

    /** The cursor stays on the following element, or steps back at the rear. */
    function RemoveCurr(): Zipper<T>
      requires Ok()
    {
      if elems == [] then this
      else Zipper(RemoveAt(elems, at), if at == |elems| - 1 && at > 0 then at - 1 else at)
    }

    function MvPrev(): Zipper<T> {
      if at > 0 then Zipper(elems, at - 1) else this
    }

    function MvNext(): Zipper<T> {
      if at + 1 < |elems| then Zipper(elems, at + 1) else this
    }

    function MvFront(): Zipper<T> {
      Zipper(elems, 0)
    }

    function MvRear(): Zipper<T> {
      Zipper(elems, if elems == [] then 0 else |elems| - 1)
    }
  }

  ghost predicate Distinct<T>(s: seq<T>) {
    forall i, j :: 0 <= i < j < |s| ==> s[i] != s[j]
  }

  function RemoveAt<T>(s: seq<T>, i: nat): (r: seq<T>)
    requires i < |s|
    ensures |r| == |s| - 1
  {
    s[..i] + s[i + 1..]
  }

  lemma RemovedIsGone<T>(s: seq<T>, i: nat)
    requires i < |s| && Distinct(s)
    ensures s[i] !in RemoveAt(s, i)
  {
  }

  lemma RemoveAtMembers<T>(s: seq<T>, i: nat)
    requires i < |s|
    ensures forall x <- RemoveAt(s, i) :: x in s
  {
  }

  /** Where the elements behind a new front come from. */
  lemma BehindFront<T>(s: seq<T>, i: nat, x: T, k: nat)
    requires i < |s| && 0 < k < |s|
    ensures ([x] + RemoveAt(s, i))[k] == s[if k - 1 < i then k - 1 else k]
  {
  }

  lemma EndsRemoved<T>(s: seq<T>)
    requires s != []
    ensures RemoveAt(s, 0) == s[1..] && RemoveAt(s, |s| - 1) == s[..|s| - 1]
  {
  }

  function Splice<T>(s: seq<T>, k: nat, x: T): (r: seq<T>)
    requires k <= |s|
    ensures |r| == |s| + 1 && r[k] == x
    ensures forall i {:trigger r[i]} :: 0 <= i < k ==> r[i] == s[i]
    ensures forall i {:trigger r[i]} :: k < i < |r| ==> r[i] == s[i - 1]
  {
    s[..k] + [x] + s[k..]
  }

  lemma SpliceMembers<T>(s: seq<T>, k: nat, x: T)
    requires k <= |s|
    ensures forall y :: y in Splice(s, k, x) <==> y == x || y in s
  {
    assert s == s[..k] + s[k..];
  }

  lemma RemovedMembers<T>(s: seq<T>, k: nat)
    requires k < |s| && Distinct(s)
    ensures forall y :: y in RemoveAt(s, k) <==> y in s && y != s[k]
  {
    assert s == s[..k] + [s[k]] + s[k + 1..];
  }

  lemma PrefixStep<T>(s: seq<T>, i: nat)
    requires i < |s|
    ensures s[..i + 1] == s[..i] + [s[i]]
  {
  }

  lemma RemovedDistinct<T>(s: seq<T>, k: nat)
    requires k < |s| && Distinct(s)
    ensures Distinct(RemoveAt(s, k)) && Distinct(s[..k]) && Distinct(s[k..])
  {
  }

  lemma NewFrontDistinct<T>(s: seq<T>, x: T)
    requires Distinct(s) && x !in s
    ensures Distinct([x] + s)
  {
  }

  lemma Regroup<T>(a: seq<T>, b: seq<T>, c: seq<T>)
    ensures (a + b) + c == a + (b + c)
  {
  }

  lemma SpliceFront<T>(s: seq<T>, x: T)
    ensures Splice(s, 0, x) == [x] + s
  {
  }

  // --- Traversal options, as bits of one word (list.h)

  type Options = bv32

  const LIST_FORW: Options := 0x00
  const LIST_BACK: Options := 0x02
  const LIST_FRNT: Options := 0x04
  const LIST_CURR: Options := 0x08
  const LIST_REAR: Options := 0x12
  const LIST_ALTR: Options := 0x40

  predicate Has(opts: Options, bits: Options) {
    opts & bits == bits
  }

  datatype Outcome = Empty | Ok | Extent

  /** How the caches search: from the front, the cursor following. */
  function Seeking(): Options {
    LIST_FRNT | LIST_FORW | LIST_ALTR
  }

  /** How hash_check looks ahead, the cursor staying: from the front, or from the cursor on. */
  function FromFront(): Options {
    LIST_FRNT | LIST_FORW
  }

  function FromCurr(): Options {
    LIST_CURR | LIST_FORW
  }

  /** What a traversal does: its return code, the data it passed to the callback, where the cursor ends. */
  datatype Walk<T> = Walk(rc: Outcome, visited: seq<T>, at: nat)

  function StartAt(n: nat, at: nat, opts: Options): (start: nat)
    requires at < n
    ensures start < n
  {
    if Has(opts, LIST_CURR) then at else if Has(opts, LIST_REAR) then n - 1 else 0
  }

  /** These words decoded, so that no other proof has to look at bits. */
  lemma Words(n: nat, at: nat)
    requires at < n
    ensures StartAt(n, at, Seeking()) == StartAt(n, at, FromFront()) == 0
    ensures StartAt(n, at, FromCurr()) == at && StartAt(n, at, LIST_REAR) == n - 1
    ensures !Has(Seeking(), LIST_BACK) && !Has(FromFront(), LIST_BACK) && !Has(FromCurr(), LIST_BACK)
    ensures Has(LIST_REAR, LIST_BACK) && Has(Seeking(), LIST_ALTR)
    ensures !Has(FromFront(), LIST_ALTR) && !Has(FromCurr(), LIST_ALTR)
  {
  }

  function Reverse<T>(s: seq<T>): (r: seq<T>)
    ensures |r| == |s|
    ensures forall i :: 0 <= i < |r| ==> r[i] == s[|s| - 1 - i]
  {
    seq(|s|, i requires 0 <= i < |s| => s[|s| - 1 - i])
  }

  /** Everything from the start to the end of the list in the chosen direction. */
  function Route<T>(d: seq<T>, start: nat, back: bool): (r: seq<T>)
    requires start < |d|
    ensures |r| == if back then start + 1 else |d| - start
    ensures forall i :: 0 <= i < |r| ==> r[i] == if back then d[start - i] else d[start + i]
  {
    if back then Reverse(d[..start + 1]) else d[start..]
  }

  /** The part of a route up to and including the first rejection. */
  function Visits<T>(route: seq<T>, accept: T -> bool): (vs: seq<T>)
    ensures (vs == []) == (route == []) && |vs| <= |route|
  {
    if route == [] then []
    else if accept(route[0]) then [route[0]] + Visits(route[1..], accept)
    else [route[0]]
  }

  /** Ran off the end, or stopped at a rejection: told by the last element visited. */
  function Verdict<T>(visited: seq<T>, accept: T -> bool): Outcome
    requires visited != []
  {
    if accept(visited[|visited| - 1]) then Extent else Ok
  }

  function Traversal<T>(d: seq<T>, at: nat, accept: T -> bool, opts: Options): Walk<T>
    requires Zipper(d, at).Ok()
  {
    if d == [] then Walk(Empty, [], at)
    else
      var start := StartAt(|d|, at, opts);
      var back := Has(opts, LIST_BACK);
      var vs := Visits(Route(d, start, back), accept);
      Walk(Verdict(vs, accept), vs,
           if !Has(opts, LIST_ALTR) then at
           else if back then start - (|vs| - 1) else start + (|vs| - 1))
  }

  /** The visits are a prefix of the route, all accepted but possibly the last; they stop short only at a rejection. */
  lemma {:induction false} VisitsMeaning<T>(route: seq<T>, accept: T -> bool)
    ensures var vs := Visits(route, accept);
            && vs <= route
            && (route != [] ==> vs != [])
            && (forall i :: 0 <= i < |vs| - 1 ==> accept(vs[i]))
            && (|vs| < |route| ==> !accept(vs[|vs| - 1]))
  {
    if route != [] && accept(route[0]) {
      VisitsMeaning(route[1..], accept);
      var rest := Visits(route[1..], accept);
      assert route == [route[0]] + route[1..];
      assert forall i :: 1 <= i < |rest| ==> ([route[0]] + rest)[i] == rest[i - 1];
    }
  }

  ghost predicate Passed<T>(route: seq<T>, accept: T -> bool, k: nat) {
    k <= |route| && forall j :: 0 <= j < k ==> accept(route[j])
  }

  ghost predicate Stops<T>(route: seq<T>, accept: T -> bool, k: nat) {
    && k < |route| && Passed(route, accept, k)
    && (accept(route[k]) ==> k + 1 == |route|)
  }

  /** Conversely, the place where the acceptances end decides the visits. */
  lemma {:induction false} VisitsStop<T>(route: seq<T>, accept: T -> bool, k: nat)
    requires Stops(route, accept, k)
    ensures Visits(route, accept) == route[..k + 1]
  {
    if k > 0 {
      VisitsStop(route[1..], accept, k - 1);
      assert route[..k + 1] == [route[0]] + route[1..][..k];
    }
  }

  /** One callback: the walk goes on, or stops here. */
  lemma PassStep<T>(route: seq<T>, accept: T -> bool, k: nat)
    requires k < |route| && Passed(route, accept, k)
    ensures accept(route[k]) ==> Passed(route, accept, k + 1)
    ensures !accept(route[k]) || k + 1 == |route| ==>
              Stops(route, accept, k) && Verdict(route[..k + 1], accept) == if accept(route[k]) then Extent else Ok
  {
  }

  lemma PassNone<T>(route: seq<T>, accept: T -> bool)
    ensures Passed(route, accept, 0)
  {
  }

  /** A walk from start, described by where it stopped rather than by recursion. */
  ghost predicate Walked<T>(route: seq<T>, accept: T -> bool, at: nat, start: nat, back: bool, alter: bool,
                            w: Walk<T>)
  {
    && w.visited != [] && Stops(route, accept, |w.visited| - 1) && w.visited == route[..|w.visited|]
    && w.rc == Verdict(w.visited, accept)
    && w.at == if !alter then at else if back then start - (|w.visited| - 1) else start + (|w.visited| - 1)
  }

  lemma StopDecides<T>(d: seq<T>, at: nat, accept: T -> bool, opts: Options, w: Walk<T>)
    requires Zipper(d, at).Ok() && d != []
    requires var start, back := StartAt(|d|, at, opts), Has(opts, LIST_BACK);
             Walked(Route(d, start, back), accept, at, start, back, Has(opts, LIST_ALTR), w)
    ensures Traversal(d, at, accept, opts) == w
  {
    hide Has;
    hide StartAt;
    hide Verdict;
    hide Stops;
    VisitsStop(Route(d, StartAt(|d|, at, opts), Has(opts, LIST_BACK)), accept, |w.visited| - 1);
  }

  /** The first element the match function stops at, or the length. */
  function FirstMatch<D>(s: seq<D>, goOn: D -> bool): (i: nat)
    ensures i <= |s| && (i < |s| ==> !goOn(s[i]))
    ensures forall j :: 0 <= j < i ==> goOn(s[j])
  {
    FirstMatchFrom(s, goOn, 0)
  }

  function FirstMatchFrom<D>(s: seq<D>, goOn: D -> bool, n: nat): (i: nat)
    requires n <= |s|
    ensures n <= i <= |s| && (i < |s| ==> !goOn(s[i]))
    ensures forall j :: n <= j < i ==> goOn(s[j])
    decreases |s| - n
  {
    if n == |s| || !goOn(s[n]) then n else FirstMatchFrom(s, goOn, n + 1)
  }

  /** The place does not depend on what is searched, only on where the match function says no. */
  lemma SameMatch<D, E>(s: seq<D>, f: D -> bool, t: seq<E>, g: E -> bool)
    requires |s| == |t| && forall i :: 0 <= i < |s| ==> f(s[i]) == g(t[i])
    ensures FirstMatch(s, f) == FirstMatch(t, g)
  {
    var i, j := FirstMatch(s, f), FirstMatch(t, g);
    assert i < |s| ==> f(s[i]) == g(t[i]);
    assert j < |t| ==> f(s[j]) == g(t[j]);
  }

  /** How the caches search: the walk stops with Ok exactly at the first element the callback rejects. */
  lemma SearchFromFront<T>(d: seq<T>, at: nat, accept: T -> bool)
    requires Zipper(d, at).Ok()
    ensures var k := FirstMatch(d, accept);
            var w := Traversal(d, at, accept, Seeking());
            && (w.rc == Ok <==> k < |d|)
            && (k < |d| ==> w.at == k)
            && Zipper(d, w.at).Ok()
  {
    hide Has;
    hide StartAt;
    var k := FirstMatch(d, accept);
    if d != [] {
      Words(|d|, at);
      assert Route(d, 0, false) == d;
      VisitsStop(d, accept, if k < |d| then k else k - 1);
    }
  }

  /** The callback says no to some element from a position on. */
  ghost predicate SaysNo<T>(d: seq<T>, from: nat, accept: T -> bool) {
    exists j :: from <= j < |d| && !accept(d[j])
  }

  /** A traversal that keeps the cursor tells whether there is something to stop at from its start on. */
  lemma SearchKeepingCursor<T>(d: seq<T>, at: nat, accept: T -> bool)
    requires Zipper(d, at).Ok()
    ensures var w := Traversal(d, at, accept, FromFront());
            w.at == at && (w.rc == Ok <==> SaysNo(d, 0, accept))
    ensures var w := Traversal(d, at, accept, FromCurr());
            w.at == at && (w.rc == Ok <==> SaysNo(d, at, accept))
  {
    hide Has;
    hide StartAt;
    hide Route;
    if d != [] {
      Words(|d|, at);
      StopsOnRoute(d, 0, accept);
      StopsOnRoute(d, at, accept);
    }
  }

  lemma StopsOnRoute<T>(d: seq<T>, start: nat, accept: T -> bool)
    requires start < |d|
    ensures Verdict(Visits(Route(d, start, false), accept), accept) == Ok <==> SaysNo(d, start, accept)
  {
    var route := Route(d, start, false);
    StopsSomewhere(route, accept);
    assert forall j :: start <= j < |d| ==> d[j] == route[j - start];
  }

  lemma StopsSomewhere<T>(route: seq<T>, accept: T -> bool)
    requires route != []
    ensures Verdict(Visits(route, accept), accept) == Ok <==> exists j :: 0 <= j < |route| && !accept(route[j])
  {
    var k := FirstMatch(route, accept);
    VisitsStop(route, accept, if k < |route| then k else k - 1);
  }

  /** A callback that never says no sees everything. */
  lemma VisitsAll<T>(d: seq<T>, at: nat, accept: T -> bool)
    requires Zipper(d, at).Ok() && forall x <- d :: accept(x)
    ensures var w := Traversal(d, at, accept, Seeking());
            w.visited == d && w.at == if d == [] then at else |d| - 1
  {
    hide Has;
    hide StartAt;
    if d != [] {
      Words(|d|, at);
      VisitsStop(Route(d, 0, false), accept, |d| - 1);
      assert Route(d, 0, false) == d;
    }
  }
}
