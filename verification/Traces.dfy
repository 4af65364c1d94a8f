/**
 The get-else-put client over every key trace: what the LRU sequence holds,
 when a request hits, and why a larger cache never does worse.
 */
module Traces {
  import opened Zippers
  import opened Lru

  /** The request loop on keys alone: look up, and insert when that fails. */
  function Touch(s: seq<nat>, key: nat, cap: nat): seq<nat> {
    var i := IndexOf(s, key);
    if i < |s| then ToFront(s, i) else Put(s, key, cap).0
  }

  function Contents(trace: seq<nat>, cap: nat): seq<nat> {
    if trace == [] then []
    else Touch(Contents(trace[..|trace| - 1], cap), trace[|trace| - 1], cap)
  }

  function Hits(trace: seq<nat>, cap: nat): nat {
    if trace == [] then 0
    else
      var before, key := trace[..|trace| - 1], trace[|trace| - 1];
      Hits(before, cap) + if key in Contents(before, cap) then 1 else 0
  }

  function Without<T(==)>(s: seq<T>, x: T): seq<T> {
    var i := IndexOf(s, x);
    if i < |s| then RemoveAt(s, i) else s
  }

  /** The distinct keys of a trace, the latest requested first. */
  function Recency(trace: seq<nat>): seq<nat> {
    if trace == [] then []
    else [trace[|trace| - 1]] + Without(Recency(trace[..|trace| - 1]), trace[|trace| - 1])
  }

  /** The last position of a key in a trace. */
  function LastRequest(trace: seq<nat>, key: nat): (p: nat)
    requires key in trace
    ensures p < |trace| && trace[p] == key
    ensures forall j :: p < j < |trace| ==> trace[j] != key
  {
    LastBefore(trace, key, |trace|)
  }

  function LastBefore(trace: seq<nat>, key: nat, n: nat): (p: nat)
    requires n <= |trace| && key in trace[..n]
    ensures p < n && trace[p] == key
    ensures forall j :: p < j < n ==> trace[j] != key
  {
    if trace[n - 1] == key then n - 1 else LastBefore(trace, key, n - 1)
  }

  lemma LastRequestKept(before: seq<nat>, last: nat, key: nat)
    requires key in before && key != last
    ensures LastRequest(before + [last], key) == LastRequest(before, key)
    ensures (before + [last])[LastRequest(before, key) + 1..] == before[LastRequest(before, key) + 1..] + [last]
  {
    var p, q := LastRequest(before + [last], key), LastRequest(before, key);
    assert (before + [last])[q] == key;
    assert p < |before| && before[p] == key;
  }

  function Take<T>(s: seq<T>, n: nat): seq<T> {
    s[..if n < |s| then n else |s|]
  }

  function Elems<T>(s: seq<T>): set<T> {
    set x | x in s
  }

  lemma WithoutMeaning<T>(s: seq<T>, x: T)
    requires Distinct(s)
    ensures var w, n := Without(s, x), IndexOf(s, x);
            && |w| == (if n < |s| then |s| - 1 else |s|)
            && (forall j {:trigger w[j]} :: 0 <= j < |w| ==> w[j] == if j < n then s[j] else s[j + 1])
            && Distinct(w)
  {
  }

  lemma WithoutMembers<T>(s: seq<T>, x: T)
    requires Distinct(s)
    ensures forall y :: y in Without(s, x) <==> y in s && y != x
  {
    var w, n := Without(s, x), IndexOf(s, x);
    WithoutMeaning(s, x);
    forall y | y in s && y != x
      ensures y in w
    {
      var j :| 0 <= j < |s| && s[j] == y;
      assert w[if j < n then j else j - 1] == y;
    }
  }

  lemma NewFront<T>(x: T, w: seq<T>)
    requires Distinct(w) && x !in w
    ensures Distinct([x] + w) && forall y :: y in [x] + w <==> y == x || y in w
  {
  }

  lemma RecencyStep(trace: seq<nat>)
    requires trace != []
    ensures var before, key := trace[..|trace| - 1], trace[|trace| - 1];
            trace == before + [key] && Recency(trace) == [key] + Without(Recency(before), key)
  {
  }

  lemma RecencyStart()
    ensures Recency([]) == [] && Distinct<nat>([])
  {
  }

  /** Recency lists each requested key once. */
  lemma {:induction false} RecencyIsASet(trace: seq<nat>)
    ensures Distinct(Recency(trace))
    ensures forall k :: k in Recency(trace) <==> k in trace
  {
    hide *;
    if trace == [] {
      RecencyStart();
    } else {
      var before, key := trace[..|trace| - 1], trace[|trace| - 1];
      RecencyStep(trace);
      RecencyIsASet(before);
      WithoutMeaning(Recency(before), key);
      WithoutMembers(Recency(before), key);
      NewFront(key, Without(Recency(before), key));
    }
  }

  lemma NewestIsLast(before: seq<nat>, key: nat)
    ensures LastRequest(before + [key], key) == |before|
  {
    assert (before + [key])[|before|] == key;
  }

  lemma {:induction false} RecencyOrder(trace: seq<nat>, i: nat, j: nat)
    requires i < j < |Recency(trace)|
    ensures var r := Recency(trace);
            && r[i] in trace && r[j] in trace
            && LastRequest(trace, r[i]) > LastRequest(trace, r[j])
  {
    hide *;
    RecencyStart();
    var before, key := trace[..|trace| - 1], trace[|trace| - 1];
    var r0, r := Recency(before), Recency(trace);
    RecencyStep(trace);
    RecencyIsASet(before);
    var j' := OldIndex(r0, key, j);
    LastRequestKept(before, key, r[j]);
    if i == 0 {
      NewestIsLast(before, key);
    } else {
      var i' := OldIndex(r0, key, i);
      LastRequestKept(before, key, r[i]);
      RecencyOrder(before, i', j');
    }
  }

  /** Where an element other than the newest stood before the newest was moved to the front. */
  lemma OldIndex(r0: seq<nat>, key: nat, j: nat) returns (j': nat)
    requires Distinct(r0) && 0 < j < |[key] + Without(r0, key)|
    ensures j' == (if j - 1 < IndexOf(r0, key) then j - 1 else j) < |r0|
    ensures ([key] + Without(r0, key))[j] == r0[j'] != key
  {
    WithoutMeaning(r0, key);
    j' := if j - 1 < IndexOf(r0, key) then j - 1 else j;
  }

  /** Recency is what its name says: each requested key once, in descending order of its last request. */
  lemma RecencyMeaning(trace: seq<nat>)
    ensures var r := Recency(trace);
            && Distinct(r)
            && (forall k :: k in r <==> k in trace)
            && (forall i, j :: 0 <= i < j < |r| ==> LastRequest(trace, r[i]) > LastRequest(trace, r[j]))
  {
    RecencyIsASet(trace);
    forall i, j | 0 <= i < j < |Recency(trace)|
      ensures LastRequest(trace, Recency(trace)[i]) > LastRequest(trace, Recency(trace)[j])
    {
      RecencyOrder(trace, i, j);
    }
  }

  /** For every trace, the cache holds the most recent `cap` distinct keys in order of their last request. */
  lemma {:induction false} ContentsAreMostRecent(trace: seq<nat>, cap: nat)
    requires cap > 0
    ensures Contents(trace, cap) == Take(Recency(trace), cap)
  {
    if trace != [] {
      var before, key := trace[..|trace| - 1], trace[|trace| - 1];
      ContentsAreMostRecent(before, cap);
      RecencyMeaning(before);
      TouchTake(Recency(before), key, cap);
    }
  }

  lemma TouchTake(r: seq<nat>, key: nat, cap: nat)
    requires Distinct(r) && cap > 0
    ensures Touch(Take(r, cap), key, cap) == Take([key] + Without(r, key), cap)
  {
    if IndexOf(r, key) < |Take(r, cap)| {
      TouchHit(r, key, cap);
    } else {
      TouchMiss(r, key, cap);
    }
  }

  lemma TouchHit(r: seq<nat>, key: nat, cap: nat)
    requires Distinct(r) && IndexOf(r, key) < |Take(r, cap)|
    ensures Touch(Take(r, cap), key, cap) == Take([key] + Without(r, key), cap)
  {
    var s, i, w := Take(r, cap), IndexOf(r, key), Without(r, key);
    WithoutMeaning(r, key);
    FirstIndex(s, key, i);
    WithoutMeaning(s, key);
    assert RemoveAt(s, i) == w[..|s| - 1];
    assert Take([key] + w, cap) == [key] + w[..|s| - 1];
  }

  lemma TouchMiss(r: seq<nat>, key: nat, cap: nat)
    requires Distinct(r) && cap > 0 && IndexOf(r, key) >= |Take(r, cap)|
    ensures Touch(Take(r, cap), key, cap) == Take([key] + Without(r, key), cap)
  {
    var s, w := Take(r, cap), Without(r, key);
    WithoutMeaning(r, key);
    assert key !in s;
    assert Touch(s, key, cap) == Put(s, key, cap).0;
    var n := if |r| < cap then |r| else cap - 1;
    assert w[..n] == s[..n];
  }

  /** The keys in front of one key are exactly those requested since its last request. */
  lemma {:induction false} AheadMeansSince(trace: seq<nat>, key: nat)
    requires key in trace
    ensures var r := Recency(trace);
            Elems(r[..IndexOf(r, key)]) == Elems(trace[LastRequest(trace, key) + 1..])
  {
    hide Elems;
    hide Without;
    hide LastRequest;
    hide IndexOf;
    var before, last := trace[..|trace| - 1], trace[|trace| - 1];
    var r0 := Recency(before);
    assert trace == before + [last] && Recency(trace) == [last] + Without(r0, last);
    if last == key {
      AheadNone(Without(r0, last), before, last);
    } else {
      AheadMeansSince(before, key);
      RecencyIsASet(before);
      AheadStep(r0, before, last, key);
    }
  }

  lemma AheadNone(w: seq<nat>, before: seq<nat>, last: nat)
    ensures var r, trace := [last] + w, before + [last];
            Elems(r[..IndexOf(r, last)]) == Elems(trace[LastRequest(trace, last) + 1..])
  {
    var r, trace := [last] + w, before + [last];
    FirstIndex(r, last, 0);
    assert trace[|before|] == last && LastRequest(trace, last) == |before|;
    assert r[..0] == [] == trace[|before| + 1..];
  }

  lemma AheadStep(r0: seq<nat>, before: seq<nat>, last: nat, key: nat)
    requires Distinct(r0) && key in r0 && key in before && key != last
    requires Elems(r0[..IndexOf(r0, key)]) == Elems(before[LastRequest(before, key) + 1..])
    ensures var r, trace := [last] + Without(r0, last), before + [last];
            Elems(r[..IndexOf(r, key)]) == Elems(trace[LastRequest(trace, key) + 1..])
  {
    AheadAfterTouch(r0, last, key);
    LastRequestKept(before, last, key);
    ElemsConcat(before[LastRequest(before, key) + 1..], [last]);
  }

  lemma ElemsConcat<T>(s: seq<T>, t: seq<T>)
    ensures Elems(s + t) == Elems(s) + Elems(t)
  {
  }

  lemma AheadAfterTouch(r0: seq<nat>, last: nat, key: nat)
    requires Distinct(r0) && key in r0 && key != last
    ensures var r := [last] + Without(r0, last);
            Elems(r[..IndexOf(r, key)]) == Elems(r0[..IndexOf(r0, key)]) + {last}
  {
    var w, i := Without(r0, last), IndexOf(r0, key);
    var m := AheadIn(r0, last, key);
    FirstIndex([last] + w, key, m + 1);
    assert ([last] + w)[..m + 1] == [last] + w[..m];
    ElemsConcat([last], w[..m]);
  }

  /** m elements of w are in front of the key, and they are those in front of it before, but for `last`. */
  lemma AheadIn(r0: seq<nat>, last: nat, key: nat) returns (m: nat)
    requires Distinct(r0) && key in r0 && key != last
    ensures var w := Without(r0, last);
            && m < |w| && w[m] == key && (forall j :: 0 <= j < m ==> w[j] != key)
            && Elems(w[..m]) + {last} == Elems(r0[..IndexOf(r0, key)]) + {last}
  {
    var w, i, n := Without(r0, last), IndexOf(r0, key), IndexOf(r0, last);
    WithoutMeaning(r0, last);
    if n < i {
      m := i - 1;
      assert w[..m] == r0[..n] + r0[n + 1..i];
      assert r0[..i] == r0[..n] + [last] + r0[n + 1..i];
      ElemsAround(r0[..n], last, r0[n + 1..i]);
    } else {
      m := i;
      assert w[..m] == r0[..i];
    }
  }

  lemma ElemsAround<T>(s: seq<T>, x: T, t: seq<T>)
    ensures Elems(s + t) + {x} == Elems(s + [x] + t)
  {
    ElemsConcat(s, t);
    ElemsConcat(s, [x]);
    ElemsConcat(s + [x], t);
  }

  lemma FirstIndex<T>(s: seq<T>, x: T, i: nat)
    requires i < |s| && s[i] == x && forall j :: 0 <= j < i ==> s[j] != x
    ensures IndexOf(s, x) == i
  {
  }

  lemma {:induction false} CountDistinct<T>(s: seq<T>)
    requires Distinct(s)
    ensures |Elems(s)| == |s|
  {
    if s != [] {
      CountDistinct(s[1..]);
      assert s == [s[0]] + s[1..];
      assert Elems(s) == {s[0]} + Elems(s[1..]);
      assert s[0] !in s[1..];
    }
  }

  /** A request hits exactly when its key was requested before and fewer than `cap` distinct other keys since. */
  lemma HitMeansRecentlyUsed(trace: seq<nat>, key: nat, cap: nat)
    requires cap > 0
    ensures key in Contents(trace, cap) <==>
              key in trace && |Elems(trace[LastRequest(trace, key) + 1..])| < cap
  {
    ContentsAreMostRecent(trace, cap);
    RecencyMeaning(trace);
    var r := Recency(trace);
    InTake(r, key, cap);
    if key in trace {
      AheadMeansSince(trace, key);
      CountDistinct(r[..IndexOf(r, key)]);
    }
  }

  lemma InTake<T>(s: seq<T>, x: T, n: nat)
    ensures x in Take(s, n) <==> x in s && IndexOf(s, x) < n
  {
    if x in s && IndexOf(s, x) < n {
      assert Take(s, n)[IndexOf(s, x)] == x;
    }
  }

  /** LRU inclusion: at every point of every trace the smaller cache is a prefix of the larger one. */
  lemma Inclusion(trace: seq<nat>, m: nat, n: nat)
    requires 0 < m <= n
    ensures Contents(trace, m) <= Contents(trace, n)
    ensures Contents(trace, m) == Take(Contents(trace, n), m)
  {
    ContentsAreMostRecent(trace, m);
    ContentsAreMostRecent(trace, n);
  }

  /** So the larger cache never has fewer hits: LRU has no Belady anomaly. */
  lemma {:induction false} LargerCacheHitsMore(trace: seq<nat>, m: nat, n: nat)
    requires 0 < m <= n
    ensures Hits(trace, m) <= Hits(trace, n) <= |trace|
  {
    if trace != [] {
      LargerCacheHitsMore(trace[..|trace| - 1], m, n);
      Inclusion(trace[..|trace| - 1], m, n);
    }
  }
}
