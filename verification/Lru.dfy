/**
 What both caches are meant to be: one sequence in order of use, searched from
 the front, with a hit moved to the front and the last element evicted.
 */
module Lru {
  import opened Wrappers
  import opened Zippers

  /** A cache entry descriptor (ced_t).  `addr` is its address; the buffer is an opaque pointer. */
  datatype Ced = Ced(addr: nat, key: nat, buf: nat, buflen: nat)

  function Keys(s: seq<Ced>): (ks: seq<nat>)
    ensures |ks| == |s|
    ensures forall i {:trigger ks[i]} {:trigger s[i]} :: 0 <= i < |ks| ==> ks[i] == s[i].key
  {
    seq(|s|, i requires 0 <= i < |s| => s[i].key)
  }

  /** The first position of x, or the length when there is none. */
  function IndexOf<T(==)>(s: seq<T>, x: T): (i: nat)
    ensures i <= |s| && (i < |s| <==> x in s)
    ensures i < |s| ==> s[i] == x
    ensures forall j :: 0 <= j < i ==> s[j] != x
  {
    FirstMatch(s, y => y != x)
  }

  function ToFront<T>(s: seq<T>, i: nat): seq<T>
    requires i < |s|
  {
    [s[i]] + RemoveAt(s, i)
  }

  /** A lookup: the sequence afterwards and the entry found. */
  function Get(s: seq<Ced>, key: nat): (seq<Ced>, Option<Ced>) {
    var i := IndexOf(Keys(s), key);
    if i < |s| then (ToFront(s, i), Some(s[i])) else (s, None)
  }

  /** An insertion: the sequence afterwards and the entry evicted. */
  function Put<T>(s: seq<T>, x: T, cap: nat): (seq<T>, Option<T>) {
    var full := [x] + s;
    if |full| > cap then (full[..|s|], Some(full[|s|])) else (full, None)
  }
}
