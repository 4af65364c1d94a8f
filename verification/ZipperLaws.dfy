/** Laws of the list routines that span several calls, over every list, cursor and run. */
module ZipperLaws {
  import opened Zippers

  // --- What each routine does, told by the elements in front of the current one and behind it

  /** x is current, these elements are in front of it and these behind it. */
  ghost predicate Around<T>(z: Zipper<T>, front: seq<T>, x: T, behind: seq<T>) {
    z.elems == front + [x] + behind && z.at == |front|
  }

  /** Every list but the empty one is like that, in one way only. */
  lemma AroundCurrent<T>(z: Zipper<T>, front: seq<T>, x: T, behind: seq<T>)
    requires z.Ok() && z.elems != []
    ensures Around(z, front, x, behind) <==>
              front == z.elems[..z.at] && x == z.elems[z.at] && behind == z.elems[z.at + 1..]
  {
    assert z.elems == z.elems[..z.at] + [z.elems[z.at]] + z.elems[z.at + 1..];
    if Around(z, front, x, behind) {
      assert front == z.elems[..z.at] && behind == z.elems[z.at + 1..];
    }
  }

  /** An inserted element becomes current, next to the old current element on the side asked for. */
  lemma InsertsAround<T>(z: Zipper<T>, front: seq<T>, c: T, behind: seq<T>, x: T)
    requires Around(z, front, c, behind)
    ensures z.Ok()
    ensures Around(z.InsertBefore(x), front, x, [c] + behind)
    ensures Around(z.InsertAfter(x), front + [c], x, behind)
  {
    assert z.elems[..z.at] == front && z.elems[z.at..] == [c] + behind;
    assert z.elems[..z.at + 1] == front + [c] && z.elems[z.at + 1..] == behind;
  }

  /** One end of a sequence. */
  lemma FirstOf<T>(s: seq<T>)
    requires s != []
    ensures s == [s[0]] + s[1..]
  {
  }

  lemma LastOf<T>(s: seq<T>)
    requires s != []
    ensures s == s[..|s| - 1] + [s[|s| - 1]]
  {
  }

  /** A removal at the front leaves the current element current, unless it is the one removed. */
  lemma RemoveFrontAround<T>(z: Zipper<T>, front: seq<T>, c: T, behind: seq<T>)
    requires Around(z, front, c, behind)
    ensures z.Ok()
    ensures front != [] ==> Around(z.RemoveFront(), front[1..], c, behind)
    ensures front == [] ==> z.RemoveFront() == z.RemoveCurr()
  {
    EndsRemoved(z.elems);
    if front != [] {
      assert z.elems[1..] == front[1..] + [c] + behind;
    }
  }

  lemma RemoveRearAround<T>(z: Zipper<T>, front: seq<T>, c: T, behind: seq<T>)
    requires Around(z, front, c, behind)
    ensures z.Ok()
    ensures behind != [] ==> Around(z.RemoveRear(), front, c, behind[..|behind| - 1])
    ensures behind == [] ==> z.RemoveRear() == z.RemoveCurr()
  {
    EndsRemoved(z.elems);
    if behind != [] {
      assert z.elems[..|z.elems| - 1] == front + [c] + behind[..|behind| - 1];
    }
  }

  /** When the current element goes, its follower becomes current, or at the rear the one in front of it. */
  lemma RemoveCurrAround<T>(z: Zipper<T>, front: seq<T>, c: T, behind: seq<T>)
    requires Around(z, front, c, behind)
    ensures z.Ok()
    ensures behind != [] ==> Around(z.RemoveCurr(), front, behind[0], behind[1..])
    ensures behind == [] && front != [] ==> Around(z.RemoveCurr(), front[..|front| - 1], front[|front| - 1], [])
    ensures front == [] == behind ==> z.RemoveCurr() == Zipper([], 0)
  {
    assert z.elems[..z.at] == front && z.elems[z.at + 1..] == behind;
    if behind != [] {
      FirstOf(behind);
      Regroup(front, [behind[0]], behind[1..]);
    } else if front != [] {
      LastOf(front);
    }
  }

  /** Moves change neither the elements nor their order. */
  lemma StepsAround<T>(z: Zipper<T>, front: seq<T>, c: T, behind: seq<T>)
    requires Around(z, front, c, behind)
    ensures if front == [] then z.MvPrev() == z
            else Around(z.MvPrev(), front[..|front| - 1], front[|front| - 1], [c] + behind)
    ensures if behind == [] then z.MvNext() == z
            else Around(z.MvNext(), front + [c], behind[0], behind[1..])
  {
    if front != [] {
      LastOf(front);
      Regroup(front, [c], behind);
    }
    if behind != [] {
      FirstOf(behind);
      Regroup(front + [c], [behind[0]], behind[1..]);
    }
  }

  lemma JumpsAround<T>(z: Zipper<T>, front: seq<T>, c: T, behind: seq<T>)
    requires Around(z, front, c, behind)
    ensures if front == [] then z.MvFront() == z
            else Around(z.MvFront(), [], front[0], front[1..] + [c] + behind)
    ensures if behind == [] then z.MvRear() == z
            else Around(z.MvRear(), front + [c] + behind[..|behind| - 1], behind[|behind| - 1], [])
  {
    if front != [] {
      FirstOf(front);
      assert z.elems == [front[0]] + (front[1..] + [c] + behind);
    }
    if behind != [] {
      LastOf(behind);
      Regroup(front + [c], behind[..|behind| - 1], [behind[|behind| - 1]]);
    }
  }

  /** On the empty list an insertion makes a list of one, and nothing else does anything. */
  lemma NothingAround<T>(x: T)
    ensures var z: Zipper<T> := Zipper([], 0);
            && Around(z.InsertBefore(x), [], x, []) && Around(z.InsertAfter(x), [], x, [])
            && z.RemoveFront() == z.RemoveRear() == z.RemoveCurr() == z
            && z.MvPrev() == z.MvNext() == z.MvFront() == z.MvRear() == z
  {
  }

  /** The list seen from the rear. */
  function Mirror<T>(z: Zipper<T>): (r: Zipper<T>)
    requires z.Ok()
    ensures r.Ok()
  {
    Zipper(Reverse(z.elems), if z.elems == [] then 0 else |z.elems| - 1 - z.at)
  }

  lemma ReverseTwice<T>(s: seq<T>)
    ensures Reverse(Reverse(s)) == s
  {
  }

  lemma ReverseSplice<T>(s: seq<T>, k: nat, x: T)
    requires k <= |s|
    ensures Reverse(Splice(s, k, x)) == Splice(Reverse(s), |s| - k, x)
  {
  }

  lemma ReverseRemove<T>(s: seq<T>, k: nat)
    requires k < |s|
    ensures Reverse(RemoveAt(s, k)) == RemoveAt(Reverse(s), |s| - 1 - k)
  {
  }

  /** The routines come in pairs that do the same from the other end. */
  lemma InsertsMirror<T>(z: Zipper<T>, x: T)
    requires z.Ok()
    ensures Mirror(z.InsertBefore(x)) == Mirror(z).InsertAfter(x)
    ensures Mirror(z.InsertAfter(x)) == Mirror(z).InsertBefore(x)
  {
    hide Reverse;
    hide Splice;
    if z.elems == [] {
      assert z.InsertBefore(x) == z.InsertAfter(x) by {
        SpliceFront(z.elems, x);
      }
      ReverseSplice(z.elems, 0, x);
    } else {
      ReverseSplice(z.elems, z.at, x);
      ReverseSplice(z.elems, z.at + 1, x);
    }
  }

  lemma EndsMirror<T>(z: Zipper<T>)
    requires z.Ok()
    ensures Mirror(z.RemoveFront()) == Mirror(z).RemoveRear()
    ensures Mirror(z.RemoveRear()) == Mirror(z).RemoveFront()
  {
    hide Reverse;
    hide RemoveAt;
    if z.elems != [] {
      EndsRemoved(z.elems);
      EndsRemoved(Reverse(z.elems));
      ReverseRemove(z.elems, 0);
      ReverseRemove(z.elems, |z.elems| - 1);
    }
  }

  lemma MovesMirror<T>(z: Zipper<T>)
    requires z.Ok()
    ensures Mirror(Mirror(z)) == z
    ensures Mirror(z.MvPrev()) == Mirror(z).MvNext() && Mirror(z.MvNext()) == Mirror(z).MvPrev()
    ensures Mirror(z.MvFront()) == Mirror(z).MvRear() && Mirror(z.MvRear()) == Mirror(z).MvFront()
  {
    hide Reverse;
    ReverseTwice(z.elems);
  }

  /** Only list_remove_curr has no pair: from either end it prefers the follower. */
  lemma RemoveCurrMirrors<T>(z: Zipper<T>)
    requires z.Ok()
    ensures Mirror(z.RemoveCurr()) == Mirror(z).RemoveCurr() <==> z.at == 0 || z.at == |z.elems| - 1
  {
    hide Reverse;
    hide RemoveAt;
    if z.elems != [] {
      ReverseRemove(z.elems, z.at);
    }
  }

  // --- Insert, then remove the current element

  /** hash_put relies on this to undo its first insertion. */
  lemma InsertBeforeUndone<T>(z: Zipper<T>, x: T)
    requires z.Ok()
    ensures z.InsertBefore(x).RemoveCurr() == z
  {
    assert RemoveAt(Splice(z.elems, z.at, x), z.at) == z.elems;
  }

  /** The sequence always comes back; the cursor only when the insertion was at the rear or into an empty list. */
  lemma InsertAfterUndone<T>(z: Zipper<T>, x: T)
    requires z.Ok()
    ensures z.InsertAfter(x).RemoveCurr().elems == z.elems
    ensures z.InsertAfter(x).RemoveCurr() == z <==> z.at + 1 >= |z.elems|
  {
    if z.elems != [] {
      assert RemoveAt(Splice(z.elems, z.at + 1, x), z.at + 1) == z.elems;
    }
  }

  // --- Draining by list_remove_curr

  /** The data returned by removing the current element until the list is empty. */
  function Drain<T>(z: Zipper<T>): seq<T>
    requires z.Ok()
    decreases |z.elems|
  {
    if z.elems == [] then [] else [z.elems[z.at]] + Drain(z.RemoveCurr())
  }

  /** From the cursor to the rear, then backwards over what was in front of the cursor. */
  lemma {:induction false} DrainOrder<T>(z: Zipper<T>)
    requires z.Ok()
    ensures Drain(z) == z.elems[z.at..] + Reverse(z.elems[..z.at])
    decreases |z.elems|
  {
    if z.elems != [] {
      DrainOrder(z.RemoveCurr());
      DrainStep(z.elems, z.at);
    }
  }

  lemma DrainFromFront<T>(s: seq<T>)
    ensures Zipper(s, 0).Ok() && Drain(Zipper(s, 0)) == s
  {
    DrainOrder(Zipper(s, 0));
    assert s[0..] + Reverse(s[..0]) == s;
  }

  lemma DrainStep<T>(s: seq<T>, k: nat)
    requires k < |s|
    ensures k < |s| - 1 ==> [s[k]] + (RemoveAt(s, k)[k..] + Reverse(RemoveAt(s, k)[..k])) == s[k..] + Reverse(s[..k])
    ensures k == |s| - 1 > 0 ==>
              [s[k]] + (RemoveAt(s, k)[k - 1..] + Reverse(RemoveAt(s, k)[..k - 1])) == s[k..] + Reverse(s[..k])
  {
    var r := RemoveAt(s, k);
    if k < |s| - 1 {
      assert r[k..] == s[k + 1..] && r[..k] == s[..k];
    } else if k > 0 {
      assert r[k - 1..] == [s[k - 1]] && r[..k - 1] == s[..k - 1];
      assert Reverse(s[..k]) == [s[k - 1]] + Reverse(s[..k - 1]);
    }
  }

  /** Nothing is lost and nothing is released twice, wherever the cursor stood. */
  lemma {:induction false} DrainOnce<T>(z: Zipper<T>)
    requires z.Ok()
    ensures multiset(Drain(z)) == multiset(z.elems)
    decreases |z.elems|
  {
    if z.elems != [] {
      DrainOnce(z.RemoveCurr());
      RemoveAtMultiset(z.elems, z.at);
    }
  }

  lemma RemoveAtMultiset<T>(s: seq<T>, k: nat)
    requires k < |s|
    ensures multiset(s) == multiset{s[k]} + multiset(RemoveAt(s, k))
  {
    assert s == s[..k] + [s[k]] + s[k + 1..];
  }

  /** Draining several lists, one after the other. */
  ghost function DrainAll<T>(zs: seq<Zipper<T>>): seq<T>
    requires forall b :: 0 <= b < |zs| ==> zs[b].Ok()
  {
    if zs == [] then [] else DrainAll(zs[..|zs| - 1]) + Drain(zs[|zs| - 1])
  }

  lemma DrainAllStep<T>(zs: seq<Zipper<T>>, i: nat)
    requires i <= |zs| && forall b :: 0 <= b < |zs| ==> zs[b].Ok()
    ensures i < |zs| ==> DrainAll(zs[..i + 1]) == DrainAll(zs[..i]) + Drain(zs[i])
    ensures DrainAll<T>([]) == [] && zs[..|zs|] == zs
  {
    if i < |zs| {
      assert zs[..i + 1][..i] == zs[..i];
    }
  }

  ghost function Flat<T>(zs: seq<Zipper<T>>): seq<T> {
    if zs == [] then [] else Flat(zs[..|zs| - 1]) + zs[|zs| - 1].elems
  }

  lemma {:induction false} DrainAllOnce<T>(zs: seq<Zipper<T>>)
    requires forall b :: 0 <= b < |zs| ==> zs[b].Ok()
    ensures multiset(DrainAll(zs)) == multiset(Flat(zs))
  {
    if zs != [] {
      DrainAllOnce(zs[..|zs| - 1]);
      DrainOnce(zs[|zs| - 1]);
    }
  }

  ghost predicate Disjoint<T>(s: seq<T>, t: seq<T>) {
    forall x <- s :: x !in t
  }

  lemma {:induction false} FlatDisjoint<T>(s: seq<T>, zs: seq<Zipper<T>>)
    requires forall b :: 0 <= b < |zs| ==> Disjoint(s, zs[b].elems)
    ensures Disjoint(s, Flat(zs))
  {
    if zs != [] {
      FlatDisjoint(s, zs[..|zs| - 1]);
    }
  }

  lemma DistinctConcat<T>(s: seq<T>, t: seq<T>)
    requires Distinct(s) && Distinct(t) && Disjoint(s, t)
    ensures Distinct(s + t)
  {
    forall i, j | 0 <= i < j < |s + t|
      ensures (s + t)[i] != (s + t)[j]
    {
      if i < |s| <= j {
        assert s[i] in s && t[j - |s|] in t;
      }
    }
  }

  lemma {:induction false} FlatDistinct<T>(zs: seq<Zipper<T>>)
    requires forall b :: 0 <= b < |zs| ==> Distinct(zs[b].elems)
    requires forall b, c :: 0 <= b < c < |zs| ==> Disjoint(zs[c].elems, zs[b].elems)
    ensures Distinct(Flat(zs))
  {
    if zs != [] {
      var n := |zs| - 1;
      FlatDistinct(zs[..n]);
      FlatDisjoint(zs[n].elems, zs[..n]);
      assert Disjoint(Flat(zs[..n]), zs[n].elems);
      DistinctConcat(Flat(zs[..n]), zs[n].elems);
    }
  }

  /** A permutation of distinct elements is distinct. */
  lemma DistinctPermutation<T>(s: seq<T>, t: seq<T>)
    requires multiset(s) == multiset(t) && Distinct(t)
    ensures Distinct(s)
  {
    forall i, j | 0 <= i < j < |s|
      ensures s[i] != s[j]
    {
      if s[i] == s[j] {
        CountTwice(s, i, j);
        assert s[i] in multiset(t);
        CountOnce(t, s[i]);
      }
    }
  }

  lemma CountTwice<T>(s: seq<T>, i: nat, j: nat)
    requires i < j < |s| && s[i] == s[j]
    ensures multiset(s)[s[i]] >= 2
  {
    assert s == s[..j] + [s[j]] + s[j + 1..];
    assert s[..j][i] == s[j];
    assert multiset(s) == multiset(s[..j]) + multiset([s[j]]) + multiset(s[j + 1..]);
  }

  lemma {:induction false} CountOnce<T>(t: seq<T>, x: T)
    requires Distinct(t)
    ensures multiset(t)[x] <= 1
  {
    if t != [] {
      var n := |t| - 1;
      CountOnce(t[..n], x);
      assert t == t[..n] + [t[n]];
      if x == t[n] {
        assert x !in t[..n];
      }
    }
  }

  // --- Traversals

  /** The rear-to-front traversal visits the reverse of the front-to-rear one, for every callback and cursor. */
  lemma BackwardMirrorsForward<T>(d: seq<T>, at: nat, accept: T -> bool)
    requires Zipper(d, at).Ok()
    ensures Traversal(d, at, accept, LIST_REAR).visited ==
            Traversal(Reverse(d), 0, accept, FromFront()).visited
    ensures (forall x <- d :: accept(x)) ==>
              && Traversal(d, at, accept, LIST_REAR).visited == Reverse(d)
              && Traversal(d, at, accept, FromFront()).visited == d
  {
    hide Has;
    hide StartAt;
    if d != [] {
      Words(|d|, at);
      Words(|d|, 0);
      assert Route(d, |d| - 1, true) == Reverse(d);
      assert Route(Reverse(d), 0, false) == Reverse(d);
      assert Route(d, 0, false) == d;
      if forall x <- d :: accept(x) {
        VisitsMeaning(d, accept);
        VisitsMeaning(Reverse(d), accept);
      }
    }
  }

  /**
   What a traversal means: it visits a prefix of its route, everything before
   the last visit was accepted, and the return code says how it ended.  The
   cursor moves only under LIST_ALTR, and then to the last element visited.
   */
  lemma TraversalMeaning<T>(d: seq<T>, at: nat, accept: T -> bool, opts: Options)
    requires Zipper(d, at).Ok()
    ensures var w := Traversal(d, at, accept, opts);
            && (w.rc == Empty <==> d == [])
            && (!Has(opts, LIST_ALTR) ==> w.at == at)
            && Zipper(d, w.at).Ok()
            && (d != [] ==>
                  var route := Route(d, StartAt(|d|, at, opts), Has(opts, LIST_BACK));
                  && 0 < |w.visited| <= |route| && w.visited == route[..|w.visited|]
                  && (forall i :: 0 <= i < |w.visited| - 1 ==> accept(w.visited[i]))
                  && (w.rc == Ok <==> !accept(w.visited[|w.visited| - 1]))
                  && (w.rc == Extent ==> w.visited == route)
                  && (Has(opts, LIST_ALTR) ==> d[w.at] == w.visited[|w.visited| - 1]))
  {
    if d != [] {
      VisitsMeaning(Route(d, StartAt(|d|, at, opts), Has(opts, LIST_BACK)), accept);
    }
  }

  /** From the start on towards one end, until the callback says no or the list ends. */
  ghost predicate WalkFrom<T>(d: seq<T>, at: nat, accept: T -> bool, start: nat, back: bool, alter: bool, w: Walk<T>)
    requires start < |d|
  {
    var left, n := if back then start + 1 else |d| - start, |w.visited|;
    && 0 < n <= left
    && (forall i :: 0 <= i < n ==> w.visited[i] == d[if back then start - i else start + i])
    && (forall i :: 0 <= i < n - 1 ==> accept(w.visited[i]))
    && (if accept(w.visited[n - 1]) then n == left && w.rc == Extent else w.rc == Ok)
    && w.at == if !alter then at else if back then start - (n - 1) else start + (n - 1)
  }

  /**
   A traversal told by the bits of its option word, for every word: 0x08 starts at the
   current element, 0x02 with 0x10 at the rear, anything else at the front; 0x02 goes
   towards the front; under 0x40 the cursor ends at the last element visited.
   */
  ghost predicate WalkByBits<T>(d: seq<T>, at: nat, accept: T -> bool, opts: bv32, w: Walk<T>)
    requires Zipper(d, at).Ok()
  {
    if d == [] then w == Walk(Empty, [], at)
    else
      var start := if opts & 0x08 == 0x08 then at else if opts & 0x12 == 0x12 then |d| - 1 else 0;
      WalkFrom(d, at, accept, start, opts & 0x02 == 0x02, opts & 0x40 == 0x40, w)
  }

  lemma WalkIsWalked<T>(d: seq<T>, at: nat, accept: T -> bool, start: nat, back: bool, alter: bool, w: Walk<T>)
    requires start < |d| && WalkFrom(d, at, accept, start, back, alter, w)
    ensures Walked(Route(d, start, back), accept, at, start, back, alter, w)
  {
    var route := Route(d, start, back);
    assert w.visited == route[..|w.visited|];
  }

  lemma VisitsWalk<T>(d: seq<T>, at: nat, accept: T -> bool, start: nat, back: bool, alter: bool)
    requires start < |d|
    ensures var vs := Visits(Route(d, start, back), accept);
            && vs != []
            && var n := |vs| - 1;
               var end := if !alter then at else if back then start - n else start + n;
               end >= 0 && WalkFrom(d, at, accept, start, back, alter, Walk(Verdict(vs, accept), vs, end))
  {
    var route := Route(d, start, back);
    VisitsMeaning(route, accept);
    hide Visits;
  }

  /** That is what a traversal does, and only one walk is like that. */
  lemma TraversalExact<T>(d: seq<T>, at: nat, accept: T -> bool, opts: bv32, w: Walk<T>)
    requires Zipper(d, at).Ok()
    ensures w == Traversal(d, at, accept, opts) <==> WalkByBits(d, at, accept, opts, w)
  {
    hide WalkFrom;
    hide Walked;
    hide Visits;
    hide Route;
    hide Verdict;
    if d != [] {
      var start, back, alter := StartAt(|d|, at, opts), Has(opts, LIST_BACK), Has(opts, LIST_ALTR);
      VisitsWalk(d, at, accept, start, back, alter);
      if WalkByBits(d, at, accept, opts, w) {
        WalkIsWalked(d, at, accept, start, back, alter, w);
        StopDecides(d, at, accept, opts, w);
      }
    }
  }

  /**
   The manual page says LIST_FORW alone starts at the current element; the code
   starts at the front, whatever the cursor.  LIST_BACK alone starts there too,
   so it visits the front element and nothing else.
   */
  lemma DirectionAloneStartsAtFront<T>(d: seq<T>, at: nat, accept: T -> bool)
    requires Zipper(d, at).Ok() && d != []
    ensures Traversal(d, at, accept, LIST_FORW) == Traversal(d, at, accept, LIST_FRNT)
    ensures Traversal(d, at, accept, LIST_FORW).visited[0] == d[0]
    ensures Traversal(d, at, accept, LIST_BACK).visited == [d[0]]
  {
    VisitsMeaning(Route(d, 0, false), accept);
    assert Route(d, 0, true) == [d[0]];
  }
}
