/**
 Runs of list calls: any sequence of insertions, removals and moves, and the
 handles that a client keeps through it.  The laws are about sequences of
 elements with a cursor; every run is also played on a real list.
 */
module ListRuns {
  import opened Wrappers
  import opened Zippers
  import opened Lists

  /** A list element with its datum. */
  datatype Elem<H, D> = Elem(h: H, x: D)

  /** SetOther is list_setcurr on an element that carries another list's id. */
  datatype Op<H, D> =
    | InsertBefore(h: H, x: D) | InsertAfter(h: H, x: D)
    | RemoveFront | RemoveRear | RemoveCurr
    | MvPrev | MvNext | MvFront | MvRear
    | SetCurr(h: H) | SetOther(h: H)

  /** Where the element h is, or the length. */
  ghost function Place<H, D>(s: seq<Elem<H, D>>, h: H): (i: nat)
    ensures i <= |s| && (i < |s| ==> s[i].h == h)
    ensures forall j :: 0 <= j < i ==> s[j].h != h
  {
    FirstMatch(s, (e: Elem<H, D>) => e.h != h)
  }

  ghost predicate Has<H, D>(s: seq<Elem<H, D>>, h: H) {
    exists i :: 0 <= i < |s| && s[i].h == h
  }

  ghost predicate Apart<H, D>(s: seq<Elem<H, D>>) {
    forall i, j :: 0 <= i < j < |s| ==> s[i].h != s[j].h
  }

  ghost function Data<H, D>(s: seq<Elem<H, D>>): (r: seq<D>)
    ensures |r| == |s| && forall i :: 0 <= i < |r| ==> r[i] == s[i].x
  {
    seq(|s|, i requires 0 <= i < |s| => s[i].x)
  }

  ghost function Apply<H, D>(z: Zipper<Elem<H, D>>, op: Op<H, D>): (r: Zipper<Elem<H, D>>)
    requires z.Ok()
    ensures r.Ok()
  {
    match op
    case InsertBefore(h, x) => z.InsertBefore(Elem(h, x))
    case InsertAfter(h, x) => z.InsertAfter(Elem(h, x))
    case RemoveFront => z.RemoveFront()
    case RemoveRear => z.RemoveRear()
    case RemoveCurr => z.RemoveCurr()
    case MvPrev => z.MvPrev()
    case MvNext => z.MvNext()
    case MvFront => z.MvFront()
    case MvRear => z.MvRear()
    case SetCurr(h) => if Place(z.elems, h) < |z.elems| then Zipper(z.elems, Place(z.elems, h)) else z
    case SetOther(_) => z
  }

  /** The element, if any, that one call frees. */
  ghost function Removed<H, D>(z: Zipper<Elem<H, D>>, op: Op<H, D>): Option<Elem<H, D>>
    requires z.Ok()
  {
    if z.elems == [] then None
    else match op
      case RemoveFront => Some(z.elems[0])
      case RemoveRear => Some(z.elems[|z.elems| - 1])
      case RemoveCurr => Some(z.elems[z.at])
      case _ => None
  }

  /** What one call hands to the client. */
  ghost function Out<H, D>(z: Zipper<Elem<H, D>>, op: Op<H, D>): seq<D>
    requires z.Ok()
  {
    match Removed(z, op)
    case None => []
    case Some(e) => [e.x]
  }

  /** What one call takes from the client. */
  function In<H, D>(op: Op<H, D>): seq<D> {
    if op.InsertBefore? || op.InsertAfter? then [op.x] else []
  }

  /** Everything put in by a run, in order. */
  function Entered<H, D>(ops: seq<Op<H, D>>): seq<D> {
    if ops == [] then [] else Entered(ops[..|ops| - 1]) + In(ops[|ops| - 1])
  }

  /** The state after a run from z, and what its removals returned. */
  ghost function Run<H, D>(z: Zipper<Elem<H, D>>, ops: seq<Op<H, D>>): (r: (Zipper<Elem<H, D>>, seq<D>))
    requires z.Ok()
    ensures r.0.Ok()
  {
    if ops == [] then (z, [])
    else
      var n := |ops| - 1;
      var before := Run(z, ops[..n]);
      (Apply(before.0, ops[n]), before.1 + Out(before.0, ops[n]))
  }

  /** A run extended by one call. */
  lemma RunThen<H, D>(z: Zipper<Elem<H, D>>, ops: seq<Op<H, D>>, op: Op<H, D>)
    requires z.Ok()
    ensures var r := Run(z, ops);
            Run(z, ops + [op]).0 == Apply(r.0, op) && Run(z, ops + [op]).1 == r.1 + Out(r.0, op)
  {
    assert (ops + [op])[..|ops|] == ops;
  }

  /** A run in two parts. */
  lemma {:induction false} RunConcat<H, D>(z: Zipper<Elem<H, D>>, ops: seq<Op<H, D>>, more: seq<Op<H, D>>)
    requires z.Ok()
    ensures var r := Run(z, ops);
            var s := Run(r.0, more);
            Run(z, ops + more).0 == s.0 && Run(z, ops + more).1 == r.1 + s.1
  {
    hide Apply;
    hide Out;
    if more == [] {
      assert ops + more == ops;
    } else {
      var n := |more| - 1;
      RunConcat(z, ops, more[..n]);
      RunThen(z, ops + more[..n], more[n]);
      assert ops + more == (ops + more[..n]) + [more[n]];
      var r := Run(z, ops);
      var s := Run(r.0, more[..n]);
      Regroup(r.1, s.1, Out(s.0, more[n]));
    }
  }

  /**
   What the code needs of a call: an insertion gets a block that is not in the list,
   and list_setcurr an element that is in it, or that carries another list's id.
   */
  ghost predicate Legal<H, D>(z: Zipper<Elem<H, D>>, op: Op<H, D>) {
    && (op.InsertBefore? || op.InsertAfter? || op.SetOther? ==> !Has(z.elems, op.h))
    && (op.SetCurr? ==> Has(z.elems, op.h))
  }

  ghost predicate LegalRun<H, D>(z: Zipper<Elem<H, D>>, ops: seq<Op<H, D>>)
    requires z.Ok()
  {
    forall i :: 0 <= i < |ops| ==> Legal(Run(z, ops[..i]).0, ops[i])
  }

  /** No call of the run frees h. */
  ghost predicate Spared<H, D>(z: Zipper<Elem<H, D>>, ops: seq<Op<H, D>>, h: H)
    requires z.Ok()
  {
    forall i :: 0 <= i < |ops| ==> !Frees(Run(z, ops[..i]).0, ops[i], h)
  }

  ghost predicate Frees<H, D>(z: Zipper<Elem<H, D>>, op: Op<H, D>, h: H)
    requires z.Ok()
  {
    Removed(z, op).Some? && Removed(z, op).value.h == h
  }

  // --- Handles

  lemma PlaceIs<H, D>(s: seq<Elem<H, D>>, i: nat)
    requires Apart(s) && i < |s|
    ensures Place(s, s[i].h) == i
  {
  }

  lemma SpliceKeeps<H, D>(s: seq<Elem<H, D>>, k: nat, e: Elem<H, D>, h: H)
    requires k <= |s| && Apart(s) && !Has(s, e.h) && Has(s, h)
    ensures var r := Splice(s, k, e);
            && Apart(r) && Has(r, h) && r[Place(r, h)].x == s[Place(s, h)].x
            && Place(r, h) == Place(s, h) + if Place(s, h) < k then 0 else 1
  {
    var r, i := Splice(s, k, e), Place(s, h);
    var j := if i < k then i else i + 1;
    assert forall m :: 0 <= m < |s| ==> s[m].h != e.h;
    assert r[j] == s[i];
    PlaceIs(r, j);
  }

  lemma RemoveKeeps<H, D>(s: seq<Elem<H, D>>, k: nat, h: H)
    requires k < |s| && Apart(s) && Has(s, h) && s[k].h != h
    ensures var r := RemoveAt(s, k);
            && Apart(r) && Has(r, h) && r[Place(r, h)].x == s[Place(s, h)].x
            && Place(r, h) == Place(s, h) - if Place(s, h) < k then 0 else 1
  {
    var r, i := RemoveAt(s, k), Place(s, h);
    var j := if i < k then i else i - 1;
    assert forall m :: 0 <= m < |r| ==> r[m] == s[if m < k then m else m + 1];
    assert r[j] == s[i];
    PlaceIs(r, j);
  }

  /** Where one call puts the element at position i, if it does not remove it. */
  function Shifted<H, D>(z: Zipper<Elem<H, D>>, op: Op<H, D>, i: nat): int {
    match op
    case InsertBefore(_, _) => if i < z.at then i else i + 1
    case InsertAfter(_, _) => if i <= z.at then i else i + 1
    case RemoveFront => i - 1
    case RemoveCurr => if i < z.at then i else i - 1
    case _ => i
  }

  lemma ApplyKeeps<H, D>(z: Zipper<Elem<H, D>>, op: Op<H, D>, h: H)
    requires z.Ok() && Apart(z.elems) && Legal(z, op) && Has(z.elems, h) && !Frees(z, op, h)
    ensures var r := Apply(z, op);
            && Apart(r.elems) && Has(r.elems, h) && r.elems[Place(r.elems, h)].x == z.elems[Place(z.elems, h)].x
            && Place(r.elems, h) == Shifted(z, op, Place(z.elems, h))
  {
    hide Has;
    hide Apart;
    hide Place;
    hide Splice;
    hide RemoveAt;
    var s := z.elems;
    HasSome(s, h);
    EndsRemoved(s);
    match op
    case InsertBefore(g, x) => SpliceKeeps(s, z.at, Elem(g, x), h);
    case InsertAfter(g, x) => SpliceKeeps(s, z.at + 1, Elem(g, x), h);
    case RemoveFront => RemoveKeeps(s, 0, h);
    case RemoveRear => RemoveKeeps(s, |s| - 1, h);
    case RemoveCurr => RemoveKeeps(s, z.at, h);
    case _ =>
  }

  lemma HasSome<H, D>(s: seq<Elem<H, D>>, h: H)
    ensures Has(s, h) <==> Place(s, h) < |s|
    ensures Has(s, h) ==> s != []
  {
  }

  /** The state after a legal run that frees h nowhere still has it, with its datum. */
  lemma {:induction false} HandleKept<H, D>(z: Zipper<Elem<H, D>>, ops: seq<Op<H, D>>, h: H)
    requires z.Ok() && Apart(z.elems) && Has(z.elems, h) && LegalRun(z, ops) && Spared(z, ops, h)
    ensures var r := Run(z, ops).0;
            Apart(r.elems) && Has(r.elems, h) && r.elems[Place(r.elems, h)].x == z.elems[Place(z.elems, h)].x
  {
    hide Apply;
    hide Apart;
    hide Has;
    hide Legal;
    hide Frees;
    if ops != [] {
      var n := |ops| - 1;
      var s := Run(z, ops[..n]).0;
      PrefixRuns(z, ops, n, h);
      HandleKept(z, ops[..n], h);
      assert Legal(s, ops[n]) && !Frees(s, ops[n], h);
      ApplyKeeps(s, ops[n], h);
    }
  }

  lemma PrefixRuns<H, D>(z: Zipper<Elem<H, D>>, ops: seq<Op<H, D>>, n: nat, h: H)
    requires z.Ok() && n <= |ops|
    ensures LegalRun(z, ops) ==> LegalRun(z, ops[..n])
    ensures Spared(z, ops, h) ==> Spared(z, ops[..n], h)
  {
    hide Legal;
    hide Frees;
    hide Run;
    assert forall i :: 0 <= i < n ==> ops[..n][..i] == ops[..i] && ops[..n][i] == ops[i];
  }

  lemma ApplyKeepsOrder<H, D>(z: Zipper<Elem<H, D>>, op: Op<H, D>, h: H, g: H)
    requires z.Ok() && Apart(z.elems) && Legal(z, op)
    requires Has(z.elems, h) && !Frees(z, op, h) && Has(z.elems, g) && !Frees(z, op, g)
    ensures var r := Apply(z, op).elems;
            Place(r, h) < Place(r, g) <==> Place(z.elems, h) < Place(z.elems, g)
  {
    hide Apply;
    hide Place;
    hide Has;
    hide Apart;
    ApplyKeeps(z, op, h);
    ApplyKeeps(z, op, g);
    HasSome(z.elems, h);
    HasSome(z.elems, g);
  }

  /** Elements that stay never change places, whatever is inserted and removed around them. */
  lemma {:induction false} OrderKept<H, D>(z: Zipper<Elem<H, D>>, ops: seq<Op<H, D>>, h: H, g: H)
    requires z.Ok() && Apart(z.elems) && LegalRun(z, ops)
    requires Has(z.elems, h) && Spared(z, ops, h) && Has(z.elems, g) && Spared(z, ops, g)
    ensures var r := Run(z, ops).0.elems;
            Place(r, h) < Place(r, g) <==> Place(z.elems, h) < Place(z.elems, g)
  {
    hide Apply;
    hide Apart;
    hide Has;
    hide Place;
    hide Legal;
    hide Frees;
    if ops != [] {
      var n := |ops| - 1;
      var s := Run(z, ops[..n]).0;
      PrefixRuns(z, ops, n, h);
      PrefixRuns(z, ops, n, g);
      OrderKept(z, ops[..n], h, g);
      HandleKept(z, ops[..n], h);
      HandleKept(z, ops[..n], g);
      assert Legal(s, ops[n]) && !Frees(s, ops[n], h) && !Frees(s, ops[n], g);
      ApplyKeepsOrder(s, ops[n], h, g);
    }
  }

  // --- Conservation

  lemma DataSpliced<H, D>(s: seq<Elem<H, D>>, k: nat, e: Elem<H, D>)
    requires k <= |s|
    ensures multiset(Data(Splice(s, k, e))) == multiset(Data(s)) + multiset([e.x])
  {
    assert Data(Splice(s, k, e)) == Data(s[..k]) + [e.x] + Data(s[k..]);
    assert Data(s) == Data(s[..k]) + Data(s[k..]);
  }

  lemma DataRemoved<H, D>(s: seq<Elem<H, D>>, k: nat)
    requires k < |s|
    ensures multiset([s[k].x]) + multiset(Data(RemoveAt(s, k))) == multiset(Data(s))
  {
    assert Data(RemoveAt(s, k)) == Data(s[..k]) + Data(s[k + 1..]);
    assert Data(s) == Data(s[..k]) + [s[k].x] + Data(s[k + 1..]);
  }

  lemma InsertsConserve<H, D>(z: Zipper<Elem<H, D>>, e: Elem<H, D>)
    requires z.Ok()
    ensures multiset(Data(z.InsertBefore(e).elems)) == multiset(Data(z.elems)) + multiset([e.x])
    ensures multiset(Data(z.InsertAfter(e).elems)) == multiset(Data(z.elems)) + multiset([e.x])
  {
    hide Data;
    hide Splice;
    DataSpliced(z.elems, z.at, e);
    if z.elems != [] {
      DataSpliced(z.elems, z.at + 1, e);
    } else {
      SpliceFront(z.elems, e);
      assert [e] + z.elems == [e];
    }
  }

  lemma RemovalsConserve<H, D>(z: Zipper<Elem<H, D>>)
    requires z.Ok() && z.elems != []
    ensures multiset([z.elems[0].x]) + multiset(Data(z.RemoveFront().elems)) == multiset(Data(z.elems))
    ensures multiset([z.elems[|z.elems| - 1].x]) + multiset(Data(z.RemoveRear().elems)) == multiset(Data(z.elems))
    ensures multiset([z.elems[z.at].x]) + multiset(Data(z.RemoveCurr().elems)) == multiset(Data(z.elems))
  {
    hide Data;
    hide RemoveAt;
    EndsRemoved(z.elems);
    DataRemoved(z.elems, 0);
    DataRemoved(z.elems, |z.elems| - 1);
    DataRemoved(z.elems, z.at);
  }

  lemma ApplyConserves<H, D>(z: Zipper<Elem<H, D>>, op: Op<H, D>)
    requires z.Ok()
    ensures multiset(Out(z, op)) + multiset(Data(Apply(z, op).elems)) == multiset(Data(z.elems)) + multiset(In(op))
  {
    hide *;
    CallIs(z, op);
    if op.InsertBefore? || op.InsertAfter? {
      InsertsConserve(z, Elem(op.h, op.x));
    } else if z.elems != [] && (op.RemoveFront? || op.RemoveRear? || op.RemoveCurr?) {
      RemovalsConserve(z);
    }
  }

  /** The cases of Apply, Out and In. */
  lemma CallIs<H, D>(z: Zipper<Elem<H, D>>, op: Op<H, D>)
    requires z.Ok()
    ensures op.InsertBefore? ==>
              Apply(z, op) == z.InsertBefore(Elem(op.h, op.x)) && Out(z, op) == [] && In(op) == [op.x]
    ensures op.InsertAfter? ==>
              Apply(z, op) == z.InsertAfter(Elem(op.h, op.x)) && Out(z, op) == [] && In(op) == [op.x]
    ensures !op.InsertBefore? && !op.InsertAfter? ==> In(op) == []
    ensures z.elems != [] && op.RemoveFront? ==> Apply(z, op) == z.RemoveFront() && Out(z, op) == [z.elems[0].x]
    ensures z.elems != [] && op.RemoveRear? ==>
              Apply(z, op) == z.RemoveRear() && Out(z, op) == [z.elems[|z.elems| - 1].x]
    ensures z.elems != [] && op.RemoveCurr? ==>
              z.at < |z.elems| && Apply(z, op) == z.RemoveCurr() && Out(z, op) == [z.elems[z.at].x]
    ensures z.elems == [] || !(op.RemoveFront? || op.RemoveRear? || op.RemoveCurr?) ==>
              Out(z, op) == [] && (op.InsertBefore? || op.InsertAfter? || Apply(z, op).elems == z.elems)
  {
    hide Splice;
    hide RemoveAt;
  }

  lemma Bags<D>(a: multiset<D>, b: multiset<D>, c: multiset<D>, d: multiset<D>, e: multiset<D>, f: multiset<D>,
                g: multiset<D>)
    requires a + b == c + d && e + f == b + g
    ensures (a + e) + f == c + (d + g)
  {
    assert (a + e) + f == a + (e + f);
    assert a + (b + g) == (a + b) + g;
    assert (c + d) + g == c + (d + g);
  }

  /** Over every run, what was there and what was put in is what came out and what is left. */
  lemma {:induction false} Conserved<H, D>(z: Zipper<Elem<H, D>>, ops: seq<Op<H, D>>)
    requires z.Ok()
    ensures var r := Run(z, ops);
            multiset(r.1) + multiset(Data(r.0.elems)) == multiset(Data(z.elems)) + multiset(Entered(ops))
  {
    hide Apply;
    hide Out;
    hide In;
    hide Data;
    if ops != [] {
      var n := |ops| - 1;
      var r := Run(z, ops[..n]);
      Conserved(z, ops[..n]);
      ApplyConserves(r.0, ops[n]);
      Bags(multiset(r.1), multiset(Data(r.0.elems)), multiset(Data(z.elems)), multiset(Entered(ops[..n])),
           multiset(Out(r.0, ops[n])), multiset(Data(Apply(r.0, ops[n]).elems)), multiset(In(ops[n])));
    }
  }

  /** list_setcurr to the element and list_remove_curr. */
  function Take<H, D>(h: H): seq<Op<H, D>> {
    [SetCurr(h), RemoveCurr]
  }

  /**
   A handle stays good through any legal run that does not free its own element:
   setcurr followed by remove_curr is then legal, returns the datum the element has
   always had, and takes out exactly that element.
   */
  lemma HandleStable<H, D>(z: Zipper<Elem<H, D>>, ops: seq<Op<H, D>>, h: H)
    requires z.Ok() && Apart(z.elems) && Has(z.elems, h) && LegalRun(z, ops) && Spared(z, ops, h)
    ensures LegalRun(z, ops + Take(h))
    ensures var r, t := Run(z, ops), Run(z, ops + Take(h));
            && Place(z.elems, h) < |z.elems| && Place(r.0.elems, h) < |r.0.elems|
            && t.0.elems == RemoveAt(r.0.elems, Place(r.0.elems, h))
            && t.1 == r.1 + [z.elems[Place(z.elems, h)].x]
  {
    var r := Run(z, ops);
    HandleKept(z, ops, h);
    HasSome(z.elems, h);
    HasSome(r.0.elems, h);
    TakeRun(r.0, h);
    RunConcat(z, ops, Take(h));
    LegalConcat(z, ops, Take(h));
  }

  lemma TakeRun<H, D>(z: Zipper<Elem<H, D>>, h: H)
    requires z.Ok() && Has(z.elems, h)
    ensures Place(z.elems, h) < |z.elems| && LegalRun(z, Take(h))
    ensures var r, k := Run(z, Take(h)), Place(z.elems, h);
            r.0.elems == RemoveAt(z.elems, k) && r.1 == [z.elems[k].x]
  {
    hide Has;
    hide RemoveAt;
    hide Run;
    hide Place;
    HasSome(z.elems, h);
    var ops: seq<Op<H, D>> := Take(h);
    assert ops[..0] == [] && ops[..1] == [SetCurr(h)] && ops[..2] == ops;
    RunNone(z);
    RunOne(z, SetCurr(h));
    RunTwo(z, SetCurr(h), RemoveCurr);
  }

  lemma RunNone<H, D>(z: Zipper<Elem<H, D>>)
    requires z.Ok()
    ensures Run(z, []) == (z, [])
  {
  }

  lemma RunOne<H, D>(z: Zipper<Elem<H, D>>, op: Op<H, D>)
    requires z.Ok()
    ensures Run(z, [op]).0 == Apply(z, op) && Run(z, [op]).1 == Out(z, op)
  {
    hide Apply;
    hide Out;
    assert [op][..0] == [];
  }

  lemma RunTwo<H, D>(z: Zipper<Elem<H, D>>, op: Op<H, D>, next: Op<H, D>)
    requires z.Ok()
    ensures Run(z, [op, next]).0 == Apply(Apply(z, op), next)
    ensures Run(z, [op, next]).1 == Out(z, op) + Out(Apply(z, op), next)
  {
    hide Apply;
    hide Out;
    RunOne(z, op);
    RunThen(z, [op], next);
    assert [op, next] == [op] + [next];
  }

  lemma LegalConcat<H, D>(z: Zipper<Elem<H, D>>, ops: seq<Op<H, D>>, more: seq<Op<H, D>>)
    requires z.Ok() && LegalRun(z, ops) && LegalRun(Run(z, ops).0, more)
    ensures LegalRun(z, ops + more)
  {
    hide Legal;
    hide Run;
    forall i | 0 <= i < |ops + more|
      ensures Legal(Run(z, (ops + more)[..i]).0, (ops + more)[i])
    {
      if i < |ops| {
        assert (ops + more)[..i] == ops[..i];
      } else {
        RunConcat(z, ops, more[..i - |ops|]);
        assert (ops + more)[..i] == ops + more[..i - |ops|];
      }
    }
  }

  // --- The same on a real list

  /** The elements ns with their data its. */
  ghost function Pair<H, D>(ns: seq<H>, its: seq<D>): (r: seq<Elem<H, D>>)
    requires |ns| == |its|
    ensures |r| == |ns| && forall i {:trigger r[i]} :: 0 <= i < |r| ==> r[i] == Elem(ns[i], its[i])
  {
    seq(|ns|, i requires 0 <= i < |ns| => Elem(ns[i], its[i]))
  }

  ghost function Zip<D>(l: List<D>): Zipper<Elem<Node<D>, D>>
    requires l.Valid()
    reads l, l.owned
  {
    Zipper(Pair(l.nodes, l.items), l.at)
  }

  lemma ZipIs<D>(l: List<D>)
    requires l.Valid()
    ensures |l.nodes| == |l.items| && Zip(l) == Zipper(Pair(l.nodes, l.items), l.at) && Zip(l).Ok()
    ensures l.View() == Zipper(l.nodes, l.at) && l.Contents() == Zipper(l.items, l.at) && l.View().Ok()
    ensures Apart(Zip(l).elems) && Data(Zip(l).elems) == l.items
    ensures forall h {:trigger Has(Zip(l).elems, h)} :: Has(Zip(l).elems, h) <==> h in l.nodes
  {
    forall h
      ensures Has(Zip(l).elems, h) <==> h in l.nodes
    {
      if h in l.nodes {
        var i :| 0 <= i < |l.nodes| && l.nodes[i] == h;
        assert Zip(l).elems[i].h == h;
      }
    }
  }

  lemma PairInserts<H, D>(ns: seq<H>, its: seq<D>, at: nat, h: H, x: D)
    requires |ns| == |its| && Zipper(ns, at).Ok()
    ensures var z, v, c := Zipper(Pair(ns, its), at), Zipper(ns, at), Zipper(its, at);
            && z.Ok() && c.Ok()
            && Zipper(Pair(v.InsertBefore(h).elems, c.InsertBefore(x).elems), v.InsertBefore(h).at) ==
               z.InsertBefore(Elem(h, x))
            && Zipper(Pair(v.InsertAfter(h).elems, c.InsertAfter(x).elems), v.InsertAfter(h).at) ==
               z.InsertAfter(Elem(h, x))
  {
    var z, v, c := Zipper(Pair(ns, its), at), Zipper(ns, at), Zipper(its, at);
    assert Pair(v.InsertBefore(h).elems, c.InsertBefore(x).elems) == z.InsertBefore(Elem(h, x)).elems;
    assert Pair(v.InsertAfter(h).elems, c.InsertAfter(x).elems) == z.InsertAfter(Elem(h, x)).elems;
  }

  lemma PairRemoves<H, D>(ns: seq<H>, its: seq<D>, at: nat)
    requires |ns| == |its| && Zipper(ns, at).Ok()
    ensures var z, v, c := Zipper(Pair(ns, its), at), Zipper(ns, at), Zipper(its, at);
            && z.Ok() && c.Ok()
            && Zipper(Pair(v.RemoveFront().elems, c.RemoveFront().elems), v.RemoveFront().at) == z.RemoveFront()
            && Zipper(Pair(v.RemoveRear().elems, c.RemoveRear().elems), v.RemoveRear().at) == z.RemoveRear()
            && Zipper(Pair(v.RemoveCurr().elems, c.RemoveCurr().elems), v.RemoveCurr().at) == z.RemoveCurr()
  {
    var z, v, c := Zipper(Pair(ns, its), at), Zipper(ns, at), Zipper(its, at);
    assert Pair(v.RemoveFront().elems, c.RemoveFront().elems) == z.RemoveFront().elems;
    assert Pair(v.RemoveRear().elems, c.RemoveRear().elems) == z.RemoveRear().elems;
    assert Pair(v.RemoveCurr().elems, c.RemoveCurr().elems) == z.RemoveCurr().elems;
  }

  /** The block an insertion links in. */
  ghost function Block<D>(op: Op<Node<D>, D>): set<Node<D>> {
    if op.InsertBefore? || op.InsertAfter? then {op.h} else {}
  }

  ghost function Blocks<D>(ops: seq<Op<Node<D>, D>>): set<Node<D>> {
    set i | 0 <= i < |ops| && (ops[i].InsertBefore? || ops[i].InsertAfter?) :: ops[i].h
  }

  method Insert<D>(l: List<D>, op: Op<Node<D>, D>)
    requires l.Valid() && (op.InsertBefore? || op.InsertAfter?) && Legal(Zip(l), op)
    modifies l, l.owned, Block(op)
    ensures l.Valid() && l.id == old(l.id) && l.owned <= old(l.owned) + Block(op)
    ensures Zip(l) == Apply(old(Zip(l)), op)
  {
    hide List.Valid;
    hide Pair;
    hide Has;
    hide Zipper.InsertBefore;
    hide Zipper.InsertAfter;
    ZipIs(l);
    PairInserts(l.nodes, l.items, l.at, op.h, op.x);
    if op.InsertBefore? {
      var _ := l.InsertBefore(op.x, op.h);
    } else {
      var _ := l.InsertAfter(op.x, op.h);
    }
    ZipIs(l);
  }

  method Remove<D>(l: List<D>, op: Op<Node<D>, D>) returns (out: seq<D>)
    requires l.Valid() && (op.RemoveFront? || op.RemoveRear? || op.RemoveCurr?)
    modifies l, l.owned
    ensures l.Valid() && l.id == old(l.id) && l.owned <= old(l.owned)
    ensures Zip(l) == Apply(old(Zip(l)), op) && out == Out(old(Zip(l)), op)
  {
    hide List.Valid;
    hide Zipper.RemoveFront;
    hide Zipper.RemoveRear;
    hide Zipper.RemoveCurr;
    ZipIs(l);
    PairRemoves(l.nodes, l.items, l.at);
    var r: Option<D>;
    if op.RemoveFront? {
      r := l.RemoveFront();
    } else if op.RemoveRear? {
      r := l.RemoveRear();
    } else {
      r := l.RemoveCurr();
    }
    ZipIs(l);
    return if r.Some? then [r.value] else [];
  }

  method Move<D>(l: List<D>, op: Op<Node<D>, D>)
    requires l.Valid() && Legal(Zip(l), op) && (op.SetOther? ==> op.h.id != l.id)
    requires op.MvPrev? || op.MvNext? || op.MvFront? || op.MvRear? || op.SetCurr? || op.SetOther?
    modifies l`curr, l`at
    ensures l.Valid()
    ensures Zip(l) == Apply(old(Zip(l)), op)
  {
    hide List.Valid;
    ZipIs(l);
    match op {
      case MvPrev => var _ := l.MvPrev();
      case MvNext => var _ := l.MvNext();
      case MvFront => l.MvFront();
      case MvRear => l.MvRear();
      case SetCurr(h) =>
        HasSome(Zip(l).elems, h);
        var _ := l.SetCurr(h);
        PlaceIs(Pair(l.nodes, l.items), l.at);
      case SetOther(h) => var _ := l.SetCurr(h);
    }
    ZipIs(l);
  }

  /** One call on the real list. */
  method Call<D>(l: List<D>, op: Op<Node<D>, D>) returns (out: seq<D>)
    requires l.Valid() && Legal(Zip(l), op) && (op.SetOther? ==> op.h.id != l.id)
    modifies l, l.owned, Block(op)
    ensures l.Valid() && l.id == old(l.id) && l.owned <= old(l.owned) + Block(op)
    ensures Zip(l) == Apply(old(Zip(l)), op) && out == Out(old(Zip(l)), op)
  {
    hide List.Valid;
    hide Apply;
    hide Legal;
    if op.InsertBefore? || op.InsertAfter? {
      Insert(l, op);
      return [];
    } else if op.RemoveFront? || op.RemoveRear? || op.RemoveCurr? {
      out := Remove(l, op);
    } else {
      Move(l, op);
      return [];
    }
  }

  /**
   Every legal run on a real list, blocks freed by one call and linked in again by
   another: the list stays well formed, and it is the list of the run.
   */
  method Play<D>(l: List<D>, ops: seq<Op<Node<D>, D>>) returns (outs: seq<D>)
    requires l.Valid() && LegalRun(Zip(l), ops)
    requires forall i :: 0 <= i < |ops| && ops[i].SetOther? ==> ops[i].h.id != l.id && ops[i].h !in Blocks(ops)
    modifies l, l.owned, Blocks(ops)
    ensures l.Valid() && l.id == old(l.id) && l.owned <= old(l.owned) + Blocks(ops)
    ensures Zip(l) == Run(old(Zip(l)), ops).0 && outs == Run(old(Zip(l)), ops).1
  {
    hide *;
    ZipIs(l);
    l.OwnedIs();
    ghost var z := Zip(l);
    outs := [];
    var i := 0;
    RunEnds(z, ops);
    while i < |ops|
      invariant i <= |ops|
      invariant l.Valid() && l.id == old(l.id) && l.owned <= old(l.owned) + Blocks(ops)
      invariant forall k :: 0 <= k < |ops| && ops[k].SetOther? ==> ops[k].h.id != l.id && ops[k].h !in l.owned
      invariant Zip(l) == Run(z, ops[..i]).0 && outs == Run(z, ops[..i]).1
    {
      RunNext(z, ops, i);
      LegalAt(z, ops, i);
      BlockIn(ops, i);
      var out := Call(l, ops[i]);
      outs := outs + out;
      i := i + 1;
    }
  }

  lemma RunEnds<H, D>(z: Zipper<Elem<H, D>>, ops: seq<Op<H, D>>)
    requires z.Ok()
    ensures Run(z, ops[..0]) == (z, []) && ops[..|ops|] == ops
  {
    RunNone(z);
    assert ops[..0] == [];
  }

  lemma RunNext<H, D>(z: Zipper<Elem<H, D>>, ops: seq<Op<H, D>>, i: nat)
    requires z.Ok() && i < |ops|
    ensures var r := Run(z, ops[..i]);
            Run(z, ops[..i + 1]).0 == Apply(r.0, ops[i]) && Run(z, ops[..i + 1]).1 == r.1 + Out(r.0, ops[i])
  {
    hide *;
    PrefixStep(ops, i);
    RunThen(z, ops[..i], ops[i]);
  }

  lemma LegalAt<H, D>(z: Zipper<Elem<H, D>>, ops: seq<Op<H, D>>, i: nat)
    requires z.Ok() && LegalRun(z, ops) && i < |ops|
    ensures Legal(Run(z, ops[..i]).0, ops[i])
  {
  }

  lemma BlockIn<D>(ops: seq<Op<Node<D>, D>>, i: nat)
    requires i < |ops|
    ensures Block(ops[i]) <= Blocks(ops)
  {
  }

  /** A client that keeps the handle h through such a run can still take its element out, and exactly that one. */
  method PlayAndTake<D>(l: List<D>, ops: seq<Op<Node<D>, D>>, h: Node<D>) returns (outs: seq<D>, x: D)
    requires l.Valid() && h in l.nodes && LegalRun(Zip(l), ops) && Spared(Zip(l), ops, h)
    requires forall i :: 0 <= i < |ops| && ops[i].SetOther? ==> ops[i].h.id != l.id && ops[i].h !in Blocks(ops)
    modifies l, l.owned, Blocks(ops)
    ensures l.Valid()
    ensures outs == Run(old(Zip(l)), ops).1
    ensures var z, r := old(Zip(l)), Run(old(Zip(l)), ops).0;
            && Place(z.elems, h) < |z.elems| && x == z.elems[Place(z.elems, h)].x
            && Place(r.elems, h) < |r.elems| && Zip(l).elems == RemoveAt(r.elems, Place(r.elems, h))
  {
    hide *;
    ZipIs(l);
    ghost var z := Zip(l);
    HandleKept(z, ops, h);
    HasSome(z.elems, h);
    outs := Play(l, ops);
    ghost var r := Zip(l);
    HasSome(r.elems, h);
    TakeRun(r, h);
    TakeIs(h);
    var last := Play(l, Take(h));
    x := last[0];
  }

  lemma TakeIs<D>(h: Node<D>)
    ensures Blocks(Take<Node<D>, D>(h)) == {}
    ensures forall i :: 0 <= i < |Take<Node<D>, D>(h)| ==> !Take<Node<D>, D>(h)[i].SetOther?
  {
  }
}
