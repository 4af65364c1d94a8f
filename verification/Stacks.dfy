/** stack.h: a list used as a stack.  The current element is always the front one. */
module Stacks {
  import opened Wrappers
  import opened Zippers
  import opened Lists
  import opened ListRuns

  predicate AtFront<T>(z: Zipper<T>) {
    z.Ok() && z.at == 0
  }

  /** stack_push and stack_pop. */
  predicate StackOp<H, D>(op: Op<H, D>) {
    op.InsertBefore? || op.RemoveFront?
  }

  predicate StackRun<H, D>(ops: seq<Op<H, D>>) {
    forall i :: 0 <= i < |ops| ==> StackOp(ops[i])
  }

  /** How far above some level a run ends that starts d elements above it; none if it pops below the level. */
  function Height<H, D>(ops: seq<Op<H, D>>, d: nat): Option<nat> {
    if ops == [] then Some(d)
    else
      var n := |ops| - 1;
      match Height(ops[..n], d)
      case None => None
      case Some(k) =>
        if ops[n].InsertBefore? then Some(k + 1)
        else if k > 0 then Some(k - 1)
        else None
  }

  lemma AboveLevel<H, D>(z: Zipper<Elem<H, D>>, op: Op<H, D>, k: nat)
    requires AtFront(z) && StackOp(op) && k <= |z.elems| && (op.RemoveFront? ==> k > 0)
    ensures AtFront(Apply(z, op))
    ensures var r, m := Apply(z, op).elems, if op.InsertBefore? then k + 1 else k - 1;
            m <= |r| && r[m..] == z.elems[k..]
  {
    if op.InsertBefore? {
      assert Apply(z, op).elems == [Elem(op.h, op.x)] + z.elems;
    }
  }

  /** A run that never pops below a level leaves everything below it in place. */
  lemma {:induction false} SettledRun<H, D>(z: Zipper<Elem<H, D>>, ops: seq<Op<H, D>>, d: nat)
    requires AtFront(z) && StackRun(ops) && d <= |z.elems| && Height(ops, d).Some?
    ensures var r, k := Run(z, ops).0, Height(ops, d).value;
            AtFront(r) && k <= |r.elems| && r.elems[k..] == z.elems[d..]
  {
    hide Apply;
    hide Out;
    hide StackOp;
    if ops != [] {
      var n := |ops| - 1;
      SettledRun(z, ops[..n], d);
      var r, k := Run(z, ops[..n]).0, Height(ops[..n], d).value;
      OneOfTwo(ops[n]);
      AboveLevel(r, ops[n], k);
    }
  }

  lemma OneOfTwo<H, D>(op: Op<H, D>)
    requires StackOp(op)
    ensures op.InsertBefore? || op.RemoveFront?
  {
  }

  /**
   Last in, first out: after a push and a run that pops only its own pushes, the
   next pop returns what was pushed and leaves the stack as it was before the push.
   */
  lemma Lifo<H, D>(z: Zipper<Elem<H, D>>, h: H, x: D, ops: seq<Op<H, D>>)
    requires AtFront(z) && StackRun(ops) && Height(ops, 0) == Some(0)
    ensures var all := [InsertBefore(h, x)] + ops + [RemoveFront];
            Run(z, all).0 == z && Run(z, all).1 == Run(Apply(z, InsertBefore(h, x)), ops).1 + [x]
  {
    var push: Op<H, D> := InsertBefore(h, x);
    var z' := Apply(z, push);
    assert z'.elems == [Elem(h, x)] + z.elems;
    SettledRun(z', ops, 0);
    hide Run;
    hide Height;
    var r := Run(z', ops);
    RunOne(z, push);
    RunConcat(z, [push], ops);
    RunThen(z, [push] + ops, RemoveFront);
    assert [] + r.1 == r.1;
  }

  method PushItem<T>(s: List<T>, data: T, block: Node?<T>) returns (r: Option<T>)
    requires s.Valid() && AtFront(s.Contents())
    requires block !in s.nodes
    modifies s, s.owned, block
    ensures s.Valid() && AtFront(s.Contents())
    ensures r.Some? <==> block != null
    ensures s.items == if r.Some? then [data] + old(s.items) else old(s.items)
  {
    r := s.InsertBefore(data, block);
  }

  method PopItem<T>(s: List<T>) returns (r: Option<T>)
    requires s.Valid() && AtFront(s.Contents())
    modifies s, s.owned
    ensures s.Valid() && AtFront(s.Contents())
    ensures old(s.items) == (if r.Some? then [r.value] else []) + s.items
    ensures r.None? ==> old(s.items) == []
  {
    r := s.RemoveFront();
  }

  lemma {:induction false} StaysInFront<H, D>(z: Zipper<Elem<H, D>>, ops: seq<Op<H, D>>)
    requires AtFront(z) && StackRun(ops)
    ensures AtFront(Run(z, ops).0)
  {
    if ops != [] {
      StaysInFront(z, ops[..|ops| - 1]);
    }
  }

  /** Every run of the macros on a real list, from stack_init: its state and what was popped. */
  method Play<T>(ops: seq<Op<Node<T>, T>>) returns (s: List<T>, outs: seq<T>)
    requires StackRun(ops) && LegalRun(Zipper([], 0), ops)
    modifies Blocks(ops)
    ensures fresh(s) && s.Valid() && AtFront(Zip(s))
    ensures Zip(s) == Run(Zipper([], 0), ops).0 && outs == Run(Zipper([], 0), ops).1
  {
    hide List.Valid;
    hide Run;
    hide LegalRun;
    s := new List<T>(0);
    ZipIs(s);
    outs := ListRuns.Play(s, ops);
    StaysInFront(Zipper([], 0), ops);
  }
}
