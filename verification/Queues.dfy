/** queue.h: a list used as a queue.  The current element is always the rear one. */
module Queues {
  import opened Wrappers
  import opened Zippers
  import opened Lists
  import opened ListRuns

  predicate AtRear<T>(z: Zipper<T>) {
    z.Ok() && z.at + 1 >= |z.elems|
  }

  /** q_enqueue and q_dequeue. */
  predicate QueueOp<H, D>(op: Op<H, D>) {
    op.InsertAfter? || op.RemoveFront?
  }

  predicate QueueRun<H, D>(ops: seq<Op<H, D>>) {
    forall i :: 0 <= i < |ops| ==> QueueOp(ops[i])
  }

  /** One call moves elements from the queue to the client and from the client to the queue. */
  lemma FifoStep<H, D>(z: Zipper<Elem<H, D>>, op: Op<H, D>)
    requires AtRear(z) && QueueOp(op)
    ensures AtRear(Apply(z, op)) && Out(z, op) + Data(Apply(z, op).elems) == Data(z.elems) + In(op)
  {
    hide Splice;
    hide Data;
    var s := z.elems;
    if op.InsertAfter? {
      AppendsAtRear(s, Elem(op.h, op.x));
    } else if s != [] {
      TakesFront(s);
    }
  }

  lemma AppendsAtRear<H, D>(s: seq<Elem<H, D>>, e: Elem<H, D>)
    ensures Splice(s, |s|, e) == s + [e] && Data(s + [e]) == Data(s) + [e.x]
    ensures s == [] ==> [e] == s + [e]
    ensures [] + Data(s + [e]) == Data(s) + [e.x]
  {
  }

  lemma TakesFront<H, D>(s: seq<Elem<H, D>>)
    requires s != []
    ensures [s[0].x] + Data(s[1..]) == Data(s) + []
  {
  }

  /** First in, first out, over every run: what came out followed by what is left is what was put in. */
  lemma {:induction false} Fifo<H, D>(z: Zipper<Elem<H, D>>, ops: seq<Op<H, D>>)
    requires AtRear(z) && QueueRun(ops)
    ensures var (r, outs) := Run(z, ops);
            AtRear(r) && outs + Data(r.elems) == Data(z.elems) + Entered(ops)
  {
    hide Apply;
    hide Out;
    hide QueueOp;
    if ops != [] {
      var n := |ops| - 1;
      var (r, outs) := Run(z, ops[..n]);
      Fifo(z, ops[..n]);
      FifoStep(r, ops[n]);
      Regroup(outs, Out(r, ops[n]), Data(Apply(r, ops[n]).elems));
      Regroup(outs, Data(r.elems), In(ops[n]));
      Regroup(Data(z.elems), Entered(ops[..n]), In(ops[n]));
    }
  }

  method EnqueueItem<T>(q: List<T>, data: T, block: Node?<T>) returns (r: Option<T>)
    requires q.Valid() && AtRear(q.Contents())
    requires block !in q.nodes
    modifies q, q.owned, block
    ensures q.Valid() && AtRear(q.Contents())
    ensures r.Some? <==> block != null
    ensures q.items == if r.Some? then old(q.items) + [data] else old(q.items)
  {
    r := q.InsertAfter(data, block);
  }

  method DequeueItem<T>(q: List<T>) returns (r: Option<T>)
    requires q.Valid() && AtRear(q.Contents())
    modifies q, q.owned
    ensures q.Valid() && AtRear(q.Contents())
    ensures old(q.items) == (if r.Some? then [r.value] else []) + q.items
    ensures r.None? ==> old(q.items) == []
  {
    r := q.RemoveFront();
  }

  /** Every run of the macros on a real list, from q_init: its state, what was dequeued, and first in, first out. */
  method Play<T>(ops: seq<Op<Node<T>, T>>) returns (q: List<T>, outs: seq<T>)
    requires QueueRun(ops) && LegalRun(Zipper([], 0), ops)
    modifies Blocks(ops)
    ensures fresh(q) && q.Valid() && AtRear(Zip(q))
    ensures Zip(q) == Run(Zipper([], 0), ops).0 && outs == Run(Zipper([], 0), ops).1
    ensures outs + q.items == Entered(ops)
  {
    hide List.Valid;
    hide Run;
    hide Entered;
    hide LegalRun;
    q := new List<T>(0);
    ZipIs(q);
    outs := ListRuns.Play(q, ops);
    ZipIs(q);
    Fifo(Zipper([], 0), ops);
  }
}
