/** list.c: a doubly linked list with a current element. */
module Lists {
  import opened Wrappers
  import opened Zippers

  /** The list's size and ids are uint32_t: they count modulo 2^32. */
  function U32(n: int): (r: nat)
    ensures r < 0x1_0000_0000
    ensures 0 <= n < 0x1_0000_0000 ==> r == n
  {
    n % 0x1_0000_0000
  }

  lemma U32Step(n: int)
    ensures U32(U32(n) + 1) == U32(n + 1)
    ensures U32(U32(n) - 1) == U32(n - 1)
  {
  }

  /** An element of a list; a client may keep one as a handle. */
  class Node<T> {
    var id: nat
    var prev: Node?<T>
    var next: Node?<T>
    var data: T

    constructor (data: T)
      ensures this.data == data
    {
      this.data := data;
    }
  }

  class List<T> {
    var id: nat
    var size: nat
    var front: Node?<T>
    var rear: Node?<T>
    var curr: Node?<T>
    ghost var nodes: seq<Node<T>>
    ghost var items: seq<T>
    ghost var at: nat
    /** The elements linked in, so that the rest of the heap is known to be untouched. */
    ghost var owned: set<Node<T>>

    /** The elements of ns are chained, in this order, from a null to a null. */
    static ghost predicate Chained(ns: seq<Node<T>>)
      reads ns`prev, ns`next
    {
      && Distinct(ns)
      && (forall i {:trigger ns[i].prev} :: 0 <= i < |ns| ==> ns[i].prev == if i == 0 then null else ns[i - 1])
      && (forall i {:trigger ns[i].next} :: 0 <= i < |ns| ==> ns[i].next == if i == |ns| - 1 then null else ns[i + 1])
    }

    /** ns was chained; x has been linked in at position k. */
    static ghost predicate LinkedIn(ns: seq<Node<T>>, k: nat, x: Node<T>)
      reads ns`prev, ns`next, x`prev, x`next
    {
      && k <= |ns| && x !in ns && Distinct(ns)
      && x.prev == (if k == 0 then null else ns[k - 1])
      && x.next == (if k == |ns| then null else ns[k])
      && (forall i {:trigger ns[i].prev} :: 0 <= i < |ns| ==>
            ns[i].prev == if i == k then x else if i == 0 then null else ns[i - 1])
      && (forall i {:trigger ns[i].next} :: 0 <= i < |ns| ==>
            ns[i].next == if i == k - 1 then x else if i == |ns| - 1 then null else ns[i + 1])
    }

    static lemma LinkedInIsChained(ns: seq<Node<T>>, k: nat, x: Node<T>)
      requires LinkedIn(ns, k, x)
      ensures Chained(Splice(ns, k, x))
    {
    }

    /** ns was chained; its position k has been linked out. */
    static ghost predicate LinkedOut(ns: seq<Node<T>>, k: nat)
      reads ns`prev, ns`next
    {
      && k < |ns| && Distinct(ns)
      && (forall i {:trigger ns[i].prev} :: 0 <= i < |ns| && i != k ==>
            ns[i].prev == if i == 0 || (i == 1 && k == 0) then null else if i == k + 1 then ns[k - 1] else ns[i - 1])
      && (forall i {:trigger ns[i].next} :: 0 <= i < |ns| && i != k ==>
            ns[i].next == if i == |ns| - 1 || (i == |ns| - 2 && k == |ns| - 1) then null
                          else if i == k - 1 then ns[k + 1] else ns[i + 1])
    }

    static lemma LinkedOutIsChained(ns: seq<Node<T>>, k: nat)
      requires LinkedOut(ns, k)
      ensures Chained(RemoveAt(ns, k))
      ensures k == 0 ==> Chained(ns[1..])
      ensures k == |ns| - 1 ==> Chained(ns[..k])
    {
    }

    static ghost function Elements(ns: seq<Node<T>>): set<Node<T>> {
      set n | n in ns
    }

    static lemma ElementsSpliced(ns: seq<Node<T>>, k: nat, x: Node<T>)
      requires k <= |ns|
      ensures Elements(Splice(ns, k, x)) == Elements(ns) + {x}
    {
      SpliceMembers(ns, k, x);
      hide Splice;
    }

    static lemma ElementsRemoved(ns: seq<Node<T>>, k: nat)
      requires k < |ns| && Distinct(ns)
      ensures Elements(RemoveAt(ns, k)) == Elements(ns) - {ns[k]}
    {
      RemovedMembers(ns, k);
      hide RemoveAt;
      hide Distinct;
    }

    static ghost predicate SameId(ns: seq<Node<T>>, id: nat)
      reads ns`id
    {
      forall i {:trigger ns[i].id} :: 0 <= i < |ns| ==> ns[i].id == id
    }

    /** The elements' data, in order. */
    static ghost predicate Carries(ns: seq<Node<T>>, its: seq<T>)
      reads ns`data
    {
      |its| == |ns| && forall i {:trigger ns[i].data} :: 0 <= i < |ns| ==> ns[i].data == its[i]
    }

    ghost predicate Valid()
      reads this, owned
    {
      && owned == Elements(nodes) && Chained(nodes) && SameId(nodes, id) && Carries(nodes, items)
      && size == U32(|nodes|)
      && front == (if nodes == [] then null else nodes[0])
      && rear == (if nodes == [] then null else nodes[|nodes| - 1])
      && curr == (if at < |nodes| then nodes[at] else null)
      && View().Ok()
    }

    /** What clients use of Valid. */
    lemma Facts()
      requires Valid()
      ensures |items| == |nodes|
      ensures forall i {:trigger nodes[i]} :: 0 <= i < |nodes| ==> nodes[i] in owned && nodes[i].id == id
      ensures nodes != [] ==> front == nodes[0] && rear == nodes[|nodes| - 1] && at < |nodes| && curr == nodes[at]
      ensures nodes == [] ==> front == rear == curr == null
      ensures size == U32(|nodes|)
      ensures forall i {:trigger nodes[i].data} {:trigger items[i]} :: 0 <= i < |nodes| ==> nodes[i].data == items[i]
      ensures Distinct(nodes)
    {
    }

    lemma CursorOk()
      requires Valid()
      ensures Zipper(items, at).Ok() && Contents() == Zipper(items, at)
      ensures |items| == |nodes| && size == U32(|nodes|)
    {
    }

    lemma CurrIsAt()
      requires Valid() && (nodes != [] || at > 0)
      ensures at < |nodes| && curr == nodes[at] && curr in owned
    {
    }

    /** The data of the current and the front element. */
    lemma CurrIsFront()
      requires Valid()
      ensures |items| == |nodes| && (nodes == [] ==> front == curr == null && at == 0)
      ensures nodes != [] ==>
                && at < |nodes| && curr != null && front != null
                && curr.data == items[at] && front.data == items[0] && curr in owned
    {
    }

    ghost function View(): Zipper<Node<T>>
      reads this
    {
      Zipper(nodes, at)
    }

    /** The same list seen through its data pointers. */
    ghost function Contents(): Zipper<T>
      reads this
    {
      Zipper(items, at)
    }

    constructor (id: nat)
      ensures Valid() && nodes == [] && items == [] && owned == {} && this.id == id
    {
      this.id := id;
      size := 0;
      front, rear, curr := null, null, null;
      nodes, items, at, owned := [], [], 0, {};
    }

    method MvPrev() returns (moved: bool)
      requires Valid()
      modifies this`curr, this`at
      ensures Valid()
      ensures View() == old(View()).MvPrev()
      ensures moved <==> View() != old(View())
    {
      if curr != null && curr.prev != null {
        curr := curr.prev;
        at := at - 1;
        return true;
      } else {
        return false;
      }
    }

    method MvNext() returns (moved: bool)
      requires Valid()
      modifies this`curr, this`at
      ensures Valid()
      ensures View() == old(View()).MvNext()
      ensures moved <==> View() != old(View())
    {
      if curr != null && curr.next != null {
        curr := curr.next;
        at := at + 1;
        return true;
      } else {
        return false;
      }
    }

    method MvFront()
      requires Valid()
      modifies this`curr, this`at
      ensures Valid()
      ensures at == 0
      ensures View() == old(View()).MvFront()
    {
      curr := front;
      at := 0;
    }

    method MvRear()
      requires Valid()
      modifies this`curr, this`at
      ensures Valid()
      ensures View() == old(View()).MvRear()
    {
      curr := rear;
      at := if nodes == [] then 0 else |nodes| - 1;
    }

    /**
     Only the id is compared.  An element of this list becomes current, one with
     another id is refused; one that carries this list's id but is not, or no
     longer, in it leaves the list with a current element from outside.
     */
    method SetCurr(element: Node<T>) returns (ok: bool)
      requires Valid()
      modifies this`curr, this`at
      ensures ok <==> element.id == id
      ensures if ok then curr == element else curr == old(curr) && at == old(at)
      ensures Valid() <==> !ok || element in nodes
      ensures element in nodes ==> ok && at < |nodes| && nodes[at] == element
    {
      if id != element.id {
        return false;
      }
      curr := element;
      if element in nodes {
        ghost var k :| 0 <= k < |nodes| && nodes[k] == element;
        at := k;
      }
      return true;
    }

    lemma OwnedIs()
      requires Valid()
      ensures forall n :: n in owned <==> n in nodes
      ensures forall n <- owned :: n.id == id
    {
    }

    /** What a client that keeps handles uses of Valid. */
    lemma ElementAt(k: nat)
      requires Valid() && k < |nodes|
      ensures nodes[k].id == id && nodes[k] in owned && nodes[k] in nodes && |items| == |nodes|
      ensures nodes[k].data == items[k]
      ensures at < |nodes| && (nodes[at] == nodes[k] ==> at == k)
    {
    }

    /** What both inserts write into a list of these elements: x linked in at position k and made current. */
    ghost predicate Linked(ns: seq<Node<T>>, k: nat, x: Node<T>)
      reads this`size, this`front, this`rear, this`curr, ns`prev, ns`next, x`prev, x`next
    {
      && k <= |ns| && LinkedIn(ns, k, x)
      && size == U32(|ns| + 1)
      && front == (if k == 0 then x else ns[0])
      && rear == (if k == |ns| then x else ns[|ns| - 1])
      && curr == x
    }

    /** Once the ghost fields follow, an insertion is complete. */
    lemma LinkedIsValid(ns: seq<Node<T>>, its: seq<T>, k: nat, x: Node<T>)
      requires Linked(ns, k, x) && SameId(ns, id) && Carries(ns, its) && owned == Elements(ns) + {x} && x.id == id
      requires nodes == Splice(ns, k, x) && items == Splice(its, k, x.data) && at == k
      ensures Valid()
    {
      hide LinkedIn;
      hide Chained;
      LinkedInIsChained(ns, k, x);
      ElementsSpliced(ns, k, x);
    }

    lemma ValidIs()
      requires Valid()
      ensures owned == Elements(nodes) && Distinct(nodes) && SameId(nodes, id) && Carries(nodes, items)
      ensures View().Ok() && Contents().Ok()
      ensures size == U32(|nodes|)
    {
    }

    /** The pointers of list_insert_before, in its three cases. */
    method ChainBefore(new_: Node<T>)
      requires Valid() && new_ !in nodes
      modifies this`front, this`rear, this`curr, owned`prev, owned`next, new_`prev, new_`next
      ensures LinkedIn(nodes, at, new_)
      ensures front == (if at == 0 then new_ else nodes[0])
      ensures rear == (if at == |nodes| then new_ else nodes[|nodes| - 1])
    {
      if front == null {
        new_.prev, new_.next := null, null;
        front, rear, curr := new_, new_, new_;
      } else if curr.prev == null {
        new_.prev := null;
        new_.next := curr;
        curr.prev := new_;
        front := new_;
      } else {
        new_.prev := curr.prev;
        curr.prev.next := new_;
        new_.next := curr;
        curr.prev := new_;
      }
    }

    /** The pointers of list_insert_after. */
    method ChainAfter(new_: Node<T>)
      requires Valid() && new_ !in nodes
      modifies this`front, this`rear, this`curr, owned`prev, owned`next, new_`prev, new_`next
      ensures var k := if nodes == [] then 0 else at + 1;
              && LinkedIn(nodes, k, new_)
              && front == (if k == 0 then new_ else nodes[0])
              && rear == (if k == |nodes| then new_ else nodes[|nodes| - 1])
    {
      if front == null {
        new_.prev, new_.next := null, null;
        front, rear, curr := new_, new_, new_;
      } else if curr.next == null {
        new_.next := null;
        new_.prev := curr;
        curr.next := new_;
        rear := new_;
      } else {
        new_.next := curr.next;
        new_.next.prev := new_;
        new_.prev := curr;
        curr.next := new_;
      }
    }

    method LinkBefore(new_: Node<T>, data: T)
      requires Valid() && new_ !in nodes
      modifies this`front, this`rear, this`curr, this`size, owned`prev, owned`next, new_
      ensures Linked(nodes, at, new_) && new_.data == data && new_.id == id
    {
      hide Chained;
      hide LinkedIn;
      hide U32;
      U32Step(|nodes|);
      new_.data, new_.id := data, id;
      ChainBefore(new_);
      curr := new_;
      size := U32(size + 1);
    }

    method LinkAfter(new_: Node<T>, data: T)
      requires Valid() && new_ !in nodes
      modifies this`front, this`rear, this`curr, this`size, owned`prev, owned`next, new_
      ensures Linked(nodes, if nodes == [] then 0 else at + 1, new_) && new_.data == data && new_.id == id
    {
      hide Chained;
      hide LinkedIn;
      hide U32;
      U32Step(|nodes|);
      new_.data, new_.id := data, id;
      ChainAfter(new_);
      curr := new_;
      size := U32(size + 1);
    }

    /** `block` is what malloc returned for the new element; null is the failed allocation. */
    method InsertBefore(data: T, block: Node?<T>) returns (r: Option<T>)
      requires Valid()
      requires block !in nodes
      modifies this, owned, block
      ensures Valid() && id == old(id)
      ensures owned == if block == null then old(owned) else old(owned) + {block}
      ensures r == if block == null then None else Some(data)
      ensures block == null ==> View() == old(View()) && items == old(items)
      ensures block != null ==> View() == old(View()).InsertBefore(block)
      ensures block != null ==> Contents() == old(Contents()).InsertBefore(data)
    {
      hide Valid;
      hide Linked;
      hide SameId;
      hide Carries;
      hide Elements;
      ValidIs();
      if block == null {
        return None;
      }
      ghost var ns, its := nodes, items;
      LinkBefore(block, data);
      nodes, items := Splice(ns, at, block), Splice(its, at, data);
      owned := owned + {block};
      LinkedIsValid(ns, its, at, block);
      return Some(block.data);
    }

    method InsertAfter(data: T, block: Node?<T>) returns (r: Option<T>)
      requires Valid()
      requires block !in nodes
      modifies this, owned, block
      ensures Valid() && id == old(id)
      ensures owned == if block == null then old(owned) else old(owned) + {block}
      ensures r == if block == null then None else Some(data)
      ensures block == null ==> View() == old(View()) && items == old(items)
      ensures block != null ==> View() == old(View()).InsertAfter(block)
      ensures block != null ==> Contents() == old(Contents()).InsertAfter(data)
    {
      hide Valid;
      hide Linked;
      hide SameId;
      hide Carries;
      hide Elements;
      ValidIs();
      if block == null {
        return None;
      }
      ghost var ns, its := nodes, items;
      LinkAfter(block, data);
      ghost var k := if nodes == [] then 0 else at + 1;
      nodes, items, at := Splice(ns, k, block), Splice(its, k, data), k;
      owned := owned + {block};
      LinkedIsValid(ns, its, k, block);
      return Some(block.data);
    }

    method RemoveSingle() returns (data: T)
      requires Valid() && |nodes| == 1
      modifies this
      ensures Valid() && id == old(id) && owned <= old(owned)
      ensures View() == old(View()).RemoveCurr() && Contents() == old(Contents()).RemoveCurr()
      ensures data == old(items[0])
    {
      data := curr.data;
      front, rear, curr := null, null, null;
      U32Step(|old(nodes)|);
      size := U32(size - 1);
      nodes, items, at, owned := [], [], 0, {};
    }

    /** What the removes write on two or more elements: position k linked out, the cursor moved to c. */
    ghost predicate Unlinked(ns: seq<Node<T>>, k: nat, c: Node<T>)
      reads this`size, this`front, this`rear, this`curr, ns`prev, ns`next
    {
      && k < |ns| && |ns| > 1 && LinkedOut(ns, k)
      && size == U32(|ns| - 1)
      && front == (if k == 0 then ns[1] else ns[0])
      && rear == (if k == |ns| - 1 then ns[k - 1] else ns[|ns| - 1])
      && curr == c
    }

    /** Once the ghost fields follow, a removal is complete. */
    lemma UnlinkedIsValid(ns: seq<Node<T>>, its: seq<T>, k: nat)
      requires at < |nodes| && Unlinked(ns, k, nodes[at]) && SameId(ns, id) && Carries(ns, its) && Distinct(ns)
      requires owned == Elements(ns) - {ns[k]}
      requires nodes == RemoveAt(ns, k) && items == RemoveAt(its, k)
      ensures Valid()
    {
      hide LinkedOut;
      hide Chained;
      LinkedOutIsChained(ns, k);
      ElementsRemoved(ns, k);
      assert forall i {:trigger nodes[i]} :: 0 <= i < |nodes| ==> nodes[i] == ns[if i < k then i else i + 1];
      assert forall i {:trigger items[i]} :: 0 <= i < |items| ==> items[i] == its[if i < k then i else i + 1];
    }

    method UnlinkFront() returns (data: T)
      requires Valid() && |nodes| > 1
      modifies this`front, this`rear, this`curr, this`size, owned`prev, owned`next
      ensures Unlinked(nodes, 0, nodes[if at == 0 then 1 else at])
      ensures data == old(items[0])
    {
      hide U32;
      data := front.data;
      front.next.prev := null;
      var temp := front;
      front := temp.next;
      if curr == temp {
        curr := temp.next;
      }
      U32Step(|nodes|);
      size := U32(size - 1);
    }

    method UnlinkRear() returns (data: T)
      requires Valid() && |nodes| > 1
      modifies this`front, this`rear, this`curr, this`size, owned`prev, owned`next
      ensures Unlinked(nodes, |nodes| - 1, nodes[if at == |nodes| - 1 then at - 1 else at])
      ensures data == old(items[|nodes| - 1])
    {
      hide U32;
      data := rear.data;
      rear.prev.next := null;
      var temp := rear;
      rear := temp.prev;
      if curr == temp {
        curr := temp.prev;
      }
      U32Step(|nodes|);
      size := U32(size - 1);
    }

    method UnlinkCurr() returns (data: T)
      requires Valid() && 0 < at < |nodes| - 1
      modifies this`front, this`rear, this`curr, this`size, owned`prev, owned`next
      ensures Unlinked(nodes, at, nodes[at + 1])
      ensures data == old(items[at])
    {
      hide U32;
      data := curr.data;
      var temp := curr;
      temp.next.prev := temp.prev;
      temp.prev.next := temp.next;
      curr := temp.next;
      U32Step(|nodes|);
      size := U32(size - 1);
    }

    lemma FrontAndRear()
      requires Valid()
      ensures front == null <==> nodes == []
      ensures nodes != [] ==> front == nodes[0] && rear == nodes[|nodes| - 1]
      ensures front == rear <==> |nodes| <= 1
      ensures curr == front <==> at == 0
      ensures curr == rear <==> at + 1 >= |nodes|
    {
    }

    method RemoveFront() returns (r: Option<T>)
      requires Valid()
      modifies this, owned
      ensures Valid() && id == old(id) && owned <= old(owned)
      ensures View() == old(View()).RemoveFront() && Contents() == old(Contents()).RemoveFront()
      ensures r == if old(nodes) == [] then None else Some(old(items[0]))
    {
      hide Valid;
      hide Unlinked;
      hide SameId;
      hide Carries;
      hide Elements;
      hide RemoveAt;
      ValidIs();
      FrontAndRear();
      ghost var ns, its := nodes, items;
      if front == null {
        return None;
      } else if front == rear {
        var data := RemoveSingle();
        return Some(data);
      } else {
        var data := UnlinkFront();
        EndsRemoved(ns);
        EndsRemoved(its);
        nodes, items, at := ns[1..], its[1..], if at == 0 then 0 else at - 1;
        owned := owned - {ns[0]};
        UnlinkedIsValid(ns, its, 0);
        return Some(data);
      }
    }

    method RemoveRear() returns (r: Option<T>)
      requires Valid()
      modifies this, owned
      ensures Valid() && id == old(id) && owned <= old(owned)
      ensures View() == old(View()).RemoveRear() && Contents() == old(Contents()).RemoveRear()
      ensures r == if old(nodes) == [] then None else Some(old(items[|nodes| - 1]))
    {
      hide Valid;
      hide Unlinked;
      hide SameId;
      hide Carries;
      hide Elements;
      hide RemoveAt;
      ValidIs();
      FrontAndRear();
      ghost var ns, its := nodes, items;
      if front == null {
        return None;
      } else if front == rear {
        var data := RemoveSingle();
        return Some(data);
      } else {
        var data := UnlinkRear();
        ghost var k := |nodes| - 1;
        EndsRemoved(ns);
        EndsRemoved(its);
        nodes, items, at := ns[..k], its[..k], if at == k then at - 1 else at;
        owned := owned - {ns[k]};
        UnlinkedIsValid(ns, its, k);
        return Some(data);
      }
    }

    method RemoveInner() returns (r: Option<T>)
      requires Valid() && 0 < at < |nodes| - 1
      modifies this, owned
      ensures Valid() && id == old(id) && owned <= old(owned)
      ensures View() == old(View()).RemoveCurr() && Contents() == old(Contents()).RemoveCurr()
      ensures r == Some(old(items[at]))
    {
      hide Valid;
      hide Unlinked;
      hide SameId;
      hide Carries;
      hide Elements;
      ValidIs();
      ghost var ns, its := nodes, items;
      var data := UnlinkCurr();
      nodes, items := RemoveAt(ns, at), RemoveAt(its, at);
      owned := owned - {ns[at]};
      UnlinkedIsValid(ns, its, at);
      return Some(data);
    }

    method RemoveCurr() returns (r: Option<T>)
      requires Valid()
      modifies this, owned
      ensures Valid() && id == old(id) && owned <= old(owned)
      ensures View() == old(View()).RemoveCurr() && Contents() == old(Contents()).RemoveCurr()
      ensures r == if old(nodes) == [] then None else Some(old(items[at]))
    {
      hide Valid;
      ValidIs();
      FrontAndRear();
      if front == null {
        return None;
      } else if front == rear {
        var data := RemoveSingle();
        return Some(data);
      } else if curr == front {
        EndsRemoved(nodes);
        EndsRemoved(items);
        r := RemoveFront();
      } else if curr == rear {
        EndsRemoved(nodes);
        EndsRemoved(items);
        r := RemoveRear();
      } else {
        r := RemoveInner();
      }
    }

    /** Calls `accept` (the C callback; true is LIST_TRUE) on element after element until it says no. */
    method Traverse(accept: T -> bool, opts: Options) returns (rc: Outcome, visited: seq<T>)
      requires Valid()
      modifies this`curr, this`at
      ensures Valid()
      ensures Walk(rc, visited, at) == Traversal(items, old(at), accept, opts)
      ensures nodes == old(nodes)
    {
      hide Has;
      hide StartAt;
      hide Valid;
      FrontAndRear();
      CursorOk();
      if front == null {
        return Empty, [];
      }
      ghost var d, k, start := items, at, StartAt(|nodes|, at, opts);
      var lp := StartNode(opts);
      var back := Has(opts, LIST_BACK);
      rc, visited := Follow(accept, lp, start, Route(items, start, back), back, Has(opts, LIST_ALTR));
      StopDecides(d, k, accept, opts, Walk(rc, visited, at));
    }

    lemma Neighbours(i: nat)
      requires Valid() && i < |nodes|
      ensures nodes[i].prev == if i == 0 then null else nodes[i - 1]
      ensures nodes[i].next == if i == |nodes| - 1 then null else nodes[i + 1]
      ensures |items| == |nodes| && nodes[i].data == items[i]
    {
    }

    method PutCursor(lp: Node<T>, ghost i: nat)
      requires Valid() && i < |nodes| && lp == nodes[i]
      modifies this`curr, this`at
      ensures Valid() && at == i
    {
      curr, at := lp, i;
    }

    /** The loop of list_traverse, the options decoded. */
    method Follow(accept: T -> bool, first: Node<T>, ghost start: nat, ghost route: seq<T>, back: bool, alter: bool)
        returns (rc: Outcome, visited: seq<T>)
      requires Valid() && start < |nodes| && first == nodes[start]
      requires |route| == if back then start + 1 else |nodes| - start
      requires forall j :: 0 <= j < |route| ==> route[j] == items[if back then start - j else start + j]
      modifies this`curr, this`at
      ensures Valid()
      ensures Walked(route, accept, old(at), start, back, alter, Walk(rc, visited, at))
    {
      hide Valid;
      hide Stops;
      hide Passed;
      hide Verdict;
      var lp := first;
      if alter {
        PutCursor(lp, start);
      }
      ghost var i, k := start, 0;
      PassNone(route, accept);
      rc := Ok;
      visited := [];
      var status := true;
      while status
        invariant Valid()
        invariant k < |route| && i == (if back then start - k else start + k) && lp == nodes[i]
        invariant at == if alter then i else old(at)
        invariant status ==> visited == route[..k] && rc == Ok && Passed(route, accept, k)
        invariant !status ==> visited == route[..k + 1] && Stops(route, accept, k) && rc == Verdict(visited, accept)
        decreases status, |route| - k
      {
        Neighbours(i);
        assert route[..k + 1] == route[..k] + [route[k]];
        visited := visited + [lp.data];
        assert visited[|visited| - 1] == route[k] && visited == route[..k + 1];
        PassStep(route, accept, k);
        status := accept(lp.data);
        if status {
          var onward := if back then lp.prev else lp.next;
          if onward == null {
            status := false;
            rc := Extent;
          } else {
            lp := onward;
            i, k := if back then i - 1 else i + 1, k + 1;
            if alter {
              PutCursor(lp, i);
            }
          }
        }
      }
    }

    method StartNode(opts: Options) returns (lp: Node<T>)
      requires Valid() && nodes != []
      ensures lp == nodes[StartAt(|nodes|, at, opts)]
    {
      if Has(opts, LIST_CURR) {
        lp := curr;
      } else if Has(opts, LIST_REAR) {
        lp := rear;
      } else {
        lp := front;
      }
    }

    /** How both caches search: list_traverse from the front, the cursor following. */
    method Search(goOn: T -> bool) returns (rc: Outcome)
      requires Valid()
      modifies this`curr, this`at
      ensures Valid()
      ensures rc == Ok <==> FirstMatch(items, goOn) < |items|
      ensures rc == Ok ==> at == FirstMatch(items, goOn)
    {
      SearchFromFront(items, at, goOn);
      var visited;
      rc, visited := Traverse(goOn, Seeking());
    }

    /** The call sequence by which both caches insert: list_mvfront, list_insert_before. */
    method InsertFront(data: T, block: Node?<T>) returns (r: Option<T>)
      requires Valid() && block !in nodes
      modifies this, owned, block
      ensures Valid() && id == old(id) && at == 0
      ensures owned == if block == null then old(owned) else old(owned) + {block}
      ensures r == if block == null then None else Some(data)
      ensures nodes == if block == null then old(nodes) else [block] + old(nodes)
      ensures items == if block == null then old(items) else [data] + old(items)
    {
      hide Valid;
      hide Splice;
      MvFront();
      if block != null {
        SpliceFront(nodes, block);
        SpliceFront(items, data);
      }
      r := InsertBefore(data, block);
    }

    /** The block that malloc may hand out of the rest of the heap. */
    static ghost function Given(malloc: Malloc<Node<T>>): set<Node<T>> {
      if malloc.Gives? then {malloc.block} else {}
    }

    /** The call sequence by which both caches promote: list_remove_curr, list_mvfront, list_insert_before. */
    method Promote(malloc: Malloc<Node<T>>) returns (data: T, block: Node?<T>)
      requires Valid() && 0 < at && (malloc.Gives? ==> malloc.block !in nodes)
      modifies this, owned, Given(malloc)
      ensures Valid() && id == old(id) && at == 0
      ensures owned <= old(owned) + Given(malloc)
      ensures data == old(items[at])
      ensures block == match malloc
                       case Fails => null
                       case Recycles => old(curr)
                       case Gives(b) => b
      ensures nodes == if block == null then RemoveAt(old(nodes), old(at)) else [block] + RemoveAt(old(nodes), old(at))
      ensures items == if block == null then RemoveAt(old(items), old(at)) else [data] + RemoveAt(old(items), old(at))
    {
      hide Valid;
      CurrIsAt();
      ValidIs();
      block := match malloc
        case Fails => null
        case Recycles => curr
        case Gives(b) => b;
      RemovedIsGone(nodes, at);
      RemoveAtMembers(nodes, at);
      var r := RemoveCurr();
      data := r.value;
      var _ := InsertFront(data, block);
    }

    /** `released` is what the deallocator was applied to, in order. */
    method Destroy(dealloc: Dealloc) returns (released: seq<T>)
      requires Valid()
      modifies this, owned
      ensures Valid() && nodes == []
      ensures released == if dealloc.NoDealloc? then [] else old(items)
    {
      hide Valid;
      released := [];
      MvFront();
      CursorOk();
      FrontAndRear();
      while front != null
        invariant Valid() && owned <= old(owned) && |items| == |nodes| && (front == null <==> nodes == [])
        invariant if dealloc.NoDealloc? then released == [] else released + items == old(items)
        decreases |nodes|
      {
        CursorOk();
        ghost var rest := items;
        var r := RemoveFront();
        assert rest == [r.value] + items;
        if !dealloc.NoDealloc? {
          Regroup(released, [r.value], items);
          released := released + [r.value];
        }
        CursorOk();
        FrontAndRear();
      }
    }
  }

  /** The three ways list_destroy treats each datum: leave it, free it, or call the user's routine. */
  datatype Dealloc = NoDealloc | Free | User
}
