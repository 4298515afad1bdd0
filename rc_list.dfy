/**
 * The persistent list with its reference counts made explicit
 * (src/third.rs): a `Heap` holds every node and its count, a `List` handle
 * holds one counted reference to its head node, and an `Iter` cursor borrows nodes
 * without owning any.
 *
 * Each handle operation is proved to agree with the value-level function of
 * module `PersistentList` on the chain it reads, and to keep the counts
 * exact (`Arena.Consistent`).  `Drop` runs the iterative teardown loop of
 * `Drop for List` (`Arena.Teardown`).
 */
module RcList {
  import opened Wrappers
  import opened Arena
  import PL = PersistentList

  /** The shared node store: the nodes, their counts and the handles' references. */
  class Heap<T> {
    var cells: seq<Cell<T>>
    var rc: seq<nat>
    /**
     * For every node, how many counted references to it are held from
     * outside the store: one per handle made by `New`, `Prepend` or `Tail`
     * and not yet dropped.  Nothing ties this record to `List` objects, so
     * it is exact only for callers that drop each such handle once and do
     * not copy a head into another handle.
     */
    ghost var held: seq<nat>

    ghost predicate Valid()
      reads this
    {
      Consistent(cells, rc, held)
    }

    /** `link` is a reference that some live handle holds. */
    ghost predicate Owns(link: Ref)
      reads this
    {
      link.Some? ==> link.value < |held| && held[link.value] > 0
    }

    /** The immutable list that a handle with head `link` stands for. */
    ghost function Model(link: Ref): PL.List<T>
      reads this
      requires WellFormed(cells) && InBounds(cells, link)
    {
      PL.List(View(cells, link))
    }

    constructor ()
      ensures Valid() && cells == [] && rc == [] && held == []
    {
      cells, rc, held := [], [], [];
    }
  }

  /** `List<T>`: a handle holding one counted reference to its head node. */
  class List<T> {
    var head: Ref

    /** `List::new`: a handle with no head, which needs no node. */
    constructor New()
      ensures head == None
    {
      head := None;
    }

    /** The struct literal `List { head }`, taking over the reference `head`. */
    constructor Wrap(head: Ref)
      ensures this.head == head
    {
      this.head := head;
    }

    /**
     * `List::prepend`: allocates a node holding `elem` whose `next` is a
     * clone of this handle's head reference.  The handle itself is only read.
     */
    method Prepend(heap: Heap<T>, elem: T) returns (r: List<T>)
      requires heap.Valid() && heap.Owns(head)
      modifies heap
      ensures heap.Valid() && fresh(r)
      ensures r.head == Some(|old(heap.cells)|)
      ensures heap.cells == old(heap.cells) + [Cell(elem, head)]
      ensures heap.rc == Incr(old(heap.rc), head) + [1]
      ensures heap.held == old(heap.held) + [1]
      ensures heap.Model(r.head) == PL.Prepend(old(heap.Model(head)), elem)
      ensures forall link :: InBounds(old(heap.cells), link) ==> heap.Model(link) == old(heap.Model(link))
    {
      // `self.head.clone()`
      var rc; ghost var held;
      rc, held := RcClone(heap.cells, heap.rc, heap.held, head);
      // `Rc::new(Node { elem, next })`, the clone moving into the node
      var cells, i;
      cells, rc, held, i := RcNew(heap.cells, rc, held, elem, head);
      assert held == heap.held + [1];
      heap.cells, heap.rc, heap.held := cells, rc, held;
      r := new List.Wrap(Some(i));
    }

    /**
     * `List::tail`: a new handle on the head node's successor, the very
     * slot of the original chain, whose count goes up by the clone.
     */
    method Tail(heap: Heap<T>) returns (r: List<T>)
      requires heap.Valid() && heap.Owns(head)
      modifies heap
      ensures heap.Valid() && fresh(r)
      ensures heap.cells == old(heap.cells)
      ensures InBounds(heap.cells, head)
      ensures r.head == if head.Some? then heap.cells[head.value].next else None
      ensures heap.rc == Incr(old(heap.rc), r.head)
      ensures heap.held == Incr(old(heap.held), r.head)
      ensures heap.Model(r.head) == PL.Tail(heap.Model(head))
    {
      var next: Ref := None;
      if head.Some? {
        next := heap.cells[head.value].next;
      }
      // `node.next.clone()`
      var rc; ghost var held;
      rc, held := RcClone(heap.cells, heap.rc, heap.held, next);
      heap.rc, heap.held := rc, held;
      r := new List.Wrap(next);
    }

    /** `List::head`: the element of the head node, if there is one. */
    function Head(heap: Heap<T>): (r: Option<T>)
      reads this, heap
      requires heap.Valid() && heap.Owns(head)
      ensures r == PL.Head(heap.Model(head))
    {
      if head.Some? then Some(heap.cells[head.value].elem) else None
    }

    /** `List::iter`: a cursor that borrows the head node, taking no reference. */
    method Iter() returns (it: Iter<T>)
      ensures fresh(it) && it.next == head
    {
      it := new Iter.Over(head);
    }

    /**
     * `Drop for List`: the handle's head is taken, and the teardown loop
     * frees the nodes that only this handle kept alive.  Afterwards the
     * handle's reference is gone, the counts are still exact, a node is
     * live exactly when another handle still reaches it, and every other
     * handle still reads the same list.
     */
    method Drop(heap: Heap<T>)
      requires heap.Valid() && heap.Owns(head)
      modifies this, heap
      ensures head == None && heap.Valid()
      ensures heap.held == Decr(old(heap.held), old(head))
      ensures |heap.cells| == |old(heap.cells)|
      ensures forall i :: 0 <= i < |heap.cells| && heap.rc[i] > 0 ==> heap.cells[i] == old(heap.cells)[i]
      ensures forall i :: 0 <= i < |heap.cells| ==>
        (heap.rc[i] > 0 <==> Reachable(old(heap.cells), heap.held, i))
      ensures forall r :: 0 <= r < |heap.cells| && heap.held[r] > 0 ==>
        heap.Model(Some(r)) == old(heap.Model(Some(r)))
    {
      // `self.head.take()`
      var cur := head;
      head := None;
      var cells, rc; ghost var held;
      cells, rc, held := Teardown(heap.cells, heap.rc, heap.held, cur);
      KeptIffReachable(heap.cells, cells, rc, held);
      heap.cells, heap.rc, heap.held := cells, rc, held;
    }
  }

  /** `Iter<'a, T>`: the node to yield next, borrowed from the list. */
  class Iter<T> {
    var next: Ref

    constructor Over(next: Ref)
      ensures this.next == next
    {
      this.next := next;
    }

    /** The elements the cursor has still to yield. */
    ghost function Remaining(heap: Heap<T>): seq<T>
      reads this, heap
      requires heap.Valid() && InBounds(heap.cells, next)
    {
      PL.Elements(View(heap.cells, next))
    }

    /**
     * `Iter::next`: yield the current node's element and move to its
     * successor; once exhausted, stay exhausted.  Only the cursor changes,
     * so no count is touched.
     */
    method Next(heap: Heap<T>) returns (item: Option<T>)
      requires heap.Valid() && Live(heap.cells, heap.rc, next)
      modifies this
      ensures Live(heap.cells, heap.rc, next)
      ensures next == if old(next).Some? then heap.cells[old(next).value].next else None
      ensures old(Remaining(heap)) == [] ==> item == None && next == None
      ensures old(Remaining(heap)) != [] ==>
        item == Some(old(Remaining(heap))[0]) && Remaining(heap) == old(Remaining(heap))[1..]
    {
      match next
      case None =>
        item := None;
      case Some(i) =>
        if heap.cells[i].next.Some? {
          Referenced(heap.cells, heap.rc, heap.held, i);
        }
        next := heap.cells[i].next;
        item := Some(heap.cells[i].elem);
    }
  }

  // ---------------------------------------------------------------------
  // Scenarios

  /** The `iter` test: iterating over 3, 2, 1 yields them in order, then nothing. */
  method IterScenario() returns (a: Option<int>, b: Option<int>, c: Option<int>, d: Option<int>)
    ensures a == Some(3) && b == Some(2) && c == Some(1) && d == None
  {
    var heap := new Heap<int>();
    var empty := new List.New();
    var one := empty.Prepend(heap, 1);
    assert PL.Elements(heap.Model(one.head).head) == [1];
    var two := one.Prepend(heap, 2);
    assert PL.Elements(heap.Model(two.head).head) == [2, 1];
    var three := two.Prepend(heap, 3);
    assert PL.Elements(heap.Model(three.head).head) == [3, 2, 1];
    var it := three.Iter();
    assert it.Remaining(heap) == [3, 2, 1];
    a := it.Next(heap);
    b := it.Next(heap);
    c := it.Next(heap);
    d := it.Next(heap);
  }

  /** Builds the lists 1 and 2, 1 and 3, 2, 1, each handle kept, and the tail of the last. */
  method BuildShared() returns (heap: Heap<int>, three: List<int>, tail: List<int>)
    ensures fresh(heap) && fresh(three) && fresh(tail) && heap.Valid() && three != tail
    ensures heap.cells == [Cell(1, None), Cell(2, Some(0)), Cell(3, Some(1))]
    ensures heap.held == [1, 2, 1]
    ensures three.head == Some(2) && tail.head == Some(1)
  {
    heap := new Heap<int>();
    var empty := new List.New();
    var one := empty.Prepend(heap, 1);
    var two := one.Prepend(heap, 2);
    three := two.Prepend(heap, 3);
    tail := three.Tail(heap);
  }

  /** An iterator over a new list yields nothing. */
  method EmptyIterScenario() returns (item: Option<int>)
    ensures item == None
  {
    var heap := new Heap<int>();
    var empty := new List.New();
    var it := empty.Iter();
    item := it.Next(heap);
  }

  /**
   * Dropping the list 3, 2, 1 while its tail is still held frees only the
   * node of 3; the nodes of 2 and 1 stay, and the tail still reads 2, 1.
   */
  method SharedDropScenario() returns (counts: seq<nat>, tailHead: Option<int>)
    ensures |counts| == 3 && counts[0] > 0 && counts[1] > 0 && counts[2] == 0
    ensures tailHead == Some(2)
  {
    var heap, three, tail := BuildShared();
    three.Drop(heap);
    assert heap.held == [1, 2, 0];
    NewestUnreferenced(heap.cells);
    counts := heap.rc;
    tailHead := tail.Head(heap);
    assert PL.Elements(heap.Model(tail.head).head) == [2, 1];
  }
}
