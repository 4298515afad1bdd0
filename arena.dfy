/**
 * The reference-counted node store behind the persistent list
 * (src/third.rs), as an arena of slots.
 *
 * Slot `i` holds node `i`: its element and the index of its successor.
 * `rc[i]` is the node's reference count (0 once the node is freed) and
 * `held[i]` is how many of those references are held from outside the
 * arena: by list handles, or by a teardown loop while it runs.  A node is
 * only ever created by `prepend`, pointing at a node that already exists,
 * so every successor index is smaller than its node's own index: chains
 * are finite and acyclic.
 */
module Arena {
  import opened Wrappers
  import PL = PersistentList

  /** An index into the arena, or none: `Option<Rc<Node<T>>>`. */
  type Ref = Option<nat>

  datatype Cell<T> = Cell(elem: T, next: Ref)

  /** Successors point strictly backwards, so no chain can loop. */
  ghost predicate WellFormed<T>(cells: seq<Cell<T>>)
  {
    forall i :: 0 <= i < |cells| && cells[i].next.Some? ==> cells[i].next.value < i
  }

  predicate InBounds<T>(cells: seq<Cell<T>>, link: Ref)
  {
    link.Some? ==> link.value < |cells|
  }

  /** One more reference to the node `link` names, if any. */
  function Incr(counts: seq<nat>, link: Ref): (r: seq<nat>)
    requires link.Some? ==> link.value < |counts|
    ensures |r| == |counts|
    ensures forall i :: 0 <= i < |r| ==> r[i] == if link == Some(i) then counts[i] + 1 else counts[i]
  {
    if link.Some? then counts[link.value := counts[link.value] + 1] else counts
  }

  /** One reference fewer to the node `link` names, if any. */
  function Decr(counts: seq<nat>, link: Ref): (r: seq<nat>)
    requires link.Some? ==> link.value < |counts| && counts[link.value] > 0
    ensures |r| == |counts|
    ensures forall i :: 0 <= i < |r| ==> r[i] == if link == Some(i) then counts[i] - 1 else counts[i]
  {
    if link.Some? then counts[link.value := counts[link.value] - 1] else counts
  }

  /** The number of slots whose `next` refers to node `i`. */
  ghost function Referrers<T>(cells: seq<Cell<T>>, i: nat): nat
    decreases |cells|
  {
    if cells == [] then 0
    else Referrers(cells[..|cells| - 1], i) + if cells[|cells| - 1].next == Some(i) then 1 else 0
  }

  /**
   * The arena invariant: every count is exactly the number of references
   * to its node, from outside and from other nodes, and a freed slot holds
   * no reference of its own.
   */
  ghost predicate Consistent<T>(cells: seq<Cell<T>>, rc: seq<nat>, held: seq<nat>)
  {
    && WellFormed(cells)
    && |rc| == |cells| && |held| == |cells|
    && (forall i :: 0 <= i < |cells| && rc[i] == 0 ==> cells[i].next == None)
    && (forall i :: 0 <= i < |cells| ==> rc[i] == held[i] + Referrers(cells, i))
  }

  /** The link is empty or names a node that has not been freed. */
  ghost predicate Live<T>(cells: seq<Cell<T>>, rc: seq<nat>, link: Ref)
  {
    InBounds(cells, link) && |rc| == |cells| && (link.Some? ==> rc[link.value] > 0)
  }

  /** The indices of the chain that starts at `link`, front to back. */
  ghost function Chain<T>(cells: seq<Cell<T>>, link: Ref): (c: seq<nat>)
    requires WellFormed(cells) && InBounds(cells, link)
    ensures forall k :: 0 <= k < |c| ==> c[k] < |cells|
    decreases if link.Some? then link.value + 1 else 0
  {
    match link
    case None => []
    case Some(i) => [i] + Chain(cells, cells[i].next)
  }

  /** The chain that starts at `link`, read back as an immutable value. */
  ghost function View<T>(cells: seq<Cell<T>>, link: Ref): PL.Link<T>
    requires WellFormed(cells) && InBounds(cells, link)
    decreases if link.Some? then link.value + 1 else 0
  {
    match link
    case None => None
    case Some(i) => Some(PL.Node(cells[i].elem, View(cells, cells[i].next)))
  }

  /** Node `i` lies on the chain of a node that is held from outside. */
  ghost predicate Reachable<T>(cells: seq<Cell<T>>, held: seq<nat>, i: nat)
    requires WellFormed(cells)
  {
    exists r :: 0 <= r < |cells| && r < |held| && held[r] > 0 && i in Chain(cells, Some(r))
  }

  // ---------------------------------------------------------------------
  // Shape of chains

  /** A chain visits strictly decreasing indices: every node is below the first. */
  lemma {:induction false} ChainBelow<T>(cells: seq<Cell<T>>, link: Ref)
    requires WellFormed(cells) && InBounds(cells, link) && link.Some?
    ensures var c := Chain(cells, link);
      c[0] == link.value && forall k :: 0 < k < |c| ==> c[k] < c[0]
    decreases link.value
  {
    var next := cells[link.value].next;
    if next.Some? {
      ChainBelow(cells, next);
    }
  }

  /** No node appears twice on a chain. */
  lemma {:induction false} ChainFresh<T>(cells: seq<Cell<T>>, link: Ref, k: nat)
    requires WellFormed(cells) && InBounds(cells, link) && k < |Chain(cells, link)|
    ensures Chain(cells, link)[k] !in Chain(cells, link)[..k]
    decreases k
  {
    if k > 0 {
      var next := cells[link.value].next;
      ChainBelow(cells, link);
      ChainFresh(cells, next, k - 1);
      assert Chain(cells, link)[..k] == [link.value] + Chain(cells, next)[..k - 1];
    }
  }

  /** The chain of a node's successor is included in the chain of the node. */
  lemma {:induction false} ChainSuffix<T>(cells: seq<Cell<T>>, link: Ref, i: nat)
    requires WellFormed(cells) && InBounds(cells, link)
    requires i in Chain(cells, link) && cells[i].next.Some?
    ensures cells[i].next.value in Chain(cells, link)
    decreases if link.Some? then link.value + 1 else 0
  {
    var j := link.value;
    if i != j {
      ChainSuffix(cells, cells[j].next, i);
    } else {
      assert Chain(cells, cells[j].next)[0] == cells[j].next.value;
    }
  }

  // ---------------------------------------------------------------------
  // Counting referrers

  /** A slot appended at the end refers to at most one more node. */
  lemma ReferrersAppend<T>(cells: seq<Cell<T>>, cell: Cell<T>, i: nat)
    ensures Referrers(cells + [cell], i) == Referrers(cells, i) + if cell.next == Some(i) then 1 else 0
  {
    assert (cells + [cell])[..|cells|] == cells;
  }

  /** No slot refers to a node at or beyond the end of a well-formed arena. */
  lemma {:induction false} ReferrersBeyond<T>(cells: seq<Cell<T>>, i: nat)
    requires WellFormed(cells) && i >= |cells|
    ensures Referrers(cells, i) == 0
    decreases |cells|
  {
    if cells != [] {
      ReferrersBeyond(cells[..|cells| - 1], i);
    }
  }

  /** Nothing refers to the newest node: only a handle can hold it. */
  lemma NewestUnreferenced<T>(cells: seq<Cell<T>>)
    requires WellFormed(cells) && |cells| > 0
    ensures Referrers(cells, |cells| - 1) == 0
  {
    ReferrersBeyond(cells[..|cells| - 1], |cells| - 1);
  }

  /** A node that slot `j` points to has at least one referrer. */
  lemma {:induction false} ReferrersCount<T>(cells: seq<Cell<T>>, j: nat, i: nat)
    requires j < |cells| && cells[j].next == Some(i)
    ensures Referrers(cells, i) > 0
    decreases |cells|
  {
    if j < |cells| - 1 {
      ReferrersCount(cells[..|cells| - 1], j, i);
    }
  }

  /** A node with a referrer has a slot pointing to it. */
  lemma {:induction false} SomeReferrer<T>(cells: seq<Cell<T>>, i: nat) returns (j: nat)
    requires Referrers(cells, i) > 0
    ensures j < |cells| && cells[j].next == Some(i)
    decreases |cells|
  {
    if cells[|cells| - 1].next == Some(i) {
      j := |cells| - 1;
    } else {
      j := SomeReferrer(cells[..|cells| - 1], i);
    }
  }

  /** Clearing the `next` of slot `x` removes exactly its own reference. */
  lemma {:induction false} ReferrersClear<T>(cells: seq<Cell<T>>, x: nat, i: nat)
    requires x < |cells|
    ensures Referrers(cells[x := cells[x].(next := None)], i) ==
      Referrers(cells, i) - if cells[x].next == Some(i) then 1 else 0
    decreases |cells|
  {
    var cells' := cells[x := cells[x].(next := None)];
    var n := |cells| - 1;
    if x == n {
      assert cells'[..n] == cells[..n];
    } else {
      assert cells'[..n] == cells[..n][x := cells[x].(next := None)];
      ReferrersClear(cells[..n], x, i);
      if cells[x].next == Some(i) {
        ReferrersCount(cells[..n], x, i);
      }
    }
  }

  // ---------------------------------------------------------------------
  // Consequences of exact counts

  /** A node that some slot points to has not been freed. */
  lemma Referenced<T>(cells: seq<Cell<T>>, rc: seq<nat>, held: seq<nat>, j: nat)
    requires Consistent(cells, rc, held)
    requires j < |cells| && cells[j].next.Some?
    ensures rc[cells[j].next.value] > 0
  {
    ReferrersCount(cells, j, cells[j].next.value);
  }

  /** Every node on the chain of a live node is live. */
  lemma {:induction false} ChainLive<T>(cells: seq<Cell<T>>, rc: seq<nat>, held: seq<nat>, link: Ref)
    requires Consistent(cells, rc, held) && Live(cells, rc, link)
    ensures forall i :: i in Chain(cells, link) ==> rc[i] > 0
    decreases if link.Some? then link.value + 1 else 0
  {
    if link.Some? {
      var i := link.value;
      if cells[i].next.Some? {
        Referenced(cells, rc, held, i);
      }
      ChainLive(cells, rc, held, cells[i].next);
    }
  }

  /**
   * A live node is reachable from a node held from outside: it is held
   * itself, or a slot with a larger index points to it, and that slot is
   * live in turn.
   */
  lemma {:induction false} LiveIsReachable<T>(cells: seq<Cell<T>>, rc: seq<nat>, held: seq<nat>, i: nat)
    requires Consistent(cells, rc, held)
    requires i < |cells| && rc[i] > 0
    ensures Reachable(cells, held, i)
    decreases |cells| - i
  {
    if held[i] > 0 {
      assert i in Chain(cells, Some(i));
    } else {
      var j := SomeReferrer(cells, i);
      LiveIsReachable(cells, rc, held, j);
      var r :| 0 <= r < |cells| && r < |held| && held[r] > 0 && j in Chain(cells, Some(r));
      ChainSuffix(cells, Some(r), j);
    }
  }

  /**
   * Under exact counts a node is live exactly when something held from
   * outside still reaches it: nothing reachable has been freed, and nothing
   * unreachable is kept.
   */
  lemma LiveIffReachable<T>(cells: seq<Cell<T>>, rc: seq<nat>, held: seq<nat>)
    requires Consistent(cells, rc, held)
    ensures forall i :: 0 <= i < |cells| ==> (rc[i] > 0 <==> Reachable(cells, held, i))
  {
    forall i | 0 <= i < |cells|
      ensures rc[i] > 0 <==> Reachable(cells, held, i)
    {
      if rc[i] > 0 {
        LiveIsReachable(cells, rc, held, i);
      }
      if Reachable(cells, held, i) {
        var r :| 0 <= r < |cells| && r < |held| && held[r] > 0 && i in Chain(cells, Some(r));
        ChainLive(cells, rc, held, Some(r));
      }
    }
  }

  /** Once no node is held from outside, every node has been freed: no cycle can leak. */
  lemma NoLeak<T>(cells: seq<Cell<T>>, rc: seq<nat>, held: seq<nat>)
    requires Consistent(cells, rc, held)
    requires forall i :: 0 <= i < |held| ==> held[i] == 0
    ensures forall i :: 0 <= i < |rc| ==> rc[i] == 0
  {
    LiveIffReachable(cells, rc, held);
  }

  // ---------------------------------------------------------------------
  // The steps that change counts keep them exact

  /**
   * A fresh node whose `next` takes over the held reference `link`; the
   * new node's own reference is held from outside.
   */
  lemma AllocKeepsCounts<T>(cells: seq<Cell<T>>, rc: seq<nat>, held: seq<nat>, elem: T, link: Ref)
    requires Consistent(cells, rc, held) && InBounds(cells, link)
    requires link.Some? ==> held[link.value] > 0
    ensures Consistent(cells + [Cell(elem, link)], rc + [1], Decr(held, link) + [1])
  {
    var n := |cells|;
    var cells' := cells + [Cell(elem, link)];
    var rc', held' := rc + [1], Decr(held, link) + [1];
    forall i | 0 <= i < |cells'|
      ensures rc'[i] == held'[i] + Referrers(cells', i)
    {
      ReferrersAppend(cells, Cell(elem, link), i);
      if i == n {
        ReferrersBeyond(cells, i);
      }
    }
    assert WellFormed(cells') by {
      forall i | 0 <= i < |cells'| && cells'[i].next.Some? ensures cells'[i].next.value < i {
        if i < n {
          assert cells'[i] == cells[i];
        }
      }
    }
  }

  /**
   * `Rc::try_unwrap` succeeding on the held node `i`: the node is freed and
   * the reference it held to its successor is now held from outside.
   */
  lemma FreeKeepsCounts<T>(cells: seq<Cell<T>>, rc: seq<nat>, held: seq<nat>, i: nat)
    requires Consistent(cells, rc, held)
    requires i < |cells| && held[i] > 0 && rc[i] == 1
    ensures Consistent(cells[i := cells[i].(next := None)], rc[i := 0], Incr(held[i := 0], cells[i].next))
  {
    var cells' := cells[i := cells[i].(next := None)];
    var rc', held' := rc[i := 0], Incr(held[i := 0], cells[i].next);
    forall j | 0 <= j < |cells'|
      ensures rc'[j] == held'[j] + Referrers(cells', j)
    {
      ReferrersClear(cells, i, j);
      if cells[i].next == Some(j) {
        ReferrersCount(cells, i, j);
      }
      if j == i {
        assert Referrers(cells, i) == 0;
        assert cells[i].next != Some(i);
      }
    }
  }

  // ---------------------------------------------------------------------
  // What the other handles see

  /** Adding a slot changes no existing chain. */
  lemma {:induction false} ViewAfterAlloc<T>(cells: seq<Cell<T>>, cell: Cell<T>, link: Ref)
    requires WellFormed(cells + [cell]) && InBounds(cells, link)
    ensures WellFormed(cells)
    ensures View(cells + [cell], link) == View(cells, link)
    decreases if link.Some? then link.value + 1 else 0
  {
    assert forall i :: 0 <= i < |cells| ==> cells[i] == (cells + [cell])[i];
    if link.Some? {
      ViewAfterAlloc(cells, cell, cells[link.value].next);
    }
  }

  /**
   * If every live slot is unchanged, every chain that starts at a live node
   * reads the same before and after.
   */
  lemma {:induction false} ViewOfLive<T>(before: seq<Cell<T>>, cells: seq<Cell<T>>, rc: seq<nat>, held: seq<nat>, link: Ref)
    requires WellFormed(before) && Consistent(cells, rc, held) && |before| == |cells|
    requires forall i :: 0 <= i < |cells| && rc[i] > 0 ==> cells[i] == before[i]
    requires Live(cells, rc, link)
    ensures View(cells, link) == View(before, link)
    decreases if link.Some? then link.value + 1 else 0
  {
    if link.Some? {
      var i := link.value;
      if cells[i].next.Some? {
        Referenced(cells, rc, held, i);
      }
      ViewOfLive(before, cells, rc, held, cells[i].next);
    }
  }

  /** Like `ViewOfLive`, for the indices of the chain. */
  lemma {:induction false} ChainOfLive<T>(before: seq<Cell<T>>, cells: seq<Cell<T>>, rc: seq<nat>, held: seq<nat>, link: Ref)
    requires WellFormed(before) && Consistent(cells, rc, held) && |before| == |cells|
    requires forall i :: 0 <= i < |cells| && rc[i] > 0 ==> cells[i] == before[i]
    requires Live(cells, rc, link)
    ensures Chain(cells, link) == Chain(before, link)
    decreases if link.Some? then link.value + 1 else 0
  {
    if link.Some? {
      var i := link.value;
      if cells[i].next.Some? {
        Referenced(cells, rc, held, i);
      }
      ChainOfLive(before, cells, rc, held, cells[i].next);
    }
  }

  /** Reachability from held nodes does not depend on the slots no longer live. */
  lemma ReachableOfLive<T>(before: seq<Cell<T>>, cells: seq<Cell<T>>, rc: seq<nat>, held: seq<nat>, i: nat)
    requires WellFormed(before) && Consistent(cells, rc, held) && |before| == |cells|
    requires forall i :: 0 <= i < |cells| && rc[i] > 0 ==> cells[i] == before[i]
    ensures Reachable(cells, held, i) <==> Reachable(before, held, i)
  {
    if Reachable(cells, held, i) {
      var r :| 0 <= r < |cells| && r < |held| && held[r] > 0 && i in Chain(cells, Some(r));
      ChainOfLive(before, cells, rc, held, Some(r));
    }
    if Reachable(before, held, i) {
      var r :| 0 <= r < |before| && r < |held| && held[r] > 0 && i in Chain(before, Some(r));
      ChainOfLive(before, cells, rc, held, Some(r));
    }
  }

  /**
   * After slots that are no longer live have been freed, a node is still
   * live exactly when a node held from outside reaches it through the
   * links as they were before, and every held node reads as it did.
   */
  lemma KeptIffReachable<T>(before: seq<Cell<T>>, cells: seq<Cell<T>>, rc: seq<nat>, held: seq<nat>)
    requires WellFormed(before) && Consistent(cells, rc, held) && |before| == |cells|
    requires forall i :: 0 <= i < |cells| && rc[i] > 0 ==> cells[i] == before[i]
    ensures forall i :: 0 <= i < |cells| ==> (rc[i] > 0 <==> Reachable(before, held, i))
    ensures forall r :: 0 <= r < |cells| && held[r] > 0 ==> View(cells, Some(r)) == View(before, Some(r))
  {
    LiveIffReachable(cells, rc, held);
    forall i | 0 <= i < |cells|
      ensures rc[i] > 0 <==> Reachable(before, held, i)
    {
      ReachableOfLive(before, cells, rc, held, i);
    }
    forall r | 0 <= r < |cells| && held[r] > 0
      ensures View(cells, Some(r)) == View(before, Some(r))
    {
      ViewOfLive(before, cells, rc, held, Some(r));
    }
  }

  // ---------------------------------------------------------------------
  // The reference-counting primitives the list uses (`Rc` in src/third.rs)

  /**
   * `Rc::clone`: one more reference to the node `link` names, held by the
   * caller; nothing happens for an empty link.
   */
  method RcClone<T>(cells: seq<Cell<T>>, rc: seq<nat>, ghost held: seq<nat>, link: Ref)
    returns (rc': seq<nat>, ghost held': seq<nat>)
    requires Consistent(cells, rc, held) && InBounds(cells, link)
    ensures Consistent(cells, rc', held')
    ensures rc' == Incr(rc, link) && held' == Incr(held, link)
  {
    rc', held' := Incr(rc, link), Incr(held, link);
  }

  /**
   * `Rc::new(Node { elem, next })`: a node in the fresh slot `i` with count
   * one, whose `next` takes over the caller's reference `next`.  No
   * existing chain changes.
   */
  method RcNew<T>(cells: seq<Cell<T>>, rc: seq<nat>, ghost held: seq<nat>, elem: T, next: Ref)
    returns (cells': seq<Cell<T>>, rc': seq<nat>, ghost held': seq<nat>, i: nat)
    requires Consistent(cells, rc, held) && InBounds(cells, next)
    requires next.Some? ==> held[next.value] > 0
    ensures Consistent(cells', rc', held')
    ensures i == |cells| && cells' == cells + [Cell(elem, next)] && rc' == rc + [1]
    ensures held' == Decr(held, next) + [1]
    ensures View(cells', Some(i)) == Some(PL.Node(elem, View(cells, next)))
    ensures forall link :: InBounds(cells, link) ==> View(cells', link) == View(cells, link)
  {
    i := |cells|;
    AllocKeepsCounts(cells, rc, held, elem, next);
    cells', rc', held' := cells + [Cell(elem, next)], rc + [1], Decr(held, next) + [1];
    forall link | InBounds(cells, link)
      ensures View(cells', link) == View(cells, link)
    {
      ViewAfterAlloc(cells, Cell(elem, next), link);
    }
  }

  /**
   * `Rc::try_unwrap` on the caller's reference to node `i`: when the count
   * is exactly one the node is freed and its contents returned, its `next`
   * reference passing to the caller; otherwise nothing changes.  A node is
   * freed only when the caller's reference is the only one there is.
   */
  method RcTryUnwrap<T>(cells: seq<Cell<T>>, rc: seq<nat>, ghost held: seq<nat>, i: nat)
    returns (cells': seq<Cell<T>>, rc': seq<nat>, ghost held': seq<nat>, node: Option<Cell<T>>)
    requires Consistent(cells, rc, held) && i < |cells| && held[i] > 0
    ensures Consistent(cells', rc', held')
    ensures node.Some? <==> rc[i] == 1
    ensures node.Some? ==> held[i] == 1 && Referrers(cells, i) == 0
    ensures node.Some? ==>
      && node.value == cells[i]
      && cells' == cells[i := cells[i].(next := None)] && rc' == rc[i := 0]
      && held' == Incr(held[i := 0], cells[i].next)
    ensures node.None? ==> cells' == cells && rc' == rc && held' == held
  {
    if rc[i] == 1 {
      FreeKeepsCounts(cells, rc, held, i);
      cells', rc', held' := cells[i := cells[i].(next := None)], rc[i := 0], Incr(held[i := 0], cells[i].next);
      node := Some(cells[i]);
    } else {
      cells', rc', held', node := cells, rc, held, None;
    }
  }

  /**
   * Dropping the caller's reference to a node that is still shared: the
   * count goes down by one and the node stays.
   */
  method RcDropShared<T>(cells: seq<Cell<T>>, rc: seq<nat>, ghost held: seq<nat>, i: nat)
    returns (rc': seq<nat>, ghost held': seq<nat>)
    requires Consistent(cells, rc, held) && i < |cells| && held[i] > 0 && rc[i] > 1
    ensures Consistent(cells, rc', held')
    ensures rc' == rc[i := rc[i] - 1] && rc'[i] > 0
    ensures held' == held[i := held[i] - 1]
  {
    rc', held' := rc[i := rc[i] - 1], held[i := held[i] - 1];
  }

  // ---------------------------------------------------------------------
  // Dropping a list handle (`impl Drop for List` in src/third.rs)

  /**
   * The teardown loop of `drop`: the loop takes over the handle's
   * reference to `head`; while its reference is the only one to the node
   * in hand it frees that node and moves on to the successor, whose
   * reference it now holds; at the first node still shared it drops its
   * reference and stops.  The counts stay exact, the handle's reference is
   * gone, and no node that is still live has been touched (so, by
   * `KeptIffReachable`, exactly the nodes no other holder reaches are
   * freed).  The loop ends because every successor has a smaller index.
   */
  method Teardown<T>(cells: seq<Cell<T>>, rc: seq<nat>, ghost held: seq<nat>, head: Ref)
    returns (cells': seq<Cell<T>>, rc': seq<nat>, ghost held': seq<nat>)
    requires Consistent(cells, rc, held) && InBounds(cells, head)
    requires head.Some? ==> held[head.value] > 0
    ensures Consistent(cells', rc', held') && |cells'| == |cells|
    ensures held' == Decr(held, head)
    ensures forall i :: 0 <= i < |cells| && rc'[i] > 0 ==> cells'[i] == cells[i]
  {
    ghost var base := Decr(held, head);
    cells', rc', held' := cells, rc, held;
    var cur := head;
    while cur.Some?
      invariant Consistent(cells', rc', held') && |cells'| == |cells| && InBounds(cells, cur)
      invariant held' == Incr(base, cur)
      invariant forall i :: 0 <= i < |cells| && rc'[i] > 0 ==> cells'[i] == cells[i]
      decreases if cur.Some? then cur.value + 1 else 0
    {
      var i := cur.value;
      ghost var before := held';
      var node;
      cells', rc', held', node := RcTryUnwrap(cells', rc', held', i);
      if node.Some? {
        assert base[i] == 0 && before[i := 0] == base;
        cur := node.value.next;
      } else {
        rc', held' := RcDropShared(cells', rc', held', i);
        break;
      }
    }
  }
}
