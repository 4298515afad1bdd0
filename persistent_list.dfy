/**
 * The persistent list as immutable values (src/third.rs).
 *
 * A `Node` holds one element and a link to the rest of the chain; a `List`
 * handle wraps an optional head node.  Nodes are never changed after they
 * are built, so a value-level model is exact: sharing a node between two
 * handles is the same as both handles holding equal values.  The reference
 * counts that make the sharing safe are modelled in module `RcList`, whose
 * operations are proved to agree with the functions here.
 */
module PersistentList {
  import opened Wrappers

  datatype Node<T> = Node(elem: T, next: Link<T>)

  /** `Option<Rc<Node<T>>>`: an optional shared reference to a node. */
  type Link<T> = Option<Node<T>>

  datatype List<T> = List(head: Link<T>)

  /** The elements of the chain that starts at `link`, front to back. */
  function Elements<T>(link: Link<T>): seq<T>
    decreases link
  {
    match link
    case None => []
    case Some(node) => [node.elem] + Elements(node.next)
  }

  /** `List::new`: a handle with no head. */
  function New<T>(): (r: List<T>)
    ensures Elements(r.head) == []
  {
    List(None)
  }

  /**
   * `List::prepend`: a new handle whose head node holds `elem` and links to
   * the original head; the original handle is only read.
   */
  function Prepend<T>(l: List<T>, elem: T): (r: List<T>)
    ensures Elements(r.head) == [elem] + Elements(l.head)
    ensures r.head.Some? && r.head.value.elem == elem && r.head.value.next == l.head
  {
    List(Some(Node(elem, l.head)))
  }

  /**
   * `List::tail`: the handle on the second node, which is the original's own
   * second node; an empty list has an empty tail.
   */
  function Tail<T>(l: List<T>): (r: List<T>)
    ensures Elements(r.head) == if Elements(l.head) == [] then [] else Elements(l.head)[1..]
    ensures l.head.Some? ==> r.head == l.head.value.next
  {
    List(match l.head
         case Some(node) => node.next
         case None => None)
  }

  /** `List::head`: the front element, or `None` for an empty list. */
  function Head<T>(l: List<T>): (r: Option<T>)
    ensures r.None? <==> Elements(l.head) == []
    ensures r.Some? ==> r.value == Elements(l.head)[0]
  {
    match l.head
    case Some(node) => Some(node.elem)
    case None => None
  }

  /** The handle reached from `l` by `k` successive calls of `tail`. */
  function Tails<T>(l: List<T>, k: nat): List<T>
    decreases k
  {
    if k == 0 then l else Tails(Tail(l), k - 1)
  }

  /** Taking the tail of a prepended list gives back the original handle. */
  lemma TailOfPrepend<T>(l: List<T>, elem: T)
    ensures Tail(Prepend(l, elem)) == l
    ensures Head(Prepend(l, elem)) == Some(elem)
  {
  }

  /** The tail of an empty list is empty, however many times it is taken. */
  lemma {:induction false} TailsOfEmpty<T>(k: nat)
    ensures Tails(New<T>(), k) == New<T>()
  {
    if k > 0 {
      TailsOfEmpty<T>(k - 1);
    }
  }

  /** `k` tails drop exactly the first `k` elements, or all of them. */
  lemma {:induction false} ElementsOfTails<T>(l: List<T>, k: nat)
    ensures Elements(Tails(l, k).head) ==
      if k <= |Elements(l.head)| then Elements(l.head)[k..] else []
    decreases k
  {
    if k > 0 {
      ElementsOfTails(Tail(l), k - 1);
    }
  }

  /**
   * The successive tails expose the elements in order: the head after `k`
   * tails is the `k`-th element, and `None` once the list is used up.
   */
  lemma HeadOfTails<T>(l: List<T>, k: nat)
    ensures Head(Tails(l, k)) ==
      if k < |Elements(l.head)| then Some(Elements(l.head)[k]) else None
  {
    ElementsOfTails(l, k);
  }

  /** The scenario of the `basics` test: 3, 2, 1 and then nothing, twice. */
  lemma Basics()
    ensures Head(New<int>()) == None
    ensures var l := Prepend(Prepend(Prepend(New<int>(), 1), 2), 3);
      Head(l) == Some(3) && Head(Tail(l)) == Some(2) && Head(Tail(Tail(l))) == Some(1)
      && Head(Tail(Tail(Tail(l)))) == None && Head(Tail(Tail(Tail(Tail(l))))) == None
  {
  }
}
