/// A doubly-linked deque whose nodes live on the heap. Each operation of the
/// C list runs under the list's own mutex, so each method here is one atomic
/// step and the locking is not modelled.
module ThreadSafeLinkedList {
  import opened Wrappers
  import opened DequeSpec

  /// One node: the stored element and the links to its neighbours.
  class Node<T> {
    var elem: T
    var prev: Node?<T>
    var next: Node?<T>

    /// A zero-initialised node holding `elem`, as `calloc` leaves it.
    constructor (elem: T)
      ensures this.elem == elem && prev == null && next == null
    {
      this.elem := elem;
      prev := null;
      next := null;
    }
  }

  class LinkedList<T> {
    // public view
    ghost var Contents: seq<T>     // the elements, front to back
    ghost var Repr: set<object>    // the objects the list uses

    // implementation
    var front: Node?<T>
    var back: Node?<T>
    ghost var nodes: seq<Node<T>>  // the nodes, front to back

    /// The doubly-linked shape: `nodes` lists distinct nodes holding
    /// `Contents`; `front` and `back` are its ends (both null when it is
    /// empty); the end links are null; consecutive nodes point at each other.
    ghost predicate Valid()
      reads this, Repr
    {
      this in Repr &&
      |nodes| == |Contents| &&
      (forall i | 0 <= i < |nodes| :: nodes[i] in Repr && nodes[i].elem == Contents[i]) &&
      (forall i, j | 0 <= i < j < |nodes| :: nodes[i] != nodes[j]) &&
      (if nodes == [] then front == null && back == null
       else front == nodes[0] && back == nodes[|nodes| - 1] &&
            nodes[0].prev == null && nodes[|nodes| - 1].next == null) &&
      (forall i | 0 <= i < |nodes| - 1 :: nodes[i].next == nodes[i + 1] && nodes[i + 1].prev == nodes[i])
    }

    /// `linked_list_new`: a list with no elements.
    constructor ()
      ensures Valid() && fresh(Repr)
      ensures Contents == []
    {
      front, back := null, null;
      nodes, Contents := [], [];
      Repr := {this};
    }

    /// `linked_list_empty`: the list is empty exactly when `front` is null,
    /// and then `back` is null too.
    function Empty(): (r: bool)
      requires Valid()
      reads this, Repr
      ensures r <==> Contents == []
      ensures r <==> back == null
    {
      front == null
    }

    /// `linked_list_insert_front`
    method InsertFront(elem: T)
      requires Valid()
      modifies Repr
      ensures Valid() && fresh(Repr - old(Repr))
      ensures Contents == [elem] + old(Contents)
    {
      var node := new Node(elem);
      if front == null {
        front, back := node, node;
        nodes, Contents, Repr := [node], [elem], Repr + {node};
        return;
      }
      node.next := front;
      front.prev := node;
      front := node;
      nodes, Contents, Repr := [node] + nodes, [elem] + Contents, Repr + {node};
    }

    /// `linked_list_insert_back`
    method InsertBack(elem: T)
      requires Valid()
      modifies Repr
      ensures Valid() && fresh(Repr - old(Repr))
      ensures Contents == old(Contents) + [elem]
    {
      var node := new Node(elem);
      if front == null {
        front, back := node, node;
        nodes, Contents, Repr := [node], [elem], Repr + {node};
        return;
      }
      back.next := node;
      node.prev := back;
      back := node;
      nodes, Contents, Repr := nodes + [node], Contents + [elem], Repr + {node};
    }

    /// `linked_list_remove_front`: `None` and no change on an empty list,
    /// otherwise the front element, which leaves the list.
    method RemoveFront() returns (res: Option<T>)
      requires Valid()
      modifies Repr
      ensures Valid() && fresh(Repr - old(Repr))
      ensures Repr <= old(Repr)
      ensures old(Contents) == [] ==> res == None && Contents == old(Contents)
      ensures old(Contents) != [] ==> res == Some(old(Contents)[0]) && Contents == old(Contents)[1..]
    {
      if front == null {
        return None;
      }
      assert |nodes| > 1 ==> nodes[0].next == nodes[1];
      var node := front;
      front := front.next;
      if front == null {
        back := null;
      } else {
        front.prev := null;
      }
      res := Some(node.elem);
      nodes, Contents, Repr := nodes[1..], Contents[1..], Repr - {node};
    }

    /// `linked_list_remove_back`: `None` and no change on an empty list,
    /// otherwise the back element, which leaves the list.
    method RemoveBack() returns (res: Option<T>)
      requires Valid()
      modifies Repr
      ensures Valid() && fresh(Repr - old(Repr))
      ensures Repr <= old(Repr)
      ensures old(Contents) == [] ==> res == None && Contents == old(Contents)
      ensures old(Contents) != [] ==>
                res == Some(old(Contents)[|old(Contents)| - 1]) &&
                Contents == old(Contents)[..|old(Contents)| - 1]
    {
      if back == null {
        return None;
      }
      ghost var n := |nodes|;
      assert n > 1 ==> nodes[n - 2].next == nodes[n - 1] && nodes[n - 1].prev == nodes[n - 2];
      var node := back;
      back := back.prev;
      if back == null {
        front := null;
      } else {
        back.next := null;
      }
      res := Some(node.elem);
      nodes, Contents, Repr := nodes[..|nodes| - 1], Contents[..|Contents| - 1], Repr - {node};
    }

    /// `linked_list_remove_comp`: with no comparator, the same as
    /// `RemoveFront`; otherwise the first element, front to back, that the
    /// comparator accepts leaves the list and is returned, and when none is
    /// accepted the list is unchanged and the result is `None`.
    method RemoveComp(comp: Option<T -> bool>) returns (res: Option<T>)
      requires Valid()
      modifies Repr
      ensures Valid() && fresh(Repr - old(Repr))
      ensures Repr <= old(Repr)
      ensures comp.None? && old(Contents) == [] ==> res == None && Contents == old(Contents)
      ensures comp.None? && old(Contents) != [] ==> res == Some(old(Contents)[0]) && Contents == old(Contents)[1..]
      ensures comp.Some? ==> (res, Contents) == RemoveFirstMatch(old(Contents), comp.value)
    {
      if comp.None? {
        res := RemoveFront();
        return;
      }
      var p := comp.value;
      if front == null {
        return None;
      }
      // The front element matches.
      if p(front.elem) {
        FirstIndexIs(Contents, p, 0);
        ghost var s := Contents;
        res := RemoveFront();
        assert Contents == RemoveAt(s, 0);
        return;
      }
      // A single element that does not match.
      if front.next == null {
        assert FirstIndex(Contents, p) == None;
        return None;
      }
      // Walk the interior nodes, strictly between front and back.
      var node := front.next;
      ghost var k := 1;
      while node != back && !p(node.elem)
        invariant 1 <= k < |nodes|
        invariant node == nodes[k]
        invariant forall j | 0 <= j < k :: !p(Contents[j])
        decreases |nodes| - k
      {
        node := node.next;
        k := k + 1;
      }
      if node != back {
        // `node` is interior and matches: splice it out.
        FirstIndexIs(Contents, p, k);
        res := Some(node.elem);
        Splice(node, k);
        return;
      }
      // Only the back element is left to try.
      if p(back.elem) {
        FirstIndexIs(Contents, p, k);
        ghost var s := Contents;
        res := RemoveBack();
        assert Contents == RemoveAt(s, k);
        return;
      }
      assert FirstIndex(Contents, p) == None;
      return None;
    }

    /// Splices out `node`, an interior node at position `k`, by linking its
    /// neighbours to each other (the body of the interior loop of
    /// `linked_list_remove_comp` once it finds a match).
    method Splice(node: Node<T>, ghost k: nat)
      requires Valid()
      requires 0 < k < |nodes| - 1 && node == nodes[k]
      modifies Repr
      ensures Valid() && Repr == old(Repr) - {node}
      ensures Contents == RemoveAt(old(Contents), k)
    {
      assert nodes[k - 1].next == nodes[k] && nodes[k].prev == nodes[k - 1];
      assert nodes[k].next == nodes[k + 1] && nodes[k + 1].prev == nodes[k];
      var prev, next := node.prev, node.next;
      prev.next := next;
      next.prev := prev;
      nodes, Contents, Repr := RemoveAt(nodes, k), RemoveAt(Contents, k), Repr - {node};
    }

    /// The elements met by following `next` links from `n`, for at most
    /// `steps` nodes (stopping early at null).
    ghost function Forward(n: Node?<T>, steps: nat): seq<T>
      reads this, Repr
      decreases steps
    {
      if steps == 0 || n == null || n !in Repr then [] else [n.elem] + Forward(n.next, steps - 1)
    }

    /// The elements met by following `prev` links from `n`, likewise.
    ghost function Backward(n: Node?<T>, steps: nat): seq<T>
      reads this, Repr
      decreases steps
    {
      if steps == 0 || n == null || n !in Repr then [] else [n.elem] + Backward(n.prev, steps - 1)
    }

    /// The node reached from `n` after `steps` hops along `next`.
    ghost function Hop(n: Node?<T>, steps: nat): Node?<T>
      reads this, Repr
      decreases steps
    {
      if steps == 0 || n == null || n !in Repr then n else Hop(n.next, steps - 1)
    }

    lemma {:induction false} ForwardFrom(i: nat, steps: nat)
      requires Valid() && i < |nodes| && steps >= |nodes| - i
      ensures Forward(nodes[i], steps) == Contents[i..]
      ensures Hop(nodes[i], |nodes| - 1 - i) == back
      decreases |nodes| - i
    {
      if i < |nodes| - 1 {
        assert nodes[i].next == nodes[i + 1];
        ForwardFrom(i + 1, steps - 1);
        assert Contents[i..] == [Contents[i]] + Contents[i + 1..];
      }
    }

    lemma {:induction false} BackwardFrom(i: nat, steps: nat)
      requires Valid() && i < |nodes| && steps > i
      ensures |Backward(nodes[i], steps)| == i + 1
      ensures forall j | 0 <= j <= i :: Backward(nodes[i], steps)[j] == Contents[i - j]
      decreases i
    {
      if 0 < i {
        assert nodes[i].prev == nodes[i - 1] by {
          assert nodes[i - 1].next == nodes[i] && nodes[i].prev == nodes[i - 1];
        }
        BackwardFrom(i - 1, steps - 1);
      }
    }

    /// The links alone, without the ghost bookkeeping, give the contents:
    /// following `next` from `front` visits exactly `Contents` in order,
    /// reaches `back` after the last hop and then stops at null; following
    /// `prev` from `back` visits `Contents` in reverse.
    lemma Walks()
      requires Valid()
      ensures Forward(front, |Contents| + 1) == Contents
      ensures Contents != [] ==> Hop(front, |Contents| - 1) == back && back.next == null
      ensures Backward(back, |Contents| + 1) == Reversed(Contents)
    {
      if Contents != [] {
        ForwardFrom(0, |Contents| + 1);
        BackwardFrom(|nodes| - 1, |Contents| + 1);
        var b, r := Backward(back, |Contents| + 1), Reversed(Contents);
        assert forall j | 0 <= j < |b| :: b[j] == r[j];
      }
    }
  }
}
