/** The intrusive circular doubly linked lists of `list.h`: each ring stands for a sequence. */
module Lists {

  class Node {
    var prev: Node?
    var next: Node?
    /** The structure the node is embedded in; `riv_list_entry` gets back to it. */
    const owner: nat

    constructor (owner: nat)
      ensures this.owner == owner && prev == null && next == null
    {
      this.owner := owner;
      prev, next := null, null;
    }
  }

  /** The node at place `i` of the ring: the head is place 0, and place `|s| + 1` is the head again. */
  function Place(h: Node, s: seq<Node>, i: nat): Node
    requires i <= |s| + 1
  {
    if i == 0 || i == |s| + 1 then h else s[i - 1]
  }

  ghost predicate Distinct(h: Node, s: seq<Node>) {
    h !in s && forall i, j | 0 <= i < j < |s| :: s[i] != s[j]
  }

  /** The nodes `s`, in order, are linked into a ring through the head `h`. */
  ghost predicate Ring(h: Node, s: seq<Node>)
    reads h, s
  {
    && Distinct(h, s)
    && (forall i | 0 <= i <= |s| ::
          Place(h, s, i).next == Place(h, s, i + 1) && Place(h, s, i + 1).prev == Place(h, s, i))
  }

  /** A node that is in no list: linked to itself. */
  ghost predicate Detached(n: Node)
    reads n
  {
    n.prev == n && n.next == n
  }

  method Init(h: Node)
    modifies h
    ensures Ring(h, []) && Detached(h)
  {
    h.prev, h.next := h, h;
  }

  method IsEmpty(h: Node, ghost s: seq<Node>) returns (e: bool)
    requires Ring(h, s)
    ensures e <==> s == []
  {
    assert Place(h, s, 1) == h.next by { assert Place(h, s, 0) == h; }
    e := h.next == h;
  }

  /** `riv_list_insert` between two neighbours, at place `i + 1`. */
  method Insert(prev: Node, next: Node, n: Node, ghost h: Node, ghost s: seq<Node>, ghost i: nat)
    requires Ring(h, s) && i <= |s| && prev == Place(h, s, i) && next == Place(h, s, i + 1)
    requires n != h && n !in s
    modifies prev, next, n
    ensures Ring(h, s[..i] + [n] + s[i..])
  {
    n.prev := prev; n.next := next;
    prev.next := n; next.prev := n;
    ghost var t := s[..i] + [n] + s[i..];
    forall k | 0 <= k <= |t|
      ensures Place(h, t, k).next == Place(h, t, k + 1) && Place(h, t, k + 1).prev == Place(h, t, k)
    {
      if k < i {
        assert Place(h, t, k) == Place(h, s, k) && Place(h, t, k + 1) == Place(h, s, k + 1);
      } else if k > i + 1 {
        assert Place(h, t, k) == Place(h, s, k - 1) && Place(h, t, k + 1) == Place(h, s, k);
      }
    }
  }

  method AddTail(h: Node, n: Node, ghost s: seq<Node>)
    requires Ring(h, s) && n != h && n !in s
    modifies h, s, n
    ensures Ring(h, s + [n])
  {
    assert Place(h, s, |s|).next == Place(h, s, |s| + 1);
    Insert(h.prev, h, n, h, s, |s|);
    assert s[..|s|] + [n] + s[|s|..] == s + [n];
  }

  function Without<T>(s: seq<T>, i: int): seq<T>
    requires -1 <= i < |s|
  {
    if i < 0 then s else s[..i] + s[i + 1..]
  }

  /** `riv_list_del`: takes node `i` out of its ring; on a detached node (`i == -1`) it changes nothing. */
  method Delete(n: Node, ghost h: Node, ghost s: seq<Node>, ghost i: int)
    requires Ring(h, s) && -1 <= i < |s|
    requires if i < 0 then Detached(n) && n != h && n !in s else n == s[i]
    modifies h, s, n
    ensures Ring(h, Without(s, i)) && Detached(n)
  {
    if i >= 0 {
      assert Place(h, s, i + 1) == n;
      assert n.prev == Place(h, s, i) && n.next == Place(h, s, i + 2);
    }
    n.prev.next := n.next;
    n.next.prev := n.prev;
    n.prev, n.next := n, n;
    ghost var t := Without(s, i);
    forall k | 0 <= k <= |t|
      ensures Place(h, t, k).next == Place(h, t, k + 1) && Place(h, t, k + 1).prev == Place(h, t, k)
    {
      ghost var j := if i < 0 || k < i then k else k + 1;
      PlacesWithout(h, s, i, k);
      if k != i {
        assert old(Place(h, s, j).next) == Place(h, s, j + 1) && old(Place(h, s, j + 1).prev) == Place(h, s, j);
      }
    }
  }

  /** Where the places of a ring move when node `i` leaves it. */
  lemma PlacesWithout(h: Node, s: seq<Node>, i: int, k: nat)
    requires Distinct(h, s) && -1 <= i < |s| && k <= |Without(s, i)|
    ensures var t := Without(s, i);
            && (i < 0 || k < i ==> Place(h, t, k) == Place(h, s, k) && Place(h, t, k + 1) == Place(h, s, k + 1))
            && (0 <= i < k ==> Place(h, t, k) == Place(h, s, k + 1) && Place(h, t, k + 1) == Place(h, s, k + 2))
            && (0 <= i == k ==> Place(h, t, k) == Place(h, s, i) && Place(h, t, k + 1) == Place(h, s, i + 2))
            && (0 <= i ==> Place(h, t, k) != s[i] && Place(h, t, k + 1) != s[i])
            && (0 <= i && k != i ==> Place(h, t, k) != Place(h, s, i) && Place(h, t, k + 1) != Place(h, s, i + 2))
  {
  }

  /** `riv_list_pop`: the first node, or null from an empty list. */
  method Pop(h: Node, ghost s: seq<Node>) returns (n: Node?)
    requires Ring(h, s)
    modifies h, s
    ensures s == [] ==> n == null && Ring(h, s)
    ensures s != [] ==> n == s[0] && Ring(h, s[1..]) && Detached(s[0])
  {
    hide Ring;
    var e := IsEmpty(h, s);
    if e { return null; }
    FirstNode(h, s);
    n := h.next;
    Delete(n, h, s, 0);
    assert Without(s, 0) == s[1..];
  }

  lemma FirstNode(h: Node, s: seq<Node>)
    requires Ring(h, s) && s != []
    ensures h.next == s[0]
  {
    assert Place(h, s, 0).next == Place(h, s, 1);
  }
}
