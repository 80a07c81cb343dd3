/** The actuator list of gateway_list.c on values.

    `nodes` holds every record ever inserted, in insertion order: a record is never freed, so its
    index is its identity for good.  A pointer is an index, with NULL as -1.  Which nodes are
    listed is not stored; it follows from `head` and the `next` pointers, as in the source. */
module SharedList {
  import opened Base

  datatype Cell = Cell(name: Name, remote: Remote, next: int)
  datatype Heap = Heap(nodes: seq<Cell>, head: int)

  const NULL := -1

  predicate InHeap(h: Heap, p: int) {
    0 <= p < |h.nodes|
  }

  /** Every pointer goes to a strictly older node, dead nodes included. */
  ghost predicate Ordered(h: Heap) {
    && NULL <= h.head < |h.nodes|
    && forall i :: InHeap(h, i) ==> NULL <= h.nodes[i].next < i
  }

  /** The nodes a walk from p meets while nobody interferes. */
  ghost function Reach(h: Heap, p: int): seq<int>
    requires Ordered(h) && NULL <= p < |h.nodes|
    decreases p
  {
    if p == NULL then [] else [p] + Reach(h, h.nodes[p].next)
  }

  ghost function Listed(h: Heap): seq<int>
    requires Ordered(h)
  {
    Reach(h, h.head)
  }

  /** No pointer, not even one kept in a dead node, jumps over a listed node. */
  ghost predicate NoSkip(h: Heap)
    requires Ordered(h)
  {
    forall i, j :: InHeap(h, i) && j in Listed(h) && j < i ==> j <= h.nodes[i].next
  }

  ghost predicate HasName(h: Heap, i: int, name: Name) {
    InHeap(h, i) && h.nodes[i].name == name
  }

  /** Some listed node carries the name: what `node_exists` answers when run alone. */
  ghost predicate Lists(h: Heap, name: Name) {
    Ordered(h) && exists i :: i in Listed(h) && HasName(h, i, name)
  }

  ghost predicate DistinctNames(h: Heap)
    requires Ordered(h)
  {
    forall i, j ::
      i in Listed(h) && j in Listed(h) && InHeap(h, i) && InHeap(h, j) && h.nodes[i].name == h.nodes[j].name ==> i == j
  }

  ghost predicate Inv(h: Heap) {
    Ordered(h) && NoSkip(h) && DistinctNames(h)
  }

  const EMPTY := Heap([], NULL)

  /** `insert_node`: link the new record to the old head, then move the head. */
  function Insert(h: Heap, name: Name, remote: Remote): Heap {
    Heap(h.nodes + [Cell(name, remote, h.head)], |h.nodes|)
  }

  /** `head = head->next`. */
  function UnlinkHead(h: Heap): Heap {
    if InHeap(h, h.head) then h.(head := h.nodes[h.head].next) else h
  }

  /** `previous->next = current->next`; the bypassed record keeps its own pointer. */
  function UnlinkMid(h: Heap, cur: int, prev: int): Heap {
    if InHeap(h, cur) && InHeap(h, prev)
    then h.(nodes := h.nodes[prev := h.nodes[prev].(next := h.nodes[cur].next)])
    else h
  }

  /** The node `cur` with the pointer that leads to it, as `delete_node` has found them. */
  ghost predicate Linked(h: Heap, cur: int, prev: int)
    requires Ordered(h)
  {
    && cur in Listed(h)
    && if prev == NULL then cur == h.head
       else prev in Listed(h) && InHeap(h, prev) && h.nodes[prev].next == cur
  }

  function Unlink(h: Heap, cur: int, prev: int): Heap {
    if prev == NULL then UnlinkHead(h) else UnlinkMid(h, cur, prev)
  }

  function Without(s: seq<int>, x: int): (r: seq<int>)
    ensures forall y :: y in r <==> y in s && y != x
  {
    if s == [] then [] else (if s[0] == x then [] else [s[0]]) + Without(s[1..], x)
  }

  lemma {:induction false} WithoutAbsent(s: seq<int>, x: int)
    requires x !in s
    ensures Without(s, x) == s
  {
    if s != [] {
      WithoutAbsent(s[1..], x);
    }
  }

  // ----- what a walk meets -----

  lemma {:induction false} ReachProps(h: Heap, p: int)
    requires Ordered(h) && NULL <= p < |h.nodes|
    ensures forall x :: x in Reach(h, p) ==> 0 <= x <= p
    ensures forall x :: x in Reach(h, p) && InHeap(h, x) ==>
              h.nodes[x].next == NULL || h.nodes[x].next in Reach(h, p)
    ensures p != NULL ==> p in Reach(h, p)
    decreases p
  {
    if p != NULL {
      ReachProps(h, h.nodes[p].next);
    }
  }

  /** Newest first, without repetition. */
  lemma {:induction false} ReachDecreasing(h: Heap, p: int)
    requires Ordered(h) && NULL <= p < |h.nodes|
    ensures forall a, b :: 0 <= a < b < |Reach(h, p)| ==> Reach(h, p)[b] < Reach(h, p)[a]
    decreases p
  {
    if p != NULL {
      var rest := h.nodes[p].next;
      ReachDecreasing(h, rest);
      ReachProps(h, rest);
      forall a, b | 0 <= a < b < |Reach(h, p)|
        ensures Reach(h, p)[b] < Reach(h, p)[a]
      {
        assert Reach(h, p)[b] == Reach(h, rest)[b - 1] && Reach(h, rest)[b - 1] in Reach(h, rest);
        assert a > 0 ==> Reach(h, p)[a] == Reach(h, rest)[a - 1];
      }
    }
  }

  /** A walk depends only on the nodes at or below its start. */
  lemma {:induction false} ReachFrame(h: Heap, g: Heap, p: int)
    requires Ordered(h) && Ordered(g) && NULL <= p < |h.nodes| && p < |g.nodes|
    requires forall i :: 0 <= i <= p ==> h.nodes[i].next == g.nodes[i].next
    ensures Reach(g, p) == Reach(h, p)
    decreases p
  {
    if p != NULL {
      ReachFrame(h, g, h.nodes[p].next);
    }
  }

  // ----- insertion -----

  lemma InsertListed(h: Heap, name: Name, remote: Remote)
    requires Ordered(h)
    ensures Ordered(Insert(h, name, remote))
    ensures Listed(Insert(h, name, remote)) == [|h.nodes|] + Listed(h)
  {
    var g := Insert(h, name, remote);
    forall i | InHeap(g, i)
      ensures NULL <= g.nodes[i].next < i
    {
      if i < |h.nodes| {
        assert InHeap(h, i);
      }
    }
    ReachFrame(h, g, h.head);
  }

  /** Inserting a name that is not listed keeps the invariant. */
  lemma InsertInv(h: Heap, name: Name, remote: Remote)
    requires Inv(h) && !Lists(h, name)
    ensures Inv(Insert(h, name, remote))
  {
    var g := Insert(h, name, remote);
    InsertListed(h, name, remote);
    ReachProps(h, h.head);
    assert forall i :: i in Listed(h) ==> InHeap(h, i) && !HasName(h, i, name);
    forall i, j | InHeap(g, i) && j in Listed(g) && j < i
      ensures j <= g.nodes[i].next
    {
      if i < |h.nodes| {
        assert InHeap(h, i) && j in Listed(h);
      }
    }
    forall i, j | i in Listed(g) && j in Listed(g) && InHeap(g, i) && InHeap(g, j) && g.nodes[i].name == g.nodes[j].name
      ensures i == j
    {
      if i in Listed(h) && j in Listed(h) {
        assert InHeap(h, i) && InHeap(h, j);
      }
    }
  }

  // ----- unlinking -----

  lemma {:induction false} UnlinkMidReach(h: Heap, cur: int, prev: int, p: int)
    requires Ordered(h) && Ordered(UnlinkMid(h, cur, prev)) && NULL <= p < |h.nodes|
    requires InHeap(h, cur) && InHeap(h, prev) && h.nodes[prev].next == cur && prev in Reach(h, p)
    ensures Reach(UnlinkMid(h, cur, prev), p) == Without(Reach(h, p), cur)
    decreases p
  {
    var g, next := UnlinkMid(h, cur, prev), h.nodes[p].next;
    ReachProps(h, p);
    assert Reach(h, p) == [p] + Reach(h, next) && p != cur;
    if p == prev {
      var rest := h.nodes[cur].next;
      ReachFrame(h, g, rest);
      ReachProps(h, rest);
      WithoutAbsent(Reach(h, rest), cur);
      assert Reach(h, cur) == [cur] + Reach(h, rest);
      assert Without(Reach(h, cur), cur) == Reach(h, rest);
      assert Reach(g, p) == [p] + Reach(g, rest);
    } else {
      UnlinkMidReach(h, cur, prev, next);
      assert Reach(g, p) == [p] + Reach(g, next);
    }
    WithoutCons(p, Reach(h, next), cur);
  }

  lemma WithoutCons(p: int, s: seq<int>, x: int)
    requires p != x
    ensures Without([p] + s, x) == [p] + Without(s, x)
  {
    assert ([p] + s)[1..] == s;
  }

  /** Both branches of `delete_node` take exactly `cur` out of the list and keep the order of the
      others, and neither touches a name, a remote or the pointer inside the removed record. */
  lemma UnlinkListed(h: Heap, cur: int, prev: int)
    requires Ordered(h) && Linked(h, cur, prev)
    ensures var g := Unlink(h, cur, prev);
            && Ordered(g)
            && Listed(g) == Without(Listed(h), cur)
            && |g.nodes| == |h.nodes|
            && (forall i :: InHeap(h, i) ==>
                  g.nodes[i].name == h.nodes[i].name && g.nodes[i].remote == h.nodes[i].remote)
            && g.nodes[cur].next == h.nodes[cur].next
  {
    ReachProps(h, h.head);
    var g := Unlink(h, cur, prev);
    assert InHeap(h, cur);
    if prev == NULL {
      var rest := h.nodes[cur].next;
      ReachFrame(h, g, rest);
      ReachProps(h, rest);
      WithoutAbsent(Reach(h, rest), cur);
      assert Listed(h) == [cur] + Reach(h, rest);
    } else {
      assert Ordered(g);
      UnlinkMidReach(h, cur, prev, h.head);
    }
  }

  lemma UnlinkInv(h: Heap, cur: int, prev: int)
    requires Inv(h) && Linked(h, cur, prev)
    ensures Inv(Unlink(h, cur, prev))
  {
    var g := Unlink(h, cur, prev);
    UnlinkListed(h, cur, prev);
    ReachProps(h, h.head);
    forall i, j | InHeap(g, i) && j in Listed(g) && j < i
      ensures j <= g.nodes[i].next
    {
      assert InHeap(h, i) && j in Listed(h);
      if i == prev {
        assert j < cur && InHeap(h, cur);
      }
    }
    forall i, j | i in Listed(g) && j in Listed(g) && InHeap(g, i) && InHeap(g, j) && g.nodes[i].name == g.nodes[j].name
      ensures i == j
    {
      assert InHeap(h, i) && InHeap(h, j);
    }
  }

  /** Names are distinct, so the first match is the only one: after the unlink `node_exists`
      reports the name as gone, and every other name as before. */
  lemma UnlinkRemovesOnlyMatch(h: Heap, cur: int, prev: int, name: Name)
    requires Inv(h) && Linked(h, cur, prev) && InHeap(h, cur)
    ensures Ordered(Unlink(h, cur, prev))
    ensures Lists(Unlink(h, cur, prev), name) <==> Lists(h, name) && name != h.nodes[cur].name
  {
    var g := Unlink(h, cur, prev);
    UnlinkListed(h, cur, prev);
    if Lists(h, name) && name != h.nodes[cur].name {
      var i :| i in Listed(h) && HasName(h, i, name);
      assert i in Listed(g) && HasName(g, i, name);
    }
    if Lists(g, name) {
      var i :| i in Listed(g) && HasName(g, i, name);
      assert i in Listed(h) && HasName(h, i, name);
    }
  }
}
