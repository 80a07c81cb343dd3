/** gateway_list.c on the heap.

    `arena` lists every record ever inserted; `heap` is the list as SharedList sees it, with a record
    named by its position in the arena. */
module ActuatorList {
  import opened Base
  import opened Gateway
  import opened Solo
  import L = SharedList

  class ActuatorEntry {
    const name: Name
    const remote: Remote
    var next: ActuatorEntry?

    constructor (name: Name, remote: Remote)
      ensures this.name == name && this.remote == remote && next == null
    {
      this.name, this.remote, this.next := name, remote, null;
    }
  }

  /** The record behind an index, or NULL. */
  ghost function Ref(arena: seq<ActuatorEntry>, p: int): ActuatorEntry? {
    if 0 <= p < |arena| then arena[p] else null
  }

  /** The records hold what the cells say. */
  ghost predicate Stores(arena: seq<ActuatorEntry>, nodes: seq<L.Cell>)
    reads arena`next
  {
    && |arena| == |nodes|
    && (forall i :: 0 <= i < |arena| ==> arena[i].name == nodes[i].name && arena[i].remote == nodes[i].remote)
    && forall i {:trigger arena[i].next} :: 0 <= i < |arena| ==> arena[i].next == Ref(arena, nodes[i].next)
  }

  /** No record was inserted twice. */
  ghost predicate Fresh(arena: seq<ActuatorEntry>) {
    forall i, j :: 0 <= i < j < |arena| ==> arena[i] != arena[j]
  }

  class List {
    var head: ActuatorEntry?
    ghost var arena: seq<ActuatorEntry>
    ghost var heap: L.Heap
    ghost var Repr: set<object>

    ghost predicate Valid()
      reads this, Repr
      ensures Valid() ==> this in Repr && L.Ordered(heap)
    {
      && this in Repr && (forall e :: e in arena ==> e in Repr)
      && L.Ordered(heap) && Stores(arena, heap.nodes) && Fresh(arena)
      && head == Ref(arena, heap.head)
    }

    constructor ()
      ensures Valid() && fresh(Repr) && heap == L.EMPTY
    {
      head, arena, heap, Repr := null, [], L.EMPTY, {this};
    }

    /** `insert_node`. */
    method Insert(node: ActuatorEntry)
      requires Valid() && node !in Repr
      modifies this, node
      ensures Valid() && Repr == old(Repr) + {node}
      ensures heap == L.Insert(old(heap), node.name, node.remote)
    {
      L.InsertListed(heap, node.name, node.remote);
      node.next := head;
      head := node;
      heap := L.Insert(heap, node.name, node.remote);
      arena := arena + [node];
      Repr := Repr + {node};
    }

    /** The walk of `get_node`. */
    method GetNode(name: Name) returns (node: ActuatorEntry?, ghost p: int)
      requires Valid()
      ensures node == Ref(arena, p)
      ensures if L.Lists(heap, name) then p in L.Listed(heap) && L.HasName(heap, p, name) else p == L.NULL
    {
      node, p := head, heap.head;
      L.ReachProps(heap, heap.head);
      while node != null
        invariant L.NULL <= p < |arena| && node == Ref(arena, p)
        invariant p == L.NULL || p in L.Listed(heap)
        invariant forall i :: i in L.Listed(heap) && L.HasName(heap, i, name) ==> i in L.Reach(heap, p)
        decreases p
      {
        if node.name == name {
          return;
        }
        p := heap.nodes[p].next;
        node := node.next;
      }
    }

    /** `node_exists`: 0 when it does. */
    method NodeExists(name: Name) returns (code: int)
      requires Valid()
      ensures code == if L.Lists(heap, name) then 0 else 1
    {
      var node, _ := GetNode(name);
      code := if node != null then 0 else 1;
    }

    /** The search of `delete_node`: the first match with its predecessor. */
    method Search(name: Name)
      returns (current: ActuatorEntry?, previous: ActuatorEntry?, ghost cur: int, ghost prev: int)
      requires Valid()
      ensures current == Ref(arena, cur) && previous == Ref(arena, prev)
      ensures if L.Lists(heap, name)
              then L.Linked(heap, cur, prev) && L.HasName(heap, cur, name) && prev < |arena|
              else current == null
    {
      current, previous, cur, prev := head, null, heap.head, L.NULL;
      L.ReachProps(heap, heap.head);
      while current != null && current.name != name
        invariant L.NULL <= cur < |arena| && current == Ref(arena, cur)
        invariant L.NULL <= prev < |arena| && previous == Ref(arena, prev)
        invariant cur == L.NULL || L.Linked(heap, cur, prev)
        invariant forall i :: i in L.Listed(heap) && L.HasName(heap, i, name) ==> i in L.Reach(heap, cur)
        decreases cur
      {
        previous, prev := current, cur;
        cur := heap.nodes[cur].next;
        current := current.next;
      }
    }

    /** `delete_node`, left alone: 0 and the endpoint that is told, or 1. */
    method DeleteNode(name: Name) returns (code: int, told: Option<Remote>, ghost cur: int, ghost prev: int)
      requires Valid()
      modifies Repr
      ensures Valid() && Repr == old(Repr)
      ensures if L.Lists(old(heap), name)
              then && code == 0 && L.Linked(old(heap), cur, prev) && L.HasName(old(heap), cur, name)
                   && told == Some(old(heap).nodes[cur].remote) && heap == L.Unlink(old(heap), cur, prev)
              else code == 1 && told == None && heap == old(heap)
    {
      var current, previous;
      current, previous, cur, prev := Search(name);
      if current == null {
        return 1, None, cur, prev;
      }
      L.ReachProps(heap, heap.head);
      Unlink(current, previous, cur, prev);
      return 0, Some(current.remote), cur, prev;
    }

    /** The two unlink branches of `delete_node`. */
    method Unlink(current: ActuatorEntry, previous: ActuatorEntry?, ghost cur: int, ghost prev: int)
      requires Valid() && L.Linked(heap, cur, prev) && current == Ref(arena, cur)
      requires prev < |arena| && previous == Ref(arena, prev)
      modifies this`head, this`heap, arena`next
      ensures Valid() && heap == L.Unlink(old(heap), cur, prev)
    {
      L.UnlinkListed(heap, cur, prev);
      L.ReachProps(heap, heap.head);
      if current == head {
        head := head.next;
      } else {
        previous.next := current.next;
      }
      heap := L.Unlink(heap, cur, prev);
    }

    /** `traverse_and_fire`, left alone: one ON to every listed actuator, newest first.  `ons` are the
        same messages with the records they went to. */
    method TraverseAndFire() returns (sent: seq<Remote>, ghost ons: seq<Packet>)
      requires Valid()
      ensures ons == OnsTo(heap, L.Listed(heap))
      ensures |sent| == |ons| && forall k :: 0 <= k < |ons| ==> ons[k].On? && ons[k].remote == sent[k]
    {
      sent, ons := [], [];
      var ptr := head;
      ghost var p := heap.head;
      ghost var all := OnsTo(heap, L.Listed(heap));
      while ptr != null
        invariant L.NULL <= p < |arena| && ptr == Ref(arena, p)
        invariant all == ons + OnsTo(heap, L.Reach(heap, p))
        invariant |sent| == |ons| && forall k :: 0 <= k < |ons| ==> ons[k].On? && ons[k].remote == sent[k]
        decreases p
      {
        ghost var next := heap.nodes[p].next;
        OnsToReach(heap, p);
        assert ons + OnsTo(heap, L.Reach(heap, p)) == ons + [On(p, ptr.remote)] + OnsTo(heap, L.Reach(heap, next));
        sent, ons := sent + [ptr.remote], ons + [On(p, ptr.remote)];
        p := next;
        ptr := ptr.next;
      }
    }
  }
}
