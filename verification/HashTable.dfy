/** gateway_hashtable.c on the heap: ten bucket heads, and records chained by `next`.

    A `Slot` is one element of the `entries` array, the head of a chain.  Each method states the new
    rows by the functions of ChainTable. */
module HashTable {
  import opened Base
  import opened NameHash
  import opened Gateway
  import opened ChainTable

  class SensorEntry {
    const name: Name
    const remote: Remote
    var wdt: nat
    var next: SensorEntry?

    constructor (name: Name, remote: Remote)
      ensures this.name == name && this.remote == remote && wdt == 0 && next == null
    {
      this.name, this.remote, this.wdt, this.next := name, remote, 0, null;
    }
  }

  /** The k-th record of a chain, or NULL past its end. */
  ghost function At(c: seq<SensorEntry>, k: nat): SensorEntry? {
    if k < |c| then c[k] else null
  }

  /** From `first` the chain runs through `c` to NULL. */
  ghost predicate Links(c: seq<SensorEntry>, first: SensorEntry?)
    reads c`next
  {
    first == At(c, 0) && forall k {:trigger c[k].next} :: 0 <= k < |c| ==> c[k].next == At(c, k + 1)
  }

  ghost predicate Holds(c: seq<SensorEntry>, rows: seq<Row>)
    reads c`wdt
  {
    |rows| == |c| && forall k :: 0 <= k < |c| ==> rows[k] == Row(c[k].name, c[k].remote, c[k].wdt)
  }

  /** No name repeats, so no record does either: a linked chain has no cycle. */
  ghost predicate Distinct(c: seq<SensorEntry>) {
    forall i, j :: 0 <= i < j < |c| ==> c[i].name != c[j].name
  }

  lemma DropHolds(c: seq<SensorEntry>, rows: seq<Row>, idx: nat)
    requires idx < |c| && Holds(c, rows) && Distinct(c)
    ensures Holds(Drop(c, idx), Drop(rows, idx)) && Distinct(Drop(c, idx))
  {
  }

  /** With the one pointer to it moved past it, a record drops out of its chain. */
  lemma DropLinks(c: seq<SensorEntry>, first: SensorEntry?, idx: nat)
    requires idx < |c|
    requires first == At(c, if idx == 0 then 1 else 0)
    requires forall j {:trigger c[j].next} :: 0 <= j < |c| && j != idx - 1 ==> c[j].next == At(c, j + 1)
    requires idx > 0 ==> c[idx - 1].next == At(c, idx + 1)
    ensures Links(Drop(c, idx), first)
  {
    var d := Drop(c, idx);
    forall k | 0 <= k < |d|
      ensures d[k].next == At(d, k + 1)
    {
      assert d[k] == c[if k < idx then k else k + 1];
    }
  }

  lemma AppendKeeps(c: seq<SensorEntry>, rows: seq<Row>, node: SensorEntry)
    requires Holds(c, rows) && Distinct(c) && forall j :: 0 <= j < |c| ==> c[j].name != node.name
    ensures Holds(c + [node], rows + [Row(node.name, node.remote, node.wdt)]) && Distinct(c + [node])
  {
  }

  lemma AppendLinks(c: seq<SensorEntry>, first: SensorEntry?, node: SensorEntry)
    requires first == if c == [] then node else c[0]
    requires forall j {:trigger c[j].next} :: 0 <= j < |c| ==> c[j].next == At(c + [node], j + 1)
    requires node.next == null
    ensures Links(c + [node], first)
  {
  }

  class Slot {
    var first: SensorEntry?
    ghost var nodes: seq<SensorEntry>

    ghost var rows: seq<Row>
    ghost var Repr: set<object>

    ghost predicate Valid()
      reads this, Repr
      ensures Valid() ==> this in Repr
    {
      && this in Repr && (forall e :: e in nodes ==> e in Repr)
      && Links(nodes, first) && Holds(nodes, rows) && Distinct(nodes)
    }

    constructor ()
      ensures Valid() && nodes == [] && rows == [] && fresh(Repr)
    {
      first, nodes, rows, Repr := null, [], [], {this};
    }

    /** The walk of the lookups: the record with the name, or NULL. */
    method Lookup(key: Name) returns (entry: SensorEntry?, ghost k: nat)
      requires Valid()
      ensures k == IndexOf(rows, key) && entry == At(nodes, k)
    {
      entry := first;
      k := 0;
      while entry != null
        invariant k <= |nodes| && entry == At(nodes, k)
        invariant forall j :: 0 <= j < k ==> nodes[j].name != key
        decreases |nodes| - k
      {
        if entry.name == key {
          break;
        }
        entry := entry.next;
        k := k + 1;
      }
      IndexOfIs(rows, key, k);
    }

    /** The walk and the insertion of `ht_set`. */
    method Set(node: SensorEntry)
      requires Valid() && node !in Repr && node.next == null
      modifies Repr, node
      ensures Valid() && Repr <= old(Repr) + {node}
      ensures if IndexOf(old(rows), node.name) == |old(rows)|
              then nodes == old(nodes) + [node] && rows == old(rows) + [Row(node.name, node.remote, old(node.wdt))]
              else nodes == old(nodes) && rows == old(rows)
    {
      if first == null {
        Append(null, node);
        return;
      }
      var entry := first;
      var prev := first;
      ghost var k := 0;
      while entry != null
        invariant k <= |nodes| && entry == At(nodes, k)
        invariant prev == nodes[if k > 0 then k - 1 else 0]
        invariant forall j :: 0 <= j < k ==> nodes[j].name != node.name
        decreases |nodes| - k
      {
        if entry.name == node.name {
          IndexOfIs(rows, node.name, k);
          return;
        }
        prev := entry;
        entry := prev.next;
        k := k + 1;
      }
      IndexOfIs(rows, node.name, k);
      Append(prev, node);
    }

    /** The insertion of `ht_set`: into the empty slot, or behind the last record. */
    method Append(prev: SensorEntry?, node: SensorEntry)
      requires Valid() && node !in Repr && node.next == null
      requires forall j :: 0 <= j < |nodes| ==> nodes[j].name != node.name
      requires prev == if nodes == [] then null else nodes[|nodes| - 1]
      modifies this, nodes`next
      ensures Valid() && Repr == old(Repr) + {node} && nodes == old(nodes) + [node]
      ensures rows == old(rows) + [Row(node.name, node.remote, node.wdt)]
    {
      AppendKeeps(nodes, rows, node);
      hide Holds, Distinct;
      ghost var c := nodes;
      if prev == null {
        first := node;
      } else {
        prev.next := node;
      }
      assert forall j {:trigger c[j].next} :: 0 <= j < |c| ==> c[j].next == At(c + [node], j + 1);
      AppendLinks(c, first, node);
      nodes, rows := nodes + [node], rows + [Row(node.name, node.remote, node.wdt)];
      Repr := Repr + {node};
    }

    /** The walk of `ht_del`, with the record's position and its predecessor, and the unlink. */
    method Del(key: Name) returns (gone: SensorEntry?)
      requires Valid()
      modifies Repr
      ensures Valid() && Repr == old(Repr)
      ensures var k := IndexOf(old(rows), key);
              && gone == At(old(nodes), k)
              && (gone == null <==> k == |old(rows)|) && (gone != null ==> gone.remote == old(rows)[k].remote)
              && if k == |old(rows)| then nodes == old(nodes) && rows == old(rows)
                 else nodes == Drop(old(nodes), k) && rows == Drop(old(rows), k)
    {
      var entry := first;
      if entry == null {
        IndexOfIs(rows, key, 0);
        return null;
      }
      var prev: SensorEntry := entry;
      var idx := 0;
      while entry != null
        invariant 0 <= idx <= |nodes| && entry == At(nodes, idx)
        invariant prev == nodes[if idx > 0 then idx - 1 else 0]
        invariant forall j :: 0 <= j < idx ==> nodes[j].name != key
        decreases |nodes| - idx
      {
        if entry.name == key {
          IndexOfIs(rows, key, idx);
          Unlink(idx, entry, prev);
          return entry;
        }
        prev := entry;
        entry := prev.next;
        idx := idx + 1;
      }
      IndexOfIs(rows, key, idx);
      return null;
    }

    /** The four cases of `ht_del` write one pointer: the head for a first record, the predecessor's
        `next` otherwise. */
    method Bypass(idx: nat, entry: SensorEntry, prev: SensorEntry)
      modifies this`first, prev`next
      ensures idx == 0 ==> first == old(entry.next) && prev.next == old(prev.next)
      ensures idx != 0 ==> first == old(first) && prev.next == old(entry.next)
    {
      if entry.next == null && idx == 0 {
        first := null;
      }
      if entry.next != null && idx == 0 {
        first := entry.next;
      }
      if entry.next == null && idx != 0 {
        prev.next := null;
      }
      if entry.next != null && idx != 0 {
        prev.next := entry.next;
      }
    }

    /** Takes the record at position `idx` out, the others keeping their order. */
    method Unlink(idx: nat, entry: SensorEntry, prev: SensorEntry)
      requires Valid() && idx < |nodes| && entry == nodes[idx] && prev == nodes[if idx > 0 then idx - 1 else 0]
      modifies this, nodes`next
      ensures Valid() && Repr == old(Repr)
      ensures nodes == Drop(old(nodes), idx) && rows == Drop(old(rows), idx)
    {
      ghost var c := nodes;
      DropHolds(nodes, rows, idx);
      hide Holds;
      Bypass(idx, entry, prev);
      assert forall k {:trigger c[k].next} :: 0 <= k < |c| && k != idx - 1 ==> c[k].next == At(c, k + 1);
      DropLinks(c, first, idx);
      nodes, rows := Drop(nodes, idx), Drop(rows, idx);
    }

    /** One counter write. */
    method Write(entry: SensorEntry, ghost k: nat, wdt: nat)
      requires Valid() && k < |nodes| && entry == nodes[k]
      modifies this`rows, entry`wdt
      ensures Valid() && rows == old(rows)[k := old(rows)[k].(wdt := wdt)]
    {
      entry.wdt := wdt;
      rows := rows[k := rows[k].(wdt := wdt)];
    }

    /** The walk and the write of `ht_update_time`. */
    method UpdateTime(key: Name)
      requires Valid()
      modifies Repr
      ensures Valid() && Repr == old(Repr) && nodes == old(nodes)
      ensures var k := IndexOf(old(rows), key);
              rows == if k == |old(rows)| then old(rows) else old(rows)[k := old(rows)[k].(wdt := 0)]
    {
      var entry, k := Lookup(key);
      if entry != null {
        Write(entry, k, 0);
      }
    }

    /** One turn of the inner loop of `ht_wdt`. */
    method AgeOne(entry: SensorEntry, ghost k: nat) returns (late: bool)
      requires Valid() && k < |nodes| && entry == nodes[k]
      modifies this`rows, entry`wdt
      ensures Valid() && rows == old(rows)[k := old(rows)[k].(wdt := Gateway.Age(old(rows)[k].wdt))]
      ensures late <==> old(rows)[k].wdt > WDT_LIMIT
    {
      late := entry.wdt > WDT_LIMIT;
      if !late {
        Write(entry, k, entry.wdt + 1);
      } else {
        assert rows == rows[k := rows[k]];
      }
    }

    /** The inner loop of `ht_wdt`: ages the chain and reports a record past the limit. */
    method Age() returns (late: bool)
      requires Valid()
      modifies Repr
      ensures Valid() && Repr == old(Repr) && rows == AgeChain(old(rows))
      ensures late <==> LateBefore(old(rows), |old(rows)|)
    {
      late := false;
      var entry := first;
      ghost var was := rows;
      ghost var k := 0;
      while entry != null
        invariant nodes == old(nodes) && Repr == old(Repr) && Valid()
        invariant k <= |nodes| && entry == At(nodes, k)
        invariant forall j :: 0 <= j < |nodes| ==> rows[j] == if j < k then AgeChain(was)[j] else was[j]
        invariant late <==> LateBefore(was, k)
        decreases |nodes| - k
      {
        var l := AgeOne(entry, k);
        late := late || l;
        entry := entry.next;
        k := k + 1;
      }
    }
  }

  class SensorTable {
    const slots: seq<Slot>
    ghost var rows: ChainTable.Table
    ghost var Repr: set<object>

    /** Ten disjoint chains that hold the rows. */
    ghost predicate SlotsOk()
      reads this, Repr
    {
      && this in Repr && |slots| == |rows| == TABLE_SIZE
      && (forall b :: 0 <= b < TABLE_SIZE ==> slots[b] in Repr && slots[b].Repr <= Repr && this !in slots[b].Repr)
      && (forall b, c :: 0 <= b < c < TABLE_SIZE ==> slots[b].Repr !! slots[c].Repr)
      && forall b :: 0 <= b < TABLE_SIZE ==> slots[b].Valid() && slots[b].rows == rows[b]
    }

    ghost predicate Valid()
      reads this, Repr
      ensures Valid() ==> this in Repr && |rows| == TABLE_SIZE
    {
      SlotsOk() && WellFormed(rows)
    }

    /** `ht_create`. */
    constructor ()
      ensures Valid() && fresh(Repr)
      ensures rows == EMPTY_TABLE && Contents(rows) == map[]
    {
      var fill: seq<Slot> := [];
      ghost var all: set<object> := {};
      while |fill| < TABLE_SIZE
        invariant |fill| <= TABLE_SIZE && fresh(all)
        invariant forall b :: 0 <= b < |fill| ==>
                    fill[b] in all && fill[b].Repr <= all && fill[b].Valid() && fill[b].rows == []
        invariant forall b, c :: 0 <= b < c < |fill| ==> fill[b].Repr !! fill[c].Repr
      {
        var slot := new Slot();
        fill := fill + [slot];
        all := all + slot.Repr;
      }
      slots := fill;
      rows := EMPTY_TABLE;
      Repr := {this} + all;
      EmptyTable();
    }

    /** `ht_get`. */
    method Get(key: Name) returns (name: Option<Name>)
      requires Valid()
      ensures name == if Has(rows, key) then Some(key) else None
      ensures Has(rows, key) <==> key in Contents(rows)
    {
      HasIsMembership(rows, key);
      var slot := Hash(key);
      var entry, _ := slots[slot].Lookup(key);
      name := if entry == null then None else Some(entry.name);
    }

    /** `ht_get_node`. */
    method GetNode(key: Name) returns (entry: SensorEntry?)
      requires Valid()
      ensures entry == null <==> !Has(rows, key)
      ensures entry != null ==> Row(entry.name, entry.remote, entry.wdt) == Find(rows, key)
      ensures entry == null <==> key !in Contents(rows)
      ensures entry != null ==> Sensor(entry.remote, entry.wdt) == Contents(rows)[key]
    {
      HasIsMembership(rows, key);
      var slot := Hash(key);
      ghost var k;
      entry, k := slots[slot].Lookup(key);
    }

    method SetIn(slot: nat, node: SensorEntry)
      requires SlotsOk() && slot < TABLE_SIZE && node !in Repr && node.next == null
      modifies Repr, node
      ensures SlotsOk() && Repr <= old(Repr) + {node}
      ensures var c := old(rows)[slot];
              rows == old(rows)[slot := if IndexOf(c, node.name) == |c|
                                        then c + [Row(node.name, node.remote, old(node.wdt))]
                                        else c]
    {
      hide Slot.Valid, AgeChain, IndexOf;
      slots[slot].Set(node);
      assert forall b :: 0 <= b < TABLE_SIZE && b != slot ==> slots[b].Valid() && slots[b].rows == rows[b];
      rows := rows[slot := slots[slot].rows];
      Repr := Repr + {node};
    }

    method DelIn(slot: nat, key: Name) returns (gone: SensorEntry?)
      requires SlotsOk() && slot < TABLE_SIZE
      modifies Repr
      ensures SlotsOk() && Repr == old(Repr)
      ensures var c := old(rows)[slot]; var k := IndexOf(c, key);
              && rows == old(rows)[slot := if k == |c| then c else Drop(c, k)]
              && (gone == null <==> k == |c|)
              && (gone != null ==> gone.remote == c[k].remote)
    {
      hide Slot.Valid, AgeChain, IndexOf;
      gone := slots[slot].Del(key);
      assert forall b :: 0 <= b < TABLE_SIZE && b != slot ==> slots[b].Valid() && slots[b].rows == rows[b];
      rows := rows[slot := slots[slot].rows];
    }

    method UpdateTimeIn(slot: nat, key: Name)
      requires SlotsOk() && slot < TABLE_SIZE
      modifies Repr
      ensures SlotsOk() && Repr == old(Repr)
      ensures var c := old(rows)[slot]; var k := IndexOf(c, key);
              rows == old(rows)[slot := if k == |c| then c else c[k := c[k].(wdt := 0)]]
    {
      hide Slot.Valid, AgeChain, IndexOf;
      slots[slot].UpdateTime(key);
      assert forall b :: 0 <= b < TABLE_SIZE && b != slot ==> slots[b].Valid() && slots[b].rows == rows[b];
      rows := rows[slot := slots[slot].rows];
    }

    method AgeIn(slot: nat) returns (late: bool)
      requires SlotsOk() && slot < TABLE_SIZE
      modifies Repr
      ensures SlotsOk() && Repr == old(Repr)
      ensures rows == old(rows)[slot := AgeChain(old(rows)[slot])]
      ensures late <==> LateBefore(old(rows)[slot], |old(rows)[slot]|)
    {
      hide Slot.Valid, AgeChain, IndexOf;
      late := slots[slot].Age();
      assert forall b :: 0 <= b < TABLE_SIZE && b != slot ==> slots[b].Valid() && slots[b].rows == rows[b];
      rows := rows[slot := slots[slot].rows];
    }

    /** `ht_set`. */
    method Set(node: SensorEntry)
      requires Valid() && node !in Repr && node.next == null
      modifies Repr, node
      ensures Valid() && Repr <= old(Repr) + {node}
      ensures rows == SetRow(old(rows), Row(node.name, node.remote, old(node.wdt)))
      ensures var m := Contents(old(rows));
              Contents(rows) == if node.name in m then m else m[node.name := Sensor(node.remote, old(node.wdt))]
    {
      ghost var after := SetRow(rows, Row(node.name, node.remote, node.wdt));
      SetRefines(rows, Row(node.name, node.remote, node.wdt));
      var slot := Hash(node.name);
      hide WellFormed, Contents;
      ghost var c := rows[slot];
      ghost var row := Row(node.name, node.remote, node.wdt);
      assert after == rows[slot := if IndexOf(c, node.name) == |c| then c + [row] else c];
      hide SetRow, IndexOf;
      SetIn(slot, node);
      assert rows == after;
    }

    /** `ht_del`: 0 and the endpoint that is told about it, or 1. */
    method Del(key: Name) returns (code: int, told: Option<Remote>)
      requires Valid()
      modifies Repr
      ensures Valid() && Repr == old(Repr)
      ensures rows == DelRow(old(rows), key)
      ensures if Has(old(rows), key)
              then code == 0 && told == Some(Find(old(rows), key).remote)
              else code == 1 && told == None
      ensures var m := Contents(old(rows));
              && Contents(rows) == m - {key}
              && if key in m then code == 0 && told == Some(m[key].remote) else code == 1 && told == None
    {
      DelRefines(rows, key);
      HasIsMembership(rows, key);
      var bucket := Hash(key);
      hide WellFormed, Contents;
      var gone := DelIn(bucket, key);
      if gone != null {
        code, told := 0, Some(gone.remote);
      } else {
        code, told := 1, None;
      }
    }

    /** `ht_update_time`. */
    method UpdateTime(key: Name)
      requires Valid()
      modifies Repr
      ensures Valid() && Repr == old(Repr)
      ensures rows == ResetRow(old(rows), key)
      ensures var m := Contents(old(rows)); Contents(rows) == if key in m then m[key := m[key].(wdt := 0)] else m
    {
      ResetRefines(rows, key);
      var slot := Hash(key);
      hide WellFormed, Contents;
      UpdateTimeIn(slot, key);
    }

    /** The outer loop of `ht_wdt`. */
    method AgeAll() returns (late: bool)
      requires SlotsOk() && |rows| == TABLE_SIZE
      modifies Repr
      ensures SlotsOk() && Repr == old(Repr)
      ensures rows == AgedUpTo(old(rows), TABLE_SIZE)
      ensures late <==> LateUpTo(old(rows), TABLE_SIZE)
    {
      hide *;
      ghost var was := rows;
      AgedUpToEnds(was);
      late := false;
      var i := 0;
      while i < TABLE_SIZE
        invariant 0 <= i <= TABLE_SIZE && SlotsOk() && Repr == old(Repr)
        invariant rows == AgedUpTo(was, i)
        invariant late <==> LateUpTo(was, i)
      {
        AgedUpToNext(was, i);
        var l := AgeIn(i);
        late := late || l;
        i := i + 1;
      }
    }

    /** `ht_wdt`: ages every chain; `late` says whether some record was past the limit, which is when
        the source raises `is_timeout` if engaged. */
    method Wdt() returns (late: bool)
      requires Valid()
      modifies Repr
      ensures Valid() && Repr == old(Repr)
      ensures rows == AgeRows(old(rows)) && (late <==> AnyExpired(old(rows)))
      ensures Contents(rows) == Aged(Contents(old(rows))) && (late <==> Expired(Contents(old(rows))))
    {
      AgeRefines(rows);
      AgedUpToEnds(rows);
      late := AgeAll();
    }
  }
}
