/** The sensor table on values: ten chains of rows, and the map they stand for. */
module ChainTable {
  import opened Base
  import opened NameHash
  import opened Gateway

  datatype Row = Row(name: Name, remote: Remote, wdt: nat)

  type Table = seq<seq<Row>>

  /** The position of the first row with the name, or the length of the chain. */
  function IndexOf(c: seq<Row>, key: Name): (k: nat)
    ensures k <= |c|
    ensures forall j :: 0 <= j < k ==> c[j].name != key
    ensures k < |c| ==> c[k].name == key
  {
    if c == [] || c[0].name == key then 0 else 1 + IndexOf(c[1..], key)
  }

  lemma IndexOfIs(c: seq<Row>, key: Name, k: nat)
    requires k <= |c| && (k < |c| ==> c[k].name == key)
    requires forall j :: 0 <= j < k ==> c[j].name != key
    ensures IndexOf(c, key) == k
  {
  }

  /** Every row sits in the chain of its name, and no chain repeats a name. */
  ghost predicate WellFormed(t: Table) {
    && |t| == TABLE_SIZE
    && (forall b, k :: 0 <= b < |t| && 0 <= k < |t[b]| ==> Bucket(t[b][k].name) == b)
    && (forall b, j, k :: 0 <= b < |t| && 0 <= j < k < |t[b]| ==> t[b][j].name != t[b][k].name)
  }

  const EMPTY_TABLE: Table := seq(TABLE_SIZE, b => [])

  /** `ht_set`: append to the chain unless the name is there. */
  function SetRow(t: Table, row: Row): Table
    requires |t| == TABLE_SIZE
  {
    var b := Bucket(row.name);
    if IndexOf(t[b], row.name) == |t[b]| then t[b := t[b] + [row]] else t
  }

  function Has(t: Table, key: Name): bool
    requires |t| == TABLE_SIZE
  {
    var b := Bucket(key);
    IndexOf(t[b], key) < |t[b]|
  }

  function Find(t: Table, key: Name): Row
    requires |t| == TABLE_SIZE && Has(t, key)
  {
    var b := Bucket(key);
    t[b][IndexOf(t[b], key)]
  }

  /** All but the i-th element, in order. */
  function Drop<T>(s: seq<T>, i: nat): (r: seq<T>)
    requires i < |s|
    ensures |r| == |s| - 1 && forall k :: 0 <= k < |r| ==> r[k] == s[if k < i then k else k + 1]
  {
    s[..i] + s[i + 1..]
  }

  /** `ht_del`: the row out, the others in their order. */
  function DelRow(t: Table, key: Name): Table
    requires |t| == TABLE_SIZE
  {
    if !Has(t, key) then t
    else
      var b := Bucket(key);
      var k := IndexOf(t[b], key);
      t[b := Drop(t[b], k)]
  }

  /** `ht_update_time`. */
  function ResetRow(t: Table, key: Name): Table
    requires |t| == TABLE_SIZE
  {
    if !Has(t, key) then t
    else
      var b := Bucket(key);
      var k := IndexOf(t[b], key);
      t[b := t[b][k := t[b][k].(wdt := 0)]]
  }

  function AgeChain(c: seq<Row>): (r: seq<Row>)
    ensures |r| == |c|
    ensures forall k :: 0 <= k < |c| ==> r[k] == c[k].(wdt := Age(c[k].wdt))
  {
    seq(|c|, k requires 0 <= k < |c| => c[k].(wdt := Age(c[k].wdt)))
  }

  /** `ht_wdt`, the counters. */
  function AgeRows(t: Table): (r: Table)
    ensures |r| == |t|
    ensures forall b :: 0 <= b < |t| ==> r[b] == AgeChain(t[b])
  {
    seq(|t|, b requires 0 <= b < |t| => AgeChain(t[b]))
  }

  /** Some of the first k rows is past the limit. */
  ghost predicate LateBefore(c: seq<Row>, k: nat)
    requires k <= |c|
  {
    exists j :: 0 <= j < k && c[j].wdt > WDT_LIMIT
  }

  /** Some row of the first i chains is past the limit. */
  ghost predicate LateUpTo(t: Table, i: nat)
    requires i <= |t|
  {
    exists b :: 0 <= b < i && LateBefore(t[b], |t[b]|)
  }

  /** `ht_wdt`, the test for a row past the limit. */
  ghost predicate AnyExpired(t: Table) {
    LateUpTo(t, |t|)
  }

  /** The first i chains aged: the outer loop of `ht_wdt` after i turns. */
  function AgedUpTo(t: Table, i: nat): (r: Table)
    requires i <= |t|
    ensures |r| == |t|
  {
    AgeRows(t)[..i] + t[i..]
  }

  lemma AgedUpToNext(t: Table, i: nat)
    requires i < |t|
    ensures AgedUpTo(t, i)[i] == t[i]
    ensures AgedUpTo(t, i)[i := AgeChain(t[i])] == AgedUpTo(t, i + 1)
    ensures LateUpTo(t, i + 1) <==> LateUpTo(t, i) || LateBefore(t[i], |t[i]|)
  {
  }

  lemma AgedUpToEnds(t: Table)
    ensures AgedUpTo(t, 0) == t && AgedUpTo(t, |t|) == AgeRows(t) && !LateUpTo(t, 0)
  {
  }

  // ----- the map a table stands for -----

  function Names(t: Table): set<Name> {
    set b, k | 0 <= b < |t| && 0 <= k < |t[b]| :: t[b][k].name
  }

  function Contents(t: Table): map<Name, Sensor>
    requires |t| == TABLE_SIZE
  {
    map n | n in Names(t) && Has(t, n) :: var r := Find(t, n); Sensor(r.remote, r.wdt)
  }

  lemma HasIsMembership(t: Table, n: Name)
    requires WellFormed(t)
    ensures n in Contents(t) <==> Has(t, n)
  {
    if Has(t, n) {
      assert Find(t, n).name in Names(t);
    }
  }

  /** A row is what the map holds under its name. */
  lemma RowInContents(t: Table, b: nat, k: nat)
    requires WellFormed(t) && b < |t| && k < |t[b]|
    ensures t[b][k].name in Contents(t) && Contents(t)[t[b][k].name] == Sensor(t[b][k].remote, t[b][k].wdt)
  {
    IndexOfIs(t[b], t[b][k].name, k);
    HasIsMembership(t, t[b][k].name);
  }

  /** Two maps that agree with a table's lookups are its contents. */
  lemma ContentsAre(t: Table, m: map<Name, Sensor>)
    requires WellFormed(t)
    requires forall n :: n in m <==> Has(t, n)
    requires forall n :: n in m ==> Has(t, n) && m[n] == Sensor(Find(t, n).remote, Find(t, n).wdt)
    ensures Contents(t) == m
  {
    forall n
      ensures n in Contents(t) <==> n in m
    {
      HasIsMembership(t, n);
    }
  }

  lemma SetRefines(t: Table, row: Row)
    requires WellFormed(t)
    ensures WellFormed(SetRow(t, row))
    ensures Contents(SetRow(t, row)) ==
            if row.name in Contents(t) then Contents(t) else Contents(t)[row.name := Sensor(row.remote, row.wdt)]
  {
    var u, b := SetRow(t, row), Bucket(row.name);
    HasIsMembership(t, row.name);
    if u != t {
      var m := Contents(t)[row.name := Sensor(row.remote, row.wdt)];
      forall n
        ensures n in m <==> Has(u, n)
        ensures n in m ==> Has(u, n) && m[n] == Sensor(Find(u, n).remote, Find(u, n).wdt)
      {
        HasIsMembership(t, n);
        if Bucket(n) == b {
          IndexOfIs(u[b], n, if Has(t, n) then IndexOf(t[b], n) else if n == row.name then |t[b]| else |u[b]|);
        }
      }
      ContentsAre(u, m);
    }
  }

  lemma DelKeepsShape(t: Table, key: Name)
    requires WellFormed(t) && Has(t, key)
    ensures WellFormed(DelRow(t, key))
  {
  }

  /** Removal shifts the later rows of the chain by one and loses nothing else. */
  lemma IndexAfterDel(c: seq<Row>, k: nat, n: Name)
    requires k < |c| && forall i, j :: 0 <= i < j < |c| ==> c[i].name != c[j].name
    ensures var u, i := Drop(c, k), IndexOf(c, n);
            if i == k || i == |c| then IndexOf(u, n) == |u|
            else IndexOf(u, n) == (if i < k then i else i - 1) && IndexOf(u, n) < |u| && u[IndexOf(u, n)] == c[i]
  {
    var u, i := Drop(c, k), IndexOf(c, n);
    IndexOfIs(u, n, if i == k || i == |c| then |u| else if i < k then i else i - 1);
  }

  lemma DelLookup(t: Table, key: Name, n: Name)
    requires WellFormed(t) && Has(t, key)
    ensures var u := DelRow(t, key);
            (Has(u, n) <==> Has(t, n) && n != key) && (Has(u, n) ==> Find(u, n) == Find(t, n))
  {
    if Bucket(n) == Bucket(key) {
      IndexAfterDel(t[Bucket(n)], IndexOf(t[Bucket(n)], key), n);
    }
  }

  /** The rows under other names, in their order. */
  function Others(c: seq<Row>, key: Name): seq<Row> {
    if c == [] then [] else (if c[0].name == key then [] else [c[0]]) + Others(c[1..], key)
  }

  lemma {:induction false} OthersAll(c: seq<Row>, key: Name)
    requires forall k :: 0 <= k < |c| ==> c[k].name != key
    ensures Others(c, key) == c
  {
    if c != [] {
      OthersAll(c[1..], key);
    }
  }

  lemma {:induction false} OthersDrop(c: seq<Row>, key: Name, i: nat)
    requires i < |c| && c[i].name == key && forall k :: 0 <= k < |c| && k != i ==> c[k].name != key
    ensures Drop(c, i) == Others(c, key)
  {
    if i == 0 {
      OthersAll(c[1..], key);
    } else {
      OthersDrop(c[1..], key, i - 1);
      assert Drop(c, i) == [c[0]] + Drop(c[1..], i - 1);
    }
  }

  /** Removal takes the rows with that name out of every chain, and the others keep their order. */
  lemma DelKeepsOrder(t: Table, key: Name, b: nat)
    requires WellFormed(t) && b < TABLE_SIZE
    ensures |DelRow(t, key)| == TABLE_SIZE && DelRow(t, key)[b] == Others(t[b], key)
  {
    if Has(t, key) && b == Bucket(key) {
      OthersDrop(t[b], key, IndexOf(t[b], key));
    } else {
      OthersAll(t[b], key);
    }
  }

  lemma DelRefines(t: Table, key: Name)
    requires WellFormed(t)
    ensures WellFormed(DelRow(t, key))
    ensures Contents(DelRow(t, key)) == Contents(t) - {key}
  {
    HasIsMembership(t, key);
    if Has(t, key) {
      var u, m := DelRow(t, key), Contents(t) - {key};
      DelKeepsShape(t, key);
      forall n
        ensures n in m <==> Has(u, n)
        ensures n in m ==> Has(u, n) && m[n] == Sensor(Find(u, n).remote, Find(u, n).wdt)
      {
        HasIsMembership(t, n);
        DelLookup(t, key, n);
      }
      ContentsAre(u, m);
    }
  }

  lemma ResetRefines(t: Table, key: Name)
    requires WellFormed(t)
    ensures WellFormed(ResetRow(t, key))
    ensures Contents(ResetRow(t, key)) ==
            if key in Contents(t) then Contents(t)[key := Contents(t)[key].(wdt := 0)] else Contents(t)
  {
    var u, b := ResetRow(t, key), Bucket(key);
    HasIsMembership(t, key);
    if Has(t, key) {
      var m := Contents(t)[key := Contents(t)[key].(wdt := 0)];
      forall n
        ensures n in m <==> Has(u, n)
        ensures n in m ==> Has(u, n) && m[n] == Sensor(Find(u, n).remote, Find(u, n).wdt)
      {
        HasIsMembership(t, n);
        if Bucket(n) == b {
          IndexOfIs(u[b], n, IndexOf(t[b], n));
        }
      }
      ContentsAre(u, m);
    }
  }

  lemma AgeRefines(t: Table)
    requires WellFormed(t)
    ensures WellFormed(AgeRows(t))
    ensures Contents(AgeRows(t)) == Aged(Contents(t))
    ensures AnyExpired(t) <==> Expired(Contents(t))
  {
    var u, m := AgeRows(t), Aged(Contents(t));
    forall n
      ensures n in m <==> Has(u, n)
      ensures n in m ==> Has(u, n) && m[n] == Sensor(Find(u, n).remote, Find(u, n).wdt)
    {
      HasIsMembership(t, n);
      IndexOfIs(u[Bucket(n)], n, IndexOf(t[Bucket(n)], n));
    }
    ContentsAre(u, m);
    if AnyExpired(t) {
      var b :| 0 <= b < |t| && LateBefore(t[b], |t[b]|);
      var k :| 0 <= k < |t[b]| && t[b][k].wdt > WDT_LIMIT;
      RowInContents(t, b, k);
    }
    if Expired(Contents(t)) {
      var n :| n in Contents(t) && Contents(t)[n].wdt > WDT_LIMIT;
      var c := t[Bucket(n)];
      assert c[IndexOf(c, n)].wdt > WDT_LIMIT;
      assert LateBefore(c, |c|);
    }
  }

  // ----- every sequence of calls -----

  datatype Call = Set(row: Row) | Get(key: Name) | Del(key: Name) | UpdateTime(key: Name) | Wdt

  /** What a call answers: the row found, whether a row went, or whether a row was past the limit. */
  datatype Answer = Nothing | Found(row: Option<Row>) | Removed(told: Option<Remote>) | Late(any: bool)

  ghost function CallTable(t: Table, c: Call): (Table, Answer)
    requires |t| == TABLE_SIZE
  {
    match c
    case Set(row) => (SetRow(t, row), Nothing)
    case Get(key) => (t, Found(if Has(t, key) then Some(Find(t, key)) else None))
    case Del(key) => (DelRow(t, key), Removed(if Has(t, key) then Some(Find(t, key).remote) else None))
    case UpdateTime(key) => (ResetRow(t, key), Nothing)
    case Wdt => (AgeRows(t), Late(AnyExpired(t)))
  }

  /** The same calls on a plain map. */
  function CallMap(m: map<Name, Sensor>, c: Call): (map<Name, Sensor>, Answer) {
    match c
    case Set(row) => (if row.name in m then m else m[row.name := Sensor(row.remote, row.wdt)], Nothing)
    case Get(key) => (m, Found(if key in m then Some(Row(key, m[key].remote, m[key].wdt)) else None))
    case Del(key) => (m - {key}, Removed(if key in m then Some(m[key].remote) else None))
    case UpdateTime(key) => (if key in m then m[key := m[key].(wdt := 0)] else m, Nothing)
    case Wdt => (Aged(m), Late(Expired(m)))
  }

  lemma CallRefines(t: Table, c: Call)
    requires WellFormed(t)
    ensures WellFormed(CallTable(t, c).0)
    ensures Contents(CallTable(t, c).0) == CallMap(Contents(t), c).0
    ensures CallTable(t, c).1 == CallMap(Contents(t), c).1
  {
    match c
    case Set(row) => SetRefines(t, row);
    case Get(key) => HasIsMembership(t, key);
    case Del(key) =>
      DelRefines(t, key);
      HasIsMembership(t, key);
    case UpdateTime(key) => ResetRefines(t, key);
    case Wdt => AgeRefines(t);
  }

  /** All the answers of a sequence of calls, with the table left at the end. */
  ghost function RunTable(t: Table, cs: seq<Call>): (r: (Table, seq<Answer>))
    requires |t| == TABLE_SIZE
    ensures |r.0| == TABLE_SIZE
    decreases |cs|
  {
    if cs == [] then (t, [])
    else
      var (u, a) := CallTable(t, cs[0]);
      var (v, rest) := RunTable(u, cs[1..]);
      (v, [a] + rest)
  }

  function RunMap(m: map<Name, Sensor>, cs: seq<Call>): (map<Name, Sensor>, seq<Answer>)
    decreases |cs|
  {
    if cs == [] then (m, [])
    else
      var (u, a) := CallMap(m, cs[0]);
      var (v, rest) := RunMap(u, cs[1..]);
      (v, [a] + rest)
  }

  lemma {:induction false} RunRefines(t: Table, cs: seq<Call>)
    requires WellFormed(t)
    ensures WellFormed(RunTable(t, cs).0)
    ensures Contents(RunTable(t, cs).0) == RunMap(Contents(t), cs).0
    ensures RunTable(t, cs).1 == RunMap(Contents(t), cs).1
    decreases |cs|
  {
    if cs != [] {
      CallRefines(t, cs[0]);
      RunRefines(CallTable(t, cs[0]).0, cs[1..]);
    }
  }

  lemma EmptyTable()
    ensures WellFormed(EMPTY_TABLE) && Contents(EMPTY_TABLE) == map[]
  {
    ContentsAre(EMPTY_TABLE, map[]);
  }

  /** From `ht_create` on, no sequence of calls can tell the ten chains from a map. */
  lemma TableIsAMap(cs: seq<Call>)
    ensures RunTable(EMPTY_TABLE, cs).1 == RunMap(map[], cs).1
  {
    EmptyTable();
    RunRefines(EMPTY_TABLE, cs);
  }
}
