/** The store as the repositories see it: one table per entity, rows kept in
    primary-key order (the order SQLite's rowid tables scan in), and a counter
    that supplies the next generated key. The three driver primitives of
    `database.ts` become `Find`/`FirstWhere` (`dbGet`), `Where`/`SortDesc`
    (`dbAll`) and `Insert`/`Modify`/`Remove` (`dbRun`). */
module Tables {
  import opened Wrappers
  import opened Text
  import opened Errors

  /** A stored row: its integer primary key and its columns. */
  datatype Row<D> = Row(id: int, data: D)

  /** A table: its rows and the key the next insert receives. */
  datatype Table<D> = Table(rows: seq<Row<D>>, nextId: int)

  /** What a writing repository call returns: its result, and the table it
      leaves behind (also on failure, since earlier writes are not undone). */
  datatype Written<T, D> = Written(result: Result<T, DatabaseError>, table: Table<D>)

  /** `Number.isInteger(id) && id > 0`: the only identifiers the repositories accept. */
  predicate PositiveId(id: int) {
    id > 0
  }

  /** Keys strictly increase along the table. */
  ghost predicate Ascending<D>(rows: seq<Row<D>>) {
    forall i, j :: 0 <= i < j < |rows| ==> rows[i].id < rows[j].id
  }

  /** The store invariant: keys are positive, below the counter, and in order
      (hence unique). */
  ghost predicate Valid<D>(t: Table<D>) {
    && t.nextId >= 1
    && (forall r :: r in t.rows ==> 1 <= r.id < t.nextId)
    && Ascending(t.rows)
  }

  /** Some row has key `id`. */
  ghost predicate HasKey<D>(rows: seq<Row<D>>, id: int) {
    exists r :: r in rows && r.id == id
  }

  /** `SELECT * ... WHERE <key> = id`, first row only. */
  function Find<D>(rows: seq<Row<D>>, id: int): (r: Option<Row<D>>)
    ensures r.Some? ==> r.value in rows && r.value.id == id
    ensures r.None? <==> !HasKey(rows, id)
    ensures Ascending(rows) ==> forall x :: x in rows && x.id == id ==> r == Some(x)
  {
    if |rows| == 0 then None
    else if rows[0].id == id then Some(rows[0])
    else
      assert Ascending(rows) ==> Ascending(rows[1..]);
      Find(rows[1..], id)
  }

  /** `SELECT * ... WHERE p`, first row in table order only. */
  function FirstWhere<D>(rows: seq<Row<D>>, p: D -> bool): (r: Option<Row<D>>)
    ensures r.Some? ==> r.value in rows && p(r.value.data)
    ensures r.None? <==> forall x :: x in rows ==> !p(x.data)
  {
    if |rows| == 0 then None
    else if p(rows[0].data) then Some(rows[0])
    else FirstWhere(rows[1..], p)
  }

  /** `SELECT * ... WHERE p` in table order: exactly the rows satisfying `p`,
      keeping their order. */
  function Where<D>(rows: seq<Row<D>>, p: D -> bool): (r: seq<Row<D>>)
    ensures forall x :: x in r ==> x in rows && p(x.data)
    ensures forall x :: x in rows && p(x.data) ==> x in r
    ensures Ascending(rows) ==> Ascending(r)
  {
    if |rows| == 0 then []
    else
      var rest := Where(rows[1..], p);
      assert Ascending(rows) ==> Ascending(rows[1..]);
      assert forall x :: x in rest ==> x in rows[1..];
      if p(rows[0].data) then [rows[0]] + rest else rest
  }

  /** `INSERT`: the new row takes the counter's key (`lastInsertRowid`). */
  function Insert<D>(t: Table<D>, d: D): (r: Table<D>)
    ensures Valid(t) ==> Valid(r)
    ensures Valid(t) ==> Find(r.rows, t.nextId) == Some(Row(t.nextId, d))
  {
    var r := Table(t.rows + [Row(t.nextId, d)], t.nextId + 1);
    assert Valid(t) ==> Ascending(r.rows) by {
      if Valid(t) {
        forall i, j | 0 <= i < j < |r.rows|
          ensures r.rows[i].id < r.rows[j].id
        {
          if j < |t.rows| {
          } else {
            assert r.rows[i] in t.rows;
          }
        }
      }
    }
    r
  }

  /** `UPDATE ... WHERE <key> = id`: every row with that key has its columns
      replaced by `f` of the old columns; nothing else changes. */
  function Modify<D>(t: Table<D>, id: int, f: D -> D): (r: Table<D>)
    ensures r.nextId == t.nextId && |r.rows| == |t.rows|
    ensures forall i :: 0 <= i < |t.rows| ==> r.rows[i].id == t.rows[i].id
    ensures forall i :: 0 <= i < |t.rows| && t.rows[i].id != id ==> r.rows[i] == t.rows[i]
    ensures forall i :: 0 <= i < |t.rows| && t.rows[i].id == id ==> r.rows[i].data == f(t.rows[i].data)
    ensures Valid(t) ==> Valid(r)
  {
    var r := Table(seq(|t.rows|, i requires 0 <= i < |t.rows| =>
                         if t.rows[i].id == id then Row(id, f(t.rows[i].data)) else t.rows[i]),
                   t.nextId);
    assert Valid(t) ==> Valid(r) by {
      if Valid(t) {
        forall x | x in r.rows
          ensures 1 <= x.id < r.nextId
        {
          var i :| 0 <= i < |r.rows| && r.rows[i] == x;
          assert t.rows[i] in t.rows;
        }
      }
    }
    r
  }

  /** `DELETE ... WHERE <key> = id`: exactly the rows with another key remain,
      in order. */
  function Remove<D>(t: Table<D>, id: int): (r: Table<D>)
    ensures r.nextId == t.nextId
    ensures forall x :: x in r.rows ==> x in t.rows && x.id != id
    ensures forall x :: x in t.rows && x.id != id ==> x in r.rows
    ensures Valid(t) ==> Valid(r)
  {
    Table(Without(t.rows, id), t.nextId)
  }

  function Without<D>(rows: seq<Row<D>>, id: int): (r: seq<Row<D>>)
    ensures forall x :: x in r ==> x in rows && x.id != id
    ensures forall x :: x in rows && x.id != id ==> x in r
    ensures Ascending(rows) ==> Ascending(r)
  {
    if |rows| == 0 then []
    else
      var rest := Without(rows[1..], id);
      assert Ascending(rows) ==> Ascending(rows[1..]);
      assert forall x :: x in rest ==> x in rows[1..];
      if rows[0].id == id then rest else [rows[0]] + rest
  }

  /** Rows in descending order of a text column under binary collation. */
  ghost predicate SortedDesc<D>(rows: seq<Row<D>>, key: D -> string) {
    forall i, j :: 0 <= i < j < |rows| ==> StrLe(key(rows[j].data), key(rows[i].data))
  }

  /** `ORDER BY <column> DESC`: the same rows, newest (largest) first. Rows
      with equal keys, whose relative order SQL leaves open, come out in an
      order fixed by this insertion sort. */
  function SortDesc<D>(rows: seq<Row<D>>, key: D -> string): (r: seq<Row<D>>)
    ensures multiset(r) == multiset(rows)
    ensures SortedDesc(r, key)
  {
    if |rows| == 0 then []
    else
      assert rows == [rows[0]] + rows[1..];
      InsertDesc(rows[0], SortDesc(rows[1..], key), key)
  }

  function InsertDesc<D>(x: Row<D>, sorted: seq<Row<D>>, key: D -> string): (r: seq<Row<D>>)
    requires SortedDesc(sorted, key)
    ensures multiset(r) == multiset([x] + sorted)
    ensures SortedDesc(r, key)
  {
    if |sorted| == 0 then [x]
    else if StrLe(key(sorted[0].data), key(x.data)) then
      forall j | 0 <= j < |sorted|
        ensures StrLe(key(sorted[j].data), key(x.data))
      {
        if j > 0 {
          StrLeTransitive(key(sorted[j].data), key(sorted[0].data), key(x.data));
        }
      }
      [x] + sorted
    else
      StrLeTotal(key(sorted[0].data), key(x.data));
      var rest := InsertDesc(x, sorted[1..], key);
      assert sorted == [sorted[0]] + sorted[1..];
      assert multiset(rest) == multiset([x] + sorted[1..]);
      forall y | y in rest
        ensures StrLe(key(y.data), key(sorted[0].data))
      {
        assert y in multiset(rest);
        if y != x {
          assert y in sorted[1..];
        }
      }
      [sorted[0]] + rest
  }
}
