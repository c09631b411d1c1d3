/** `Database`: the `facts` table (`id INTEGER PRIMARY KEY AUTOINCREMENT`,
    `timestamp` defaulting to the database's clock, `fact TEXT`), held here as
    the sequence of its rows in insertion order, with the three queries the
    poster issues against it. */
module FactStore {
  import opened PyStr

  /** One row of the `facts` table. */
  datatype Row = Row(id: nat, timestamp: int, fact: string)

  /** `get_facts` asks for at most this many rows. */
  const FactsLimit: nat := 100

  /** Ids as AUTOINCREMENT hands them out: increasing in insertion order. */
  ghost predicate IdsIncreasing(rows: seq<Row>) {
    forall j, k :: 0 <= j < k < |rows| ==> rows[j].id < rows[k].id
  }

  /** `SELECT MAX(timestamp) FROM facts`, read as 0 when the table is empty. */
  function LastTimestamp(rows: seq<Row>): (t: int)
    ensures rows == [] ==> t == 0
    ensures forall k :: 0 <= k < |rows| ==> rows[k].timestamp <= t
    ensures rows != [] ==> exists k :: 0 <= k < |rows| && rows[k].timestamp == t
    decreases |rows|
  {
    if rows == [] then 0
    else if |rows| == 1 then rows[0].timestamp
    else
      var m := LastTimestamp(rows[..|rows| - 1]);
      var last := rows[|rows| - 1].timestamp;
      if last > m then last else m
  }

  /** The rows satisfying `timestamp <= t`, in insertion order. */
  function Matching(rows: seq<Row>, t: int): (m: seq<Row>)
    ensures |m| <= |rows|
    ensures forall k :: 0 <= k < |m| ==> m[k].timestamp <= t
  {
    if rows == [] then []
    else (if rows[0].timestamp <= t then [rows[0]] else []) + Matching(rows[1..], t)
  }

  /** When no row is newer than `t`, every row matches. */
  lemma {:induction false} MatchingAll(rows: seq<Row>, t: int)
    requires forall k :: 0 <= k < |rows| ==> rows[k].timestamp <= t
    ensures Matching(rows, t) == rows
  {
    if rows != [] {
      MatchingAll(rows[1..], t);
      assert rows == [rows[0]] + rows[1..];
    }
  }

  /** `Matching` keeps exactly the stored rows with `timestamp <= t`. */
  lemma {:induction false} MatchingMembers(rows: seq<Row>, t: int)
    ensures forall r :: r in Matching(rows, t) <==> r in rows && r.timestamp <= t
  {
    if rows != [] {
      MatchingMembers(rows[1..], t);
      assert rows == [rows[0]] + rows[1..];
    }
  }

  function Reverse<T>(s: seq<T>): seq<T>
  {
    seq(|s|, k requires 0 <= k < |s| => s[|s| - 1 - k])
  }

  function Min(a: nat, b: nat): nat { if a <= b then a else b }

  /** `SELECT timestamp, fact FROM facts WHERE timestamp <= t ORDER BY id DESC
      LIMIT 100`, before the projection onto two columns: at most 100 rows,
      each stored and each with `timestamp <= t`. */
  function Query(rows: seq<Row>, t: int): (q: seq<Row>)
    ensures |q| <= FactsLimit
    ensures forall k :: 0 <= k < |q| ==> q[k].timestamp <= t && q[k] in rows
  {
    var m := Matching(rows, t);
    MatchingMembers(rows, t);
    var newestFirst := Reverse(m);
    assert forall k :: 0 <= k < |newestFirst| ==> newestFirst[k] == m[|m| - 1 - k] && m[|m| - 1 - k] in m;
    newestFirst[..Min(FactsLimit, |newestFirst|)]
  }

  /** The two columns `get_facts` copies out of each row. */
  function Columns(rows: seq<Row>): (ps: seq<(int, string)>)
    ensures |ps| == |rows|
    ensures forall k :: 0 <= k < |rows| ==> ps[k] == (rows[k].timestamp, rows[k].fact)
  {
    if rows == [] then [] else [(rows[0].timestamp, rows[0].fact)] + Columns(rows[1..])
  }

  /** The timestamp `get_facts` filters on: a falsy argument (`None` or 0)
      means the current time. */
  function Cutoff(after: Option<int>, now: int): (t: int)
    ensures after.Some? && after.value != 0 ==> t == after.value
    ensures after.None? || after.value == 0 ==> t == now
  {
    if after.None? || after.value == 0 then now else after.value
  }

  // ---------------------------------------------------------------------------
  // What the query returns

  /** The result is the newest (up to 100) matching rows, newest first. */
  lemma QueryIsNewestMatches(rows: seq<Row>, t: int)
    ensures var m := Matching(rows, t);
      var d := |m| - Min(FactsLimit, |m|);
      Query(rows, t) == Reverse(m[d..])
  {
    var m := Matching(rows, t);
    TakeReverse(m, Min(FactsLimit, |m|));
  }

  /** The first `n` of a reversed sequence are its last `n`, reversed. */
  lemma TakeReverse<T>(m: seq<T>, n: nat)
    requires n <= |m|
    ensures Reverse(m)[..n] == Reverse(m[|m| - n..])
  {
    var tail := m[|m| - n..];
    var q, r := Reverse(m)[..n], Reverse(tail);
    assert |q| == n == |r|;
    forall k | 0 <= k < n ensures q[k] == r[k] {
      assert q[k] == Reverse(m)[k] == m[|m| - 1 - k];
      assert r[k] == tail[n - 1 - k] == m[|m| - 1 - k];
    }
  }

  /** A matching row is left out only when 100 rows are returned. */
  lemma QueryComplete(rows: seq<Row>, t: int)
    requires |Matching(rows, t)| <= FactsLimit
    ensures forall k :: 0 <= k < |rows| && rows[k].timestamp <= t ==> rows[k] in Query(rows, t)
  {
    var m := Matching(rows, t);
    var q := Query(rows, t);
    QueryIsNewestMatches(rows, t);
    assert m[0..] == m;
    assert q == Reverse(m);
    MatchingMembers(rows, t);
    forall k | 0 <= k < |rows| && rows[k].timestamp <= t ensures rows[k] in q {
      assert rows[k] in m;
      var p :| 0 <= p < |m| && m[p] == rows[k];
      assert q[|m| - 1 - p] == m[p];
    }
  }

  /** Filtering keeps insertion order. */
  lemma {:induction false} MatchingIdsIncreasing(rows: seq<Row>, t: int)
    requires IdsIncreasing(rows)
    ensures IdsIncreasing(Matching(rows, t))
    ensures forall k :: 0 <= k < |Matching(rows, t)| ==> rows[0].id <= Matching(rows, t)[k].id
  {
    if rows != [] {
      var m := Matching(rows[1..], t);
      MatchingIdsIncreasing(rows[1..], t);
      MatchingMembers(rows[1..], t);
      forall k | 0 <= k < |m| ensures rows[0].id < m[k].id {
        assert m[k] in rows[1..];
        var j :| 0 <= j < |rows[1..]| && rows[1..][j] == m[k];
        assert rows[j + 1] == m[k];
      }
      if rows[1..] != [] {
        assert rows[1..][0] == rows[1];
      }
    }
  }

  /** `ORDER BY id DESC`: with AUTOINCREMENT ids, highest id first. */
  lemma QueryIdsDescending(rows: seq<Row>, t: int)
    requires IdsIncreasing(rows)
    ensures forall j, k :: 0 <= j < k < |Query(rows, t)| ==> Query(rows, t)[j].id > Query(rows, t)[k].id
  {
    var m := Matching(rows, t);
    MatchingIdsIncreasing(rows, t);
    var q := Query(rows, t);
    forall j, k | 0 <= j < k < |q| ensures q[j].id > q[k].id {
      assert q[j] == m[|m| - 1 - j] && q[k] == m[|m| - 1 - k];
    }
  }

  // ---------------------------------------------------------------------------
  // The table

  class Database {
    /** The rows in insertion order. */
    var rows: seq<Row>
    /** The id AUTOINCREMENT hands out next. */
    var nextId: nat

    ghost predicate Valid()
      reads this
    {
      && IdsIncreasing(rows)
      && (forall k :: 0 <= k < |rows| ==> 1 <= rows[k].id < nextId)
      && nextId >= 1
    }

    /** `Database(path)`: `CREATE TABLE IF NOT EXISTS` keeps whatever the file
        already holds, its rows and the id its AUTOINCREMENT sequence hands out
        next; a new file is `stored == []` and `storedNextId == 1`. */
    constructor (stored: seq<Row>, storedNextId: nat)
      requires IdsIncreasing(stored) && storedNextId >= 1
      requires forall k :: 0 <= k < |stored| ==> 1 <= stored[k].id < storedNextId
      ensures Valid() && rows == stored && nextId == storedNextId
    {
      rows := stored;
      nextId := storedNextId;
    }

    /** `insert_fact(fact)`: one new row stamped with the database's clock. */
    method InsertFact(fact: string, now: int)
      requires Valid()
      modifies this
      ensures Valid()
      ensures rows == old(rows) + [Row(old(nextId), now, fact)]
      ensures nextId == old(nextId) + 1
    {
      rows := rows + [Row(nextId, now, fact)];
      nextId := nextId + 1;
    }

    /** `get_last_timestamp()` */
    function GetLastTimestamp(): (t: int)
      reads this
      ensures rows == [] ==> t == 0
      ensures forall k :: 0 <= k < |rows| ==> rows[k].timestamp <= t
      ensures rows != [] ==> exists k :: 0 <= k < |rows| && rows[k].timestamp == t
    {
      LastTimestamp(rows)
    }

    /** `get_facts(after_timestamp)`: the `(timestamp, fact)` pairs of the
        query's rows, copied out of the cursor one at a time. */
    method GetFacts(after: Option<int>, now: int) returns (facts: seq<(int, string)>)
      requires Valid()
      ensures facts == Columns(Query(rows, Cutoff(after, now)))
      ensures |facts| <= FactsLimit
      ensures forall k :: 0 <= k < |facts| ==> facts[k].0 <= Cutoff(after, now)
    {
      var cursor := Query(rows, Cutoff(after, now));
      assert |cursor| <= FactsLimit;
      facts := [];
      for i := 0 to |cursor|
        invariant facts == Columns(cursor[..i])
      {
        assert cursor[..i + 1] == cursor[..i] + [cursor[i]];
        ColumnsAppend(cursor[..i], cursor[i]);
        facts := facts + [(cursor[i].timestamp, cursor[i].fact)];
      }
      assert cursor[..|cursor|] == cursor;
    }
  }

  lemma ColumnsAppend(rows: seq<Row>, r: Row)
    ensures Columns(rows + [r]) == Columns(rows) + [(r.timestamp, r.fact)]
  {
  }

  /** The source's database test: three facts inserted in turn come back newest
      first, and an empty table reports 0 as its last timestamp. */
  lemma InsertOrderExample(t1: int, t2: int, t3: int, now: int)
    requires t1 <= t2 <= t3 <= now
    ensures LastTimestamp([]) == 0
    ensures var rows := [Row(1, t1, "kittens"), Row(2, t2, "hi"), Row(3, t3, "hello")];
      Columns(Query(rows, Cutoff(None, now))) == [(t3, "hello"), (t2, "hi"), (t1, "kittens")]
      && LastTimestamp(rows) == t3
  {
    var rows := [Row(1, t1, "kittens"), Row(2, t2, "hi"), Row(3, t3, "hello")];
    QueryAllMatch(rows, now);
    assert Reverse(rows) == [rows[2], rows[1], rows[0]];
  }

  /** With at most 100 rows, none newer than `t`, the query returns them all,
      newest first. */
  lemma QueryAllMatch(rows: seq<Row>, t: int)
    requires |rows| <= FactsLimit
    requires forall k :: 0 <= k < |rows| ==> rows[k].timestamp <= t
    ensures Query(rows, t) == Reverse(rows)
  {
    MatchingAll(rows, t);
    assert Reverse(rows)[..|rows|] == Reverse(rows);
  }
}
