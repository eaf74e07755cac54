/**
 * A SQLite table declared `id INTEGER PRIMARY KEY AUTOINCREMENT`, as the
 * sequence of its rows in rowid order together with the table's entry in
 * `sqlite_sequence` (the largest id ever handed out).
 */
module Table {
  import opened Common
  import opened Records

  /** The largest rowid SQLite can store (2^63 - 1). */
  const MaxRowId: int := 0x7FFF_FFFF_FFFF_FFFF

  /** Ids strictly increase along the rows, so no id occurs twice. */
  predicate Increasing<R>(rows: seq<Row<R>>)
  {
    forall i, j :: 0 <= i < j < |rows| ==> rows[i].id < rows[j].id
  }

  /** The table invariant: unique ascending ids, all between 1 and the sequence value. */
  predicate WellFormed<R>(rows: seq<Row<R>>, last: int)
  {
    && 0 <= last <= MaxRowId
    && Increasing(rows)
    && forall i :: 0 <= i < |rows| ==> 1 <= rows[i].id <= last
  }

  predicate HasId<R>(rows: seq<Row<R>>, id: int)
  {
    exists i :: 0 <= i < |rows| && rows[i].id == id
  }

  /** The columns of the first row with this id (`WHERE id = ?`, `Array.find`). */
  function Lookup<R(==)>(rows: seq<Row<R>>, id: int): (r: Option<R>)
    ensures r.None? <==> !HasId(rows, id)
    ensures r.Some? ==> exists i :: 0 <= i < |rows| && rows[i] == Row(id, r.value)
                                  && forall j :: 0 <= j < i ==> rows[j].id != id
  {
    if |rows| == 0 then None
    else if rows[0].id == id then Some(rows[0].val)
    else
      var r := Lookup(rows[1..], id);
      HasIdCons(rows, id);
      if r.Some? then
        var i :| 0 <= i < |rows| - 1 && rows[1..][i] == Row(id, r.value)
                 && forall j :: 0 <= j < i ==> rows[1..][j].id != id;
        assert rows[i + 1] == Row(id, r.value);
        assert forall j :: 1 <= j < i + 1 ==> rows[j].id != id by {
          forall j | 1 <= j < i + 1 ensures rows[j].id != id {
            assert rows[j] == rows[1..][j - 1];
          }
        }
        r
      else r
  }

  /** An id occurs in a non-empty table iff it is the first row's or occurs in the rest. */
  lemma HasIdCons<R>(rows: seq<Row<R>>, id: int)
    requires |rows| > 0
    ensures HasId(rows, id) <==> rows[0].id == id || HasId(rows[1..], id)
  {
    if HasId(rows, id) && rows[0].id != id {
      var i :| 0 <= i < |rows| && rows[i].id == id;
      assert rows[1..][i - 1].id == id;
    }
    if HasId(rows[1..], id) {
      var i :| 0 <= i < |rows| - 1 && rows[1..][i].id == id;
      assert rows[i + 1].id == id;
    }
  }

  /** The result of an `INSERT`: the new rows, the new sequence value, and `lastID`. */
  datatype Inserted<R> = Inserted(rows: seq<Row<R>>, last: int, id: int)

  /**
   * `INSERT` into an AUTOINCREMENT table: the new row gets the id one past the
   * largest ever used, so it is fresh; when that would pass MaxRowId SQLite
   * fails with SQLITE_FULL and nothing changes.
   */
  function Insert<R(==)>(rows: seq<Row<R>>, last: int, v: R): (r: Option<Inserted<R>>)
    requires WellFormed(rows, last)
    ensures r.None? <==> last == MaxRowId
    ensures r.Some? ==>
              && r.value.id == last + 1
              && !HasId(rows, r.value.id)
              && r.value.rows == rows + [Row(r.value.id, v)]
              && r.value.last == r.value.id
              && WellFormed(r.value.rows, r.value.last)
              && Lookup(r.value.rows, r.value.id) == Some(v)
              && forall k :: k != r.value.id ==> Lookup(r.value.rows, k) == Lookup(rows, k)
  {
    if last == MaxRowId then None
    else
      var id := last + 1;
      var rows' := rows + [Row(id, v)];
      AppendWellFormed(rows, last, v);
      LookupAppend(rows, Row(id, v));
      Some(Inserted(rows', id, id))
  }

  /** The row appended with the next id keeps the table well formed, and its id is new. */
  lemma AppendWellFormed<R>(rows: seq<Row<R>>, last: int, v: R)
    requires WellFormed(rows, last) && last < MaxRowId
    ensures !HasId(rows, last + 1)
    ensures WellFormed(rows + [Row(last + 1, v)], last + 1)
  {
    var r := rows + [Row(last + 1, v)];
    assert forall i :: 0 <= i < |rows| ==> r[i] == rows[i];
  }

  /** Appending a row whose id is new leaves every other lookup alone. */
  lemma {:induction false} LookupAppend<R>(rows: seq<Row<R>>, x: Row<R>)
    requires !HasId(rows, x.id)
    ensures Lookup(rows + [x], x.id) == Some(x.val)
    ensures forall k :: k != x.id ==> Lookup(rows + [x], k) == Lookup(rows, k)
  {
    if |rows| > 0 {
      assert (rows + [x])[1..] == rows[1..] + [x];
      LookupAppend(rows[1..], x);
    }
  }

  /** `UPDATE … WHERE id = ?`: every row with that id gets the new columns. */
  function Update<R(==)>(rows: seq<Row<R>>, id: int, v: R): (r: seq<Row<R>>)
    ensures |r| == |rows|
    ensures forall i :: 0 <= i < |r| ==> r[i].id == rows[i].id
    ensures forall i :: 0 <= i < |r| ==> r[i] == rows[i] || r[i] == Row(id, v)
    ensures Lookup(r, id) == (if HasId(rows, id) then Some(v) else None)
    ensures forall k :: k != id ==> Lookup(r, k) == Lookup(rows, k)
    ensures !HasId(rows, id) ==> r == rows
  {
    ReplaceFacts(rows, id, v);
    Replace(rows, id, v)
  }

  /** Every row with this id replaced by `Row(id, v)`. */
  function Replace<R>(rows: seq<Row<R>>, id: int, v: R): seq<Row<R>>
  {
    if |rows| == 0 then []
    else [if rows[0].id == id then Row(id, v) else rows[0]] + Replace(rows[1..], id, v)
  }

  lemma {:induction false} ReplaceFacts<R>(rows: seq<Row<R>>, id: int, v: R)
    ensures var r := Replace(rows, id, v);
            && |r| == |rows|
            && (forall i :: 0 <= i < |r| ==> r[i].id == rows[i].id)
            && (forall i :: 0 <= i < |r| ==> r[i] == rows[i] || r[i] == Row(id, v))
            && Lookup(r, id) == (if HasId(rows, id) then Some(v) else None)
            && (forall k :: k != id ==> Lookup(r, k) == Lookup(rows, k))
            && (!HasId(rows, id) ==> r == rows)
  {
    ReplaceShape(rows, id, v);
    ReplaceLookup(rows, id, v);
  }

  lemma {:induction false} ReplaceShape<R>(rows: seq<Row<R>>, id: int, v: R)
    ensures var r := Replace(rows, id, v);
            && |r| == |rows|
            && (forall i :: 0 <= i < |r| ==> r[i].id == rows[i].id)
            && (forall i :: 0 <= i < |r| ==> r[i] == rows[i] || r[i] == Row(id, v))
  {
    if |rows| > 0 {
      ReplaceShape(rows[1..], id, v);
      var r := Replace(rows, id, v);
      var tail := Replace(rows[1..], id, v);
      assert r == [r[0]] + tail;
      assert forall i :: 1 <= i < |r| ==> r[i] == tail[i - 1] && rows[i] == rows[1..][i - 1];
    }
  }

  lemma {:induction false} ReplaceLookup<R>(rows: seq<Row<R>>, id: int, v: R)
    ensures var r := Replace(rows, id, v);
            && Lookup(r, id) == (if HasId(rows, id) then Some(v) else None)
            && (forall k :: k != id ==> Lookup(r, k) == Lookup(rows, k))
            && (!HasId(rows, id) ==> r == rows)
  {
    if |rows| > 0 {
      ReplaceLookup(rows[1..], id, v);
      var r := Replace(rows, id, v);
      var tail := Replace(rows[1..], id, v);
      assert r[0].id == rows[0].id && r[1..] == tail;
      HasIdCons(rows, id);
      LookupCons(r, id);
      LookupCons(rows, id);
      forall k | k != id ensures Lookup(r, k) == Lookup(rows, k) {
        LookupCons(r, k);
        LookupCons(rows, k);
      }
      if !HasId(rows, id) {
        assert rows == [rows[0]] + rows[1..];
      }
    }
  }

  /** `Lookup` on a non-empty table, one step unfolded. */
  lemma LookupCons<R>(rows: seq<Row<R>>, id: int)
    requires |rows| > 0
    ensures Lookup(rows, id) == if rows[0].id == id then Some(rows[0].val) else Lookup(rows[1..], id)
  {
  }

  /** The rows whose id differs from `id`, in order. */
  function Drop<R>(rows: seq<Row<R>>, id: int): seq<Row<R>>
  {
    if |rows| == 0 then []
    else if rows[0].id == id then Drop(rows[1..], id)
    else [rows[0]] + Drop(rows[1..], id)
  }

  /** `DELETE … WHERE id = ?`: keeps exactly the rows with a different id, in order. */
  function Remove<R(==)>(rows: seq<Row<R>>, id: int): (r: seq<Row<R>>)
    ensures |r| <= |rows|
    ensures forall i :: 0 <= i < |r| ==> r[i] in rows && r[i].id != id
    ensures forall i :: 0 <= i < |rows| && rows[i].id != id ==> rows[i] in r
    ensures !HasId(r, id)
    ensures |r| == |rows| <==> !HasId(rows, id)
    ensures !HasId(rows, id) ==> r == rows
    ensures forall k :: k != id ==> Lookup(r, k) == Lookup(rows, k)
    ensures Increasing(rows) ==> Increasing(r)
  {
    DropFacts(rows, id);
    if Increasing(rows) then
      SubsequenceIncreasing(rows, id);
      Drop(rows, id)
    else Drop(rows, id)
  }

  lemma {:induction false} DropFacts<R>(rows: seq<Row<R>>, id: int)
    ensures var r := Drop(rows, id);
            && |r| <= |rows|
            && (forall i :: 0 <= i < |r| ==> r[i] in rows && r[i].id != id)
            && (forall i :: 0 <= i < |rows| && rows[i].id != id ==> rows[i] in r)
            && !HasId(r, id)
            && (|r| == |rows| <==> !HasId(rows, id))
            && (!HasId(rows, id) ==> r == rows)
            && forall k :: k != id ==> Lookup(r, k) == Lookup(rows, k)
  {
    if |rows| > 0 {
      var tail := Drop(rows[1..], id);
      DropFacts(rows[1..], id);
      var r := Drop(rows, id);
      assert rows == [rows[0]] + rows[1..];
      HasIdCons(rows, id);
      assert forall i :: 0 <= i < |r| ==> r[i].id != id by {
        forall i | 0 <= i < |r| ensures r[i].id != id {
          assert r[i] == rows[0] || r[i] in tail;
        }
      }
      if rows[0].id != id {
        assert r[1..] == tail;
      }
    }
  }

  /** A removal keeps ids ascending and within the sequence value. */
  lemma RemoveWellFormed<R>(rows: seq<Row<R>>, last: int, id: int)
    requires WellFormed(rows, last)
    ensures WellFormed(Remove(rows, id), last)
  {
    var r := Remove(rows, id);
    SubsequenceIncreasing(rows, id);
    forall i | 0 <= i < |r| ensures 1 <= r[i].id <= last {
      assert r[i] in rows;
    }
  }

  lemma {:induction false} SubsequenceIncreasing<R>(rows: seq<Row<R>>, id: int)
    requires Increasing(rows)
    ensures Increasing(Drop(rows, id))
  {
    if |rows| > 0 {
      var r := Drop(rows, id);
      var tail := Drop(rows[1..], id);
      TailIncreasing(rows);
      SubsequenceIncreasing(rows[1..], id);
      DropFacts(rows[1..], id);
      if rows[0].id != id {
        forall j | 0 <= j < |tail| ensures rows[0].id < tail[j].id {
          assert tail[j] in rows[1..];
          var m :| 0 <= m < |rows| - 1 && rows[1..][m] == tail[j];
          assert rows[m + 1] == tail[j];
        }
        assert r == [rows[0]] + tail;
        ConsIncreasing(rows[0], tail);
      }
    }
  }

  lemma TailIncreasing<R>(rows: seq<Row<R>>)
    requires Increasing(rows) && |rows| > 0
    ensures Increasing(rows[1..])
  {
    forall i, j | 0 <= i < j < |rows| - 1 ensures rows[1..][i].id < rows[1..][j].id {
      assert rows[1..][i] == rows[i + 1] && rows[1..][j] == rows[j + 1];
    }
  }

  lemma ConsIncreasing<R>(x: Row<R>, tail: seq<Row<R>>)
    requires Increasing(tail)
    requires forall j :: 0 <= j < |tail| ==> x.id < tail[j].id
    ensures Increasing([x] + tail)
  {
    var r := [x] + tail;
    forall i, j | 0 <= i < j < |r| ensures r[i].id < r[j].id {
      assert r[j] == tail[j - 1];
      if i > 0 {
        assert r[i] == tail[i - 1];
      }
    }
  }

  /**
   * With unique ids, removing the id of row `k` drops exactly that row and
   * keeps the others in order.
   */
  lemma RemoveAt<R>(rows: seq<Row<R>>, k: int)
    requires Increasing(rows) && 0 <= k < |rows|
    ensures Remove(rows, rows[k].id) == rows[..k] + rows[k + 1..]
  {
    DropAt(rows, k);
  }

  lemma {:induction false} DropAt<R>(rows: seq<Row<R>>, k: int)
    requires Increasing(rows) && 0 <= k < |rows|
    ensures Drop(rows, rows[k].id) == rows[..k] + rows[k + 1..]
  {
    var id := rows[k].id;
    var tail := rows[1..];
    TailIncreasing(rows);
    if k == 0 {
      HeadAbsentFromTail(rows);
      DropAbsent(tail, id);
      assert rows[..0] + rows[1..] == tail;
    } else {
      assert rows[0].id < id;
      assert rows[k] == tail[k - 1];
      DropAt(tail, k - 1);
      var rest := Drop(tail, id);
      assert rest == tail[..k - 1] + tail[k..];
      assert [rows[0]] + rest == ([rows[0]] + tail[..k - 1]) + tail[k..];
      assert [rows[0]] + tail[..k - 1] == rows[..k];
      assert tail[k..] == rows[k + 1..];
    }
  }

  /** Dropping an id that does not occur changes nothing. */
  lemma {:induction false} DropAbsent<R>(rows: seq<Row<R>>, id: int)
    requires !HasId(rows, id)
    ensures Drop(rows, id) == rows
  {
    if |rows| > 0 {
      HasIdCons(rows, id);
      DropAbsent(rows[1..], id);
      assert rows == [rows[0]] + rows[1..];
    }
  }

  /** In an increasing table the first row's id does not recur. */
  lemma HeadAbsentFromTail<R>(rows: seq<Row<R>>)
    requires Increasing(rows) && |rows| > 0
    ensures !HasId(rows[1..], rows[0].id)
  {
    var tail := rows[1..];
    forall i | 0 <= i < |tail| ensures tail[i].id != rows[0].id {
      assert tail[i] == rows[i + 1];
    }
  }


}
