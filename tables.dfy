/** Rows of a table kept in primary-key order, and the values a session holds
    for them that are not yet written. `id` projects a row's primary key. */
module Tables {
  import Seqs

  /** Primary keys strictly increase along the sequence, so they are unique. */
  predicate IdsAscending<T>(rows: seq<T>, id: T -> int)
  {
    forall i, j :: 0 <= i < j < |rows| ==> id(rows[i]) < id(rows[j])
  }

  /** Committing a changed row: the row with the same key is replaced. */
  function Replace<T>(rows: seq<T>, row: T, id: T -> int): (r: seq<T>)
    ensures |r| == |rows|
    ensures forall i :: 0 <= i < |rows| ==> r[i] == if id(rows[i]) == id(row) then row else rows[i]
  {
    seq(|rows|, i requires 0 <= i < |rows| => if id(rows[i]) == id(row) then row else rows[i])
  }

  /** Writing back a row that is already stored changes nothing. */
  lemma ReplaceWithStored<T>(rows: seq<T>, k: nat, id: T -> int)
    requires IdsAscending(rows, id) && k < |rows|
    ensures Replace(rows, rows[k], id) == rows
  {
    var r := Replace(rows, rows[k], id);
    forall i | 0 <= i < |rows|
      ensures r[i] == rows[i]
    {
      if i < k {
        assert id(rows[i]) < id(rows[k]);
      } else if i > k {
        assert id(rows[k]) < id(rows[i]);
      }
    }
  }

  /** Assigning to the same object twice: only the last values remain. */
  lemma ReplaceTwice<T>(rows: seq<T>, first: T, second: T, id: T -> int)
    requires id(first) == id(second)
    ensures Replace(Replace(rows, first, id), second, id) == Replace(rows, second, id)
  {
  }

  /** The row `Replace` puts in is the only one it holds under that key. */
  lemma InReplaceWithKey<T>(rows: seq<T>, row: T, x: T, id: T -> int)
    requires x in Replace(rows, row, id) && id(x) == id(row)
    ensures x == row
  {
  }

  /** Deleting the row with primary key `key`, if there is one. */
  function Without<T>(rows: seq<T>, key: int, id: T -> int): (r: seq<T>)
    ensures |r| <= |rows|
    ensures forall i :: 0 <= i < |r| ==> r[i] in rows && id(r[i]) != key
    ensures forall i :: 0 <= i < |rows| && id(rows[i]) != key ==> rows[i] in r
  {
    if rows == [] then []
    else (if id(rows[0]) == key then [] else [rows[0]]) + Without(rows[1..], key, id)
  }

  /** Deleting a key that is not stored changes nothing. */
  lemma {:induction false} WithoutAbsent<T>(rows: seq<T>, key: int, id: T -> int)
    requires forall i :: 0 <= i < |rows| ==> id(rows[i]) != key
    ensures Without(rows, key, id) == rows
  {
    if rows != [] {
      WithoutAbsent(rows[1..], key, id);
    }
  }

  /** Deleting keeps the remaining rows in key order. */
  lemma {:induction false} WithoutAscending<T>(rows: seq<T>, key: int, id: T -> int)
    requires IdsAscending(rows, id)
    ensures IdsAscending(Without(rows, key, id), id)
  {
    if rows != [] {
      WithoutAscending(rows[1..], key, id);
      if id(rows[0]) != key {
        HeadBelowRest(rows, key, id);
        ConsAscending(rows[0], Without(rows[1..], key, id), id);
      }
    }
  }

  /** The first row's key is below every key left in the rest. */
  lemma HeadBelowRest<T>(rows: seq<T>, key: int, id: T -> int)
    requires IdsAscending(rows, id) && rows != []
    ensures forall k :: 0 <= k < |Without(rows[1..], key, id)| ==> id(rows[0]) < id(Without(rows[1..], key, id)[k])
  {
    var rest := Without(rows[1..], key, id);
    forall k | 0 <= k < |rest|
      ensures id(rows[0]) < id(rest[k])
    {
      var j :| 0 <= j < |rows[1..]| && rows[1..][j] == rest[k];
      assert rows[1..][j] == rows[j + 1];
    }
  }

  /** Prepending a key below all others keeps keys ascending. */
  lemma ConsAscending<T>(x: T, rest: seq<T>, id: T -> int)
    requires IdsAscending(rest, id) && forall k :: 0 <= k < |rest| ==> id(x) < id(rest[k])
    ensures IdsAscending([x] + rest, id)
  {
    var r := [x] + rest;
    forall i, j | 0 <= i < j < |r|
      ensures id(r[i]) < id(r[j])
    {
      assert r[j] == rest[j - 1];
      if 0 < i {
        assert r[i] == rest[i - 1];
      }
    }
  }

  /** Deleting a stored key removes exactly one row. */
  lemma {:induction false} WithoutPresent<T>(rows: seq<T>, k: nat, id: T -> int)
    requires IdsAscending(rows, id) && k < |rows|
    ensures |Without(rows, id(rows[k]), id)| == |rows| - 1
  {
    if k == 0 {
      WithoutAbsent(rows[1..], id(rows[0]), id);
    } else {
      WithoutPresent(rows[1..], k - 1, id);
    }
  }

  /** The stored rows of a table whose autoincrement counter stands at `next`:
      keys ascend and were all handed out before. */
  predicate Numbered<T>(rows: seq<T>, id: T -> int, next: int)
  {
    && 1 <= next
    && IdsAscending(rows, id)
    && forall i :: 0 <= i < |rows| ==> 1 <= id(rows[i]) < next
  }

  /** Pending values are filed under their own primary key. */
  predicate KeyedBy<T>(pending: map<int, T>, id: T -> int)
  {
    forall k :: k in pending ==> id(pending[k]) == k
  }

  /** The object a session hands out for the stored row `row`: the values
      assigned to it and not yet written, if any, otherwise the stored ones. */
  function Loaded<T>(row: T, pending: map<int, T>, id: T -> int): T
  {
    if id(row) in pending then pending[id(row)] else row
  }

  /** The session's objects for `rows`; writing them back is a flush. */
  function Flush<T>(rows: seq<T>, pending: map<int, T>, id: T -> int): (r: seq<T>)
    ensures |r| == |rows|
    ensures forall i :: 0 <= i < |rows| ==> r[i] == Loaded(rows[i], pending, id)
  {
    seq(|rows|, i requires 0 <= i < |rows| => Loaded(rows[i], pending, id))
  }

  /** With nothing pending the objects hold the stored rows. */
  lemma FlushNothing<T>(rows: seq<T>, id: T -> int)
    ensures Flush(rows, map[], id) == rows
  {
  }

  /** A flush changes no primary key, so it keeps the table numbered. */
  lemma FlushNumbered<T>(rows: seq<T>, pending: map<int, T>, id: T -> int, next: int)
    requires Numbered(rows, id, next) && KeyedBy(pending, id)
    ensures Numbered(Flush(rows, pending, id), id, next)
    ensures forall i :: 0 <= i < |rows| ==> id(Flush(rows, pending, id)[i]) == id(rows[i])
  {
  }

  /** Assigning `x` to the object with its key: the objects are the old ones
      with `x` in its place. */
  lemma FlushAssign<T>(rows: seq<T>, pending: map<int, T>, x: T, id: T -> int)
    requires KeyedBy(pending, id)
    ensures Flush(rows, pending[id(x) := x], id) == Replace(Flush(rows, pending, id), x, id)
  {
    var before, after := Flush(rows, pending, id), Flush(rows, pending[id(x) := x], id);
    forall i | 0 <= i < |rows|
      ensures after[i] == Replace(before, x, id)[i]
    {
      assert id(before[i]) == id(rows[i]);
    }
  }

  /** A query under `autoflush=False`: `p` is evaluated on the stored rows, and
      the result holds the session's objects for the rows that pass. */
  function Select<T>(rows: seq<T>, pending: map<int, T>, p: T -> bool, id: T -> int): (r: seq<T>)
    requires IdsAscending(rows, id) && KeyedBy(pending, id)
    ensures |r| == |Seqs.Filter(rows, p)|
    ensures forall i :: 0 <= i < |r| ==> r[i] in Flush(rows, pending, id)
    ensures forall i :: 0 <= i < |rows| ==> (Flush(rows, pending, id)[i] in r <==> p(rows[i]))
  {
    var r := Flush(Seqs.Filter(rows, p), pending, id);
    forall i | 0 <= i < |r|
      ensures r[i] in Flush(rows, pending, id)
    {
      SelectedIsObject(rows, pending, p, id, i);
    }
    forall i | 0 <= i < |rows|
      ensures Flush(rows, pending, id)[i] in r <==> p(rows[i])
    {
      ObjectSelectedIff(rows, pending, p, id, i);
    }
    r
  }

  /** Each selected object is the session's object of a stored row. */
  lemma SelectedIsObject<T>(rows: seq<T>, pending: map<int, T>, p: T -> bool, id: T -> int, i: nat)
    requires i < |Seqs.Filter(rows, p)|
    ensures Flush(Seqs.Filter(rows, p), pending, id)[i] in Flush(rows, pending, id)
  {
    var matching := Seqs.Filter(rows, p);
    var j :| 0 <= j < |rows| && rows[j] == matching[i];
    assert Flush(rows, pending, id)[j] == Flush(matching, pending, id)[i];
  }

  /** The object of stored row `i` is selected exactly when that row passes. */
  lemma ObjectSelectedIff<T>(rows: seq<T>, pending: map<int, T>, p: T -> bool, id: T -> int, i: nat)
    requires IdsAscending(rows, id) && KeyedBy(pending, id) && i < |rows|
    ensures Flush(rows, pending, id)[i] in Flush(Seqs.Filter(rows, p), pending, id) <==> p(rows[i])
  {
    var matching := Seqs.Filter(rows, p);
    var objects, r := Flush(rows, pending, id), Flush(matching, pending, id);
    if p(rows[i]) {
      var k :| 0 <= k < |matching| && matching[k] == rows[i];
      assert r[k] == objects[i];
    }
    if objects[i] in r {
      var k :| 0 <= k < |r| && r[k] == objects[i];
      var j :| 0 <= j < |rows| && rows[j] == matching[k];
      assert id(rows[j]) == id(rows[i]);
    }
  }
}
