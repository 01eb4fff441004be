/** One database table: rows in scan (insertion) order, each with its integer
    primary key and the record's other columns. */
module Tables {
  import opened Json

  datatype Row<C> = Row(id: int, cols: C)

  type Table<C> = seq<Row<C>>

  /** The primary keys present in the table. */
  function Ids<C(==)>(t: Table<C>): set<int> {
    set r | r in t :: r.id
  }

  /** The primary-key constraint: no two rows share an id. */
  predicate KeysUnique<C(==)>(t: Table<C>) {
    forall i, j :: 0 <= i < j < |t| ==> t[i].id != t[j].id
  }

  /** Every id is below the table's id sequence, so the next id is fresh. */
  predicate TableValid<C(==)>(t: Table<C>, nextId: int) {
    KeysUnique(t) && forall r :: r in t ==> r.id < nextId
  }

  /** `Model.query.get(id)`: the row with that primary key, if any. */
  function Find<C(==)>(t: Table<C>, id: int): (r: Option<Row<C>>)
    ensures r.None? <==> id !in Ids(t)
    ensures r.Some? ==> r.value in t && r.value.id == id
  {
    if t == [] then None
    else if t[0].id == id then Some(t[0])
    else
      var r := Find(t[1..], id);
      assert Ids(t) == {t[0].id} + Ids(t[1..]) by {
        assert t == [t[0]] + t[1..];
      }
      r
  }

  /** With unique keys, the row found is the only one carrying the id. */
  lemma {:induction false} FindUnique<C>(t: Table<C>, k: int)
    requires KeysUnique(t) && 0 <= k < |t|
    ensures Find(t, t[k].id) == Some(t[k])
  {
    if k > 0 {
      assert t[0].id != t[k].id;
      assert KeysUnique(t[1..]) by {
        forall i, j | 0 <= i < j < |t[1..]| ensures t[1..][i].id != t[1..][j].id {
          assert t[1..][i] == t[i + 1] && t[1..][j] == t[j + 1];
        }
      }
      FindUnique(t[1..], k - 1);
    }
  }

  /** `db.session.delete(row)` on the table: drop the row with that key. */
  function Remove<C(==)>(t: Table<C>, id: int): (r: Table<C>)
    ensures forall i :: 0 <= i < |r| ==> r[i] in t && r[i].id != id
    ensures forall i :: 0 <= i < |t| && t[i].id != id ==> t[i] in r
    ensures Ids(r) == Ids(t) - {id}
    ensures KeysUnique(t) ==> KeysUnique(r)
  {
    if t == [] then []
    else
      var rest := Remove(t[1..], id);
      TailKeysUnique(t);
      var r := if t[0].id == id then rest else [t[0]] + rest;
      RemoveCons(t, id, rest, r);
      r
  }

  /** The tail of a table with unique keys has unique keys, none of them the head's. */
  lemma TailKeysUnique<C>(t: Table<C>)
    requires t != []
    ensures KeysUnique(t) ==> KeysUnique(t[1..]) && forall x :: x in t[1..] ==> x.id != t[0].id
  {
    if KeysUnique(t) {
      forall i, j | 0 <= i < j < |t[1..]| ensures t[1..][i].id != t[1..][j].id {
        assert t[1..][i] == t[i + 1] && t[1..][j] == t[j + 1];
      }
      forall x | x in t[1..] ensures x.id != t[0].id {
        var j :| 0 <= j < |t[1..]| && t[1..][j] == x;
        assert t[j + 1] == x;
      }
    }
  }

  /** One step of Remove: its contract for the tail gives its contract for the table. */
  lemma RemoveCons<C>(t: Table<C>, id: int, rest: Table<C>, r: Table<C>)
    requires t != []
    requires forall i :: 0 <= i < |rest| ==> rest[i] in t[1..] && rest[i].id != id
    requires forall i :: 0 <= i < |t[1..]| && t[1..][i].id != id ==> t[1..][i] in rest
    requires Ids(rest) == Ids(t[1..]) - {id}
    requires KeysUnique(t[1..]) ==> KeysUnique(rest)
    requires KeysUnique(t) ==> KeysUnique(t[1..]) && forall x :: x in t[1..] ==> x.id != t[0].id
    requires r == if t[0].id == id then rest else [t[0]] + rest
    ensures forall i :: 0 <= i < |r| ==> r[i] in t && r[i].id != id
    ensures forall i :: 0 <= i < |t| && t[i].id != id ==> t[i] in r
    ensures Ids(r) == Ids(t) - {id}
    ensures KeysUnique(t) ==> KeysUnique(r)
  {
    assert t == [t[0]] + t[1..];
    forall i | 0 <= i < |t| && t[i].id != id ensures t[i] in r {
      if i > 0 { assert t[i] == t[1..][i - 1]; }
    }
    forall x | x in Ids(t) - {id} ensures x in Ids(r) {
      var i :| 0 <= i < |t| && t[i].id == x;
    }
    if KeysUnique(t) && t[0].id != id {
      ConsKeysUnique(t[0], rest, t[1..]);
    }
  }

  /** A row put in front of rows drawn from elsewhere keeps keys unique when
      none of them shares its key. */
  lemma ConsKeysUnique<C>(x: Row<C>, rest: Table<C>, from: Table<C>)
    requires KeysUnique(rest)
    requires forall i :: 0 <= i < |rest| ==> rest[i] in from
    requires forall y :: y in from ==> y.id != x.id
    ensures KeysUnique([x] + rest)
  {
    var r := [x] + rest;
    forall i, j | 0 <= i < j < |r| ensures r[i].id != r[j].id {
      assert r[j] == rest[j - 1];
      if i > 0 {
        assert r[i] == rest[i - 1];
      }
    }
  }

  /** Write the new columns into the row with key `id`; every other row, and
      every key, stays where it was. */
  function Replace<C(==)>(t: Table<C>, id: int, cols: C): (r: Table<C>)
    ensures |r| == |t|
    ensures forall i :: 0 <= i < |t| ==> r[i].id == t[i].id
    ensures forall i :: 0 <= i < |t| ==> r[i].cols == (if t[i].id == id then cols else t[i].cols)
  {
    seq(|t|, i requires 0 <= i < |t| => if t[i].id == id then Row(id, cols) else t[i])
  }

  lemma ReplaceKeepsKeys<C>(t: Table<C>, id: int, cols: C)
    ensures Ids(Replace(t, id, cols)) == Ids(t)
    ensures KeysUnique(t) ==> KeysUnique(Replace(t, id, cols))
    ensures forall x :: x in Replace(t, id, cols) ==> x in t || x == Row(id, cols)
  {
    var r := Replace(t, id, cols);
    forall x | x in Ids(r) ensures x in Ids(t) {
      var i :| 0 <= i < |r| && r[i].id == x;
      assert t[i] in t;
    }
    forall x | x in Ids(t) ensures x in Ids(r) {
      var i :| 0 <= i < |t| && t[i].id == x;
      assert r[i] in r;
    }
  }

  /** Updating a present row and then looking it up yields the new columns. */
  lemma {:induction false} FindAfterReplace<C>(t: Table<C>, id: int, cols: C)
    requires KeysUnique(t) && id in Ids(t)
    ensures Find(Replace(t, id, cols), id) == Some(Row(id, cols))
  {
    var k :| 0 <= k < |t| && t[k].id == id;
    ReplaceKeepsKeys(t, id, cols);
    FindUnique(Replace(t, id, cols), k);
  }

  /** Inserting a row with a fresh key and then looking it up yields that row. */
  lemma FindAfterAppend<C>(t: Table<C>, row: Row<C>)
    requires TableValid(t, row.id)
    ensures TableValid(t + [row], row.id + 1)
    ensures Ids(t + [row]) == Ids(t) + {row.id}
    ensures Find(t + [row], row.id) == Some(row)
    ensures forall id :: id != row.id ==> Find(t + [row], id) == Find(t, id)
  {
    var s := t + [row];
    assert forall x :: x in s <==> x in t || x == row;
    assert KeysUnique(s) by {
      forall i, j | 0 <= i < j < |s| ensures s[i].id != s[j].id {
        if j == |t| { assert s[i] in t; }
      }
    }
    FindUnique(s, |t|);
    forall id | id != row.id ensures Find(s, id) == Find(t, id) {
      FindAppendOther(t, row, id);
    }
  }

  lemma {:induction false} FindAppendOther<C>(t: Table<C>, row: Row<C>, id: int)
    requires id != row.id
    ensures Find(t + [row], id) == Find(t, id)
  {
    if t != [] {
      assert (t + [row])[1..] == t[1..] + [row];
      FindAppendOther(t[1..], row, id);
    }
  }

  /** The loop of the list routes: serialise every row, in table order. */
  method SerializeAll<C(==)>(t: Table<C>, serialize: Row<C> -> Object) returns (out: seq<Object>)
    ensures |out| == |t|
    ensures forall i :: 0 <= i < |t| ==> out[i] == serialize(t[i])
  {
    out := [];
    for i := 0 to |t|
      invariant |out| == i
      invariant forall k :: 0 <= k < i ==> out[k] == serialize(t[k])
    {
      out := out + [serialize(t[i])];
    }
  }
}
