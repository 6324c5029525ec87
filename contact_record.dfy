/** One row of the `contacts` table, as the server stores it and the admin
    panel receives it, and the one update either side applies to a list of
    rows: mark every row with a given id as read. */
module ContactRecord {

  /** A stored contact message. `timestamp` is an abstract clock reading
      (the table's `TIMESTAMP DEFAULT CURRENT_TIMESTAMP`); `isRead` is the
      `is_read` column, `FALSE` when the row is inserted. */
  datatype Row = Row(
    id: int,
    name: string,
    email: string,
    subject: string,
    message: string,
    timestamp: nat,
    isRead: bool)

  function Ids(rows: seq<Row>): (ids: seq<int>)
    ensures |ids| == |rows|
    ensures forall k :: 0 <= k < |rows| ==> ids[k] == rows[k].id
  {
    if rows == [] then [] else [rows[0].id] + Ids(rows[1..])
  }

  /** `rows` with every row whose id is `id` marked read and every other row
      as it was. */
  function SetReadWhere(rows: seq<Row>, id: int): (r: seq<Row>)
    ensures |r| == |rows|
    ensures forall k :: 0 <= k < |rows| ==>
      r[k] == if rows[k].id == id then rows[k].(isRead := true) else rows[k]
  {
    if rows == [] then []
    else [if rows[0].id == id then rows[0].(isRead := true) else rows[0]] + SetReadWhere(rows[1..], id)
  }

  /** Only `isRead` changes, only on the rows with that id, and it becomes true;
      the list keeps its length and its ids in their order. */
  lemma SetReadWhereChangesOnlyIsRead(rows: seq<Row>, id: int)
    ensures Ids(SetReadWhere(rows, id)) == Ids(rows)
    ensures forall k :: 0 <= k < |rows| ==>
      var (before, after) := (rows[k], SetReadWhere(rows, id)[k]);
      && after.name == before.name && after.email == before.email
      && after.subject == before.subject && after.message == before.message
      && after.timestamp == before.timestamp
      && (after.isRead <==> before.isRead || before.id == id)
  {
  }

  /** Marking the same id read a second time changes nothing more. */
  lemma SetReadWhereIdempotent(rows: seq<Row>, id: int)
    ensures SetReadWhere(SetReadWhere(rows, id), id) == SetReadWhere(rows, id)
  {
  }

  /** With ids unique, marking `id` read rewrites the one row that carries it. */
  lemma SetReadWhereUniqueId(rows: seq<Row>, k: int)
    requires 0 <= k < |rows|
    requires forall a, b :: 0 <= a < b < |rows| ==> rows[a].id != rows[b].id
    ensures SetReadWhere(rows, rows[k].id) == rows[k := rows[k].(isRead := true)]
  {
  }

  lemma SetReadWhereAppend(a: seq<Row>, b: seq<Row>, id: int)
    ensures SetReadWhere(a + b, id) == SetReadWhere(a, id) + SetReadWhere(b, id)
  {
  }

  /** Two lists holding the same rows, in any order, still hold the same rows
      after both mark the same id read. */
  lemma {:induction false} SetReadWhereMultiset(s: seq<Row>, t: seq<Row>, id: int)
    requires multiset(s) == multiset(t)
    ensures multiset(SetReadWhere(s, id)) == multiset(SetReadWhere(t, id))
    decreases |s|
  {
    if s != [] {
      assert s == [s[0]] + s[1..];
      assert s[0] in multiset(t);
      var j :| 0 <= j < |t| && t[j] == s[0];
      var rest := t[..j] + t[j + 1..];
      assert t == t[..j] + [t[j]] + t[j + 1..];
      assert multiset(t) == multiset(t[..j]) + multiset{t[j]} + multiset(t[j + 1..]);
      assert multiset(s) == multiset{s[0]} + multiset(s[1..]);
      assert multiset(rest) == multiset(t[..j]) + multiset(t[j + 1..]);
      assert multiset(s[1..]) == multiset(s) - multiset{s[0]};
      assert multiset(rest) == multiset(t) - multiset{t[j]};
      SetReadWhereMultiset(s[1..], rest, id);
      SetReadWhereAppend([s[0]], s[1..], id);
      SetReadWhereAppend(t[..j] + [t[j]], t[j + 1..], id);
      SetReadWhereAppend(t[..j], [t[j]], id);
      SetReadWhereAppend(t[..j], t[j + 1..], id);
    } else {
      assert t == [];
    }
  }
}
