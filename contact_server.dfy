/** The contact-message endpoints of the backend: `POST /api/contact` stores a
    submission, `GET /api/messages` lists the stored ones newest first, and
    `PUT /api/messages/:id/read` marks one read. The MySQL `contacts` table is
    an in-memory table of rows with its AUTO_INCREMENT counter; the global
    connection handle `db` is the flag `connected`. Faults the database or
    the mail transport may raise are parameters of the handlers. */
module ContactServer {
  import opened Wrappers
  import opened EmailPattern
  import opened ContactRecord

  /** Settings of the rate limiter in front of `POST /api/contact`:
      at most 5 requests per client address in a 15-minute window. */
  const RateWindowMs: nat := 15 * 60 * 1000
  const RateMaxPerWindow: nat := 5

  const SentMessage := "Message sent successfully! I'll get back to you soon."
  const CreateDisconnected := "Database connection error. Please try again later."
  const FieldsRequired := "All fields are required"
  const InvalidEmail := "Please enter a valid email address"
  const Disconnected := "Database connection error"
  const FetchFailed := "Failed to fetch messages"
  const NotFound := "Message not found"
  const UpdateFailed := "Failed to update message"
  const ConnRefusedMessage := "Database connection failed. Please check if MySQL is running."
  const AccessDeniedMessage := "Database access denied. Please check your MySQL credentials."
  const BadDbMessage := "Database \"portfolio\" does not exist. Please create it in MySQL Workbench."
  const GenericFailure := "Something went wrong. Please try again later."

  /** The body of `POST /api/contact`. */
  datatype Submission = Submission(name: string, email: string, subject: string, message: string)

  /** A handler's JSON reply; `Status` gives its HTTP status code. */
  datatype Reply =
    | Failed(status: nat, message: string)  // { success: false, message }
    | Created(message: string, id: int, timestamp: nat)  // { success: true, message, data: { id, timestamp } }
    | Listed(rows: seq<Row>)                // { success: true, data: rows }
    | Updated(row: Row)                     // { success: true, data: row }
  {
    function Status(): nat {
      match this
      case Failed(status, _) => status
      case Created(_, _, _) => 201
      case _ => 200
    }

    predicate Success() {
      !Failed?
    }
  }

  /** What the e-mail notification does once the row is stored. */
  datatype Relay =
    | Off                  // EMAIL_USER or EMAIL_PASS unset: nothing is sent
    | Sent                 // the mail went out
    | SendFailed           // sendMail failed; the notifier catches and logs it
    | Threw(code: string)  // building the transport threw; the handler's catch sees it

  /** Which statement of `PUT /api/messages/:id/read` fails, if any. */
  datatype MarkFault = NoFault | UpdateFails | SelectFails

  /** JavaScript truthiness of the four fields: an empty string is missing,
      whitespace is not trimmed away. */
  predicate AllPresent(s: Submission) {
    s.name != "" && s.email != "" && s.subject != "" && s.message != ""
  }

  /** The submissions the handler goes on to insert. */
  predicate Admissible(s: Submission) {
    AllPresent(s) && IsValidEmail(s.email)
  }

  /** The catch block of `POST /api/contact`: three database error codes get
      their own message, every other error the generic one; all are 500. */
  function ErrorReply(code: string): (r: Reply)
    ensures r.Failed? && r.Status() == 500 && !r.Success()
    ensures r.message == GenericFailure <==>
      code != "ECONNREFUSED" && code != "ER_ACCESS_DENIED_ERROR" && code != "ER_BAD_DB_ERROR"
    ensures code == "ECONNREFUSED" ==> r.message == ConnRefusedMessage
    ensures code == "ER_ACCESS_DENIED_ERROR" ==> r.message == AccessDeniedMessage
    ensures code == "ER_BAD_DB_ERROR" ==> r.message == BadDbMessage
  {
    if code == "ECONNREFUSED" then Failed(500, ConnRefusedMessage)
    else if code == "ER_ACCESS_DENIED_ERROR" then Failed(500, AccessDeniedMessage)
    else if code == "ER_BAD_DB_ERROR" then Failed(500, BadDbMessage)
    else Failed(500, GenericFailure)
  }

  /** Different recognised codes give different messages. */
  lemma ErrorRepliesDistinct(c1: string, c2: string)
    requires ErrorReply(c1).message != GenericFailure && ErrorReply(c2).message != GenericFailure
    requires c1 != c2
    ensures ErrorReply(c1) != ErrorReply(c2)
  {
  }

  predicate HasId(rows: seq<Row>, id: int) {
    exists k :: 0 <= k < |rows| && rows[k].id == id
  }

  /** `ORDER BY timestamp DESC`: no row is older than a row after it. */
  ghost predicate NewestFirst(rows: seq<Row>) {
    forall a, b :: 0 <= a < b < |rows| ==> rows[a].timestamp >= rows[b].timestamp
  }

  /** Each row strictly younger than the rows before it. */
  ghost predicate StrictlyOldestFirst(rows: seq<Row>) {
    forall a, b :: 0 <= a < b < |rows| ==> rows[a].timestamp < rows[b].timestamp
  }

  function Reversed(rows: seq<Row>): (r: seq<Row>)
    ensures |r| == |rows|
  {
    if rows == [] then [] else [rows[|rows| - 1]] + Reversed(rows[..|rows| - 1])
  }

  /** Puts `x` into a newest-first list ahead of every row no younger than it. */
  function InsertNewestFirst(sorted: seq<Row>, x: Row): (r: seq<Row>)
    requires NewestFirst(sorted)
    ensures NewestFirst(r)
    ensures multiset(r) == multiset(sorted) + multiset{x}
    ensures (forall y :: y in sorted ==> y.timestamp <= x.timestamp) ==> r == [x] + sorted
  {
    if sorted == [] || sorted[0].timestamp <= x.timestamp then
      [x] + sorted
    else
      TailNewestFirst(sorted);
      var rest := InsertNewestFirst(sorted[1..], x);
      assert sorted == [sorted[0]] + sorted[1..];
      BoundedByHead(sorted, x, rest);
      ConsNewestFirst(sorted[0], rest);
      [sorted[0]] + rest
  }

  /** In a table stored oldest first, inserting the next row into the reversed
      prefix gives the reversed longer prefix. */
  lemma InsertYoungest(rows: seq<Row>, i: int, acc: seq<Row>)
    requires StrictlyOldestFirst(rows) && 0 <= i < |rows|
    requires NewestFirst(acc) && multiset(acc) == multiset(rows[..i]) && acc == Reversed(rows[..i])
    ensures InsertNewestFirst(acc, rows[i]) == Reversed(rows[..i + 1])
  {
    forall y | y in acc ensures y.timestamp <= rows[i].timestamp {
      assert y in multiset(rows[..i]);
      var j :| 0 <= j < i && rows[j] == y;
    }
    assert rows[..i + 1][..i] == rows[..i];
  }

  lemma TailNewestFirst(s: seq<Row>)
    requires NewestFirst(s) && s != []
    ensures NewestFirst(s[1..])
  {
  }

  /** Every row of `rest`, which holds the tail of `sorted` and a row younger
      than its head, is no younger than that head. */
  lemma BoundedByHead(sorted: seq<Row>, x: Row, rest: seq<Row>)
    requires NewestFirst(sorted) && sorted != [] && x.timestamp < sorted[0].timestamp
    requires multiset(rest) == multiset(sorted[1..]) + multiset{x}
    ensures forall k :: 0 <= k < |rest| ==> rest[k].timestamp <= sorted[0].timestamp
  {
    forall k | 0 <= k < |rest| ensures rest[k].timestamp <= sorted[0].timestamp {
      assert rest[k] in multiset(rest);
      if rest[k] != x {
        assert rest[k] in multiset(sorted[1..]);
        var j :| 0 <= j < |sorted[1..]| && sorted[1..][j] == rest[k];
        assert sorted[j + 1] == rest[k];
      }
    }
  }

  lemma ConsNewestFirst(head: Row, tail: seq<Row>)
    requires NewestFirst(tail)
    requires forall k :: 0 <= k < |tail| ==> tail[k].timestamp <= head.timestamp
    ensures NewestFirst([head] + tail)
  {
  }

  /** The `contacts` table and the server's connection to it. */
  class ContactsTable {
    var rows: seq<Row>    // in insertion order
    var nextId: int       // the AUTO_INCREMENT counter
    var connected: bool   // `db` is set

    /** Ids are positive, below the counter, and increase with insertion order,
        so no two rows share one. */
    ghost predicate Valid()
      reads this
    {
      && nextId >= 1
      && (forall k :: 0 <= k < |rows| ==> 1 <= rows[k].id < nextId)
      && (forall a, b :: 0 <= a < b < |rows| ==> rows[a].id < rows[b].id)
    }

    /** An empty table, reachable or not. */
    constructor (connected: bool)
      ensures Valid()
      ensures rows == [] && nextId == 1 && this.connected == connected
    {
      rows := [];
      nextId := 1;
      this.connected := connected;
    }

    /** `POST /api/contact`. The checks run in a fixed order (connection,
        presence, e-mail) and only a submission passing all of them reaches
        the insert. The row is stored before the notification runs, so a
        transport that throws turns a stored message into a 500. */
    method Create(s: Submission, dbNow: nat, jsNow: nat, insertError: Option<string>, relay: Relay)
      returns (reply: Reply)
      requires Valid()
      modifies this
      ensures Valid() && connected == old(connected)
      ensures !old(connected) ==>
        reply == Failed(500, CreateDisconnected) && rows == old(rows) && nextId == old(nextId)
      ensures old(connected) && !AllPresent(s) ==>
        reply == Failed(400, FieldsRequired) && rows == old(rows) && nextId == old(nextId)
      ensures old(connected) && AllPresent(s) && !IsValidEmail(s.email) ==>
        reply == Failed(400, InvalidEmail) && rows == old(rows) && nextId == old(nextId)
      ensures old(connected) && Admissible(s) && insertError.Some? ==>
        reply == ErrorReply(insertError.value) && rows == old(rows) && nextId == old(nextId)
      ensures old(connected) && Admissible(s) && insertError.None? ==>
        && rows == old(rows) + [Row(old(nextId), s.name, s.email, s.subject, s.message, dbNow, false)]
        && (forall k :: 0 <= k < |old(rows)| ==> old(rows)[k].id < old(nextId))
        && nextId == old(nextId) + 1
        && reply == if relay.Threw? then ErrorReply(relay.code) else Created(SentMessage, old(nextId), jsNow)
      ensures reply.Success() ==> reply == Created(SentMessage, old(nextId), jsNow) && |rows| == |old(rows)| + 1
    {
      if !connected {
        reply := Failed(500, CreateDisconnected);
        return;
      }
      if !AllPresent(s) {
        reply := Failed(400, FieldsRequired);
        return;
      }
      if !IsValidEmail(s.email) {
        reply := Failed(400, InvalidEmail);
        return;
      }
      if insertError.Some? {
        reply := ErrorReply(insertError.value);
        return;
      }
      var id := nextId;
      rows := rows + [Row(id, s.name, s.email, s.subject, s.message, dbNow, false)];
      nextId := nextId + 1;
      if relay.Threw? {
        reply := ErrorReply(relay.code);
        return;
      }
      reply := Created(SentMessage, id, jsNow);
    }

    /** `GET /api/messages`: every row, newest first, the table untouched.
        Rows with equal timestamps may come in either order; when each row is
        younger than the ones stored before it, the list is the table reversed. */
    method List(fails: bool) returns (reply: Reply)
      requires Valid()
      ensures !connected ==> reply == Failed(500, Disconnected)
      ensures connected && fails ==> reply == Failed(500, FetchFailed)
      ensures connected && !fails ==>
        && reply.Listed?
        && NewestFirst(reply.rows)
        && multiset(reply.rows) == multiset(rows)
        && (StrictlyOldestFirst(rows) ==> reply.rows == Reversed(rows))
    {
      if !connected {
        return Failed(500, Disconnected);
      }
      if fails {
        return Failed(500, FetchFailed);
      }
      var acc: seq<Row> := [];
      var i := 0;
      while i < |rows|
        invariant 0 <= i <= |rows|
        invariant NewestFirst(acc)
        invariant multiset(acc) == multiset(rows[..i])
        invariant StrictlyOldestFirst(rows) ==> acc == Reversed(rows[..i])
      {
        assert rows[..i + 1] == rows[..i] + [rows[i]];
        if StrictlyOldestFirst(rows) {
          InsertYoungest(rows, i, acc);
        }
        acc := InsertNewestFirst(acc, rows[i]);
        i := i + 1;
      }
      assert rows[..i] == rows;
      reply := Listed(acc);
    }

    /** `WHERE id = ?`: the position of the row with that id, or -1. */
    method FindRow(id: int) returns (k: int)
      ensures -1 <= k < |rows|
      ensures k >= 0 ==> rows[k].id == id
      ensures k < 0 <==> !HasId(rows, id)
    {
      k := 0;
      while k < |rows|
        invariant 0 <= k <= |rows|
        invariant forall m :: 0 <= m < k ==> rows[m].id != id
      {
        if rows[k].id == id {
          return;
        }
        k := k + 1;
      }
      k := -1;
    }

    /** `PUT /api/messages/:id/read`. An id with no row gives 404 and no change;
        otherwise that row, and no other, is marked read and returned. The 404
        test is `affectedRows === 0`, which counts matched rows under the MySQL
        driver's default found-rows flag, so marking a read row again succeeds. */
    method MarkRead(id: int, fault: MarkFault) returns (reply: Reply)
      requires Valid()
      modifies this
      ensures Valid() && nextId == old(nextId) && connected == old(connected)
      ensures !old(connected) ==> reply == Failed(500, Disconnected) && rows == old(rows)
      ensures old(connected) && fault == UpdateFails ==>
        reply == Failed(500, UpdateFailed) && rows == old(rows)
      ensures old(connected) && fault != UpdateFails && !HasId(old(rows), id) ==>
        reply == Failed(404, NotFound) && rows == old(rows)
      ensures old(connected) && fault != UpdateFails && HasId(old(rows), id) ==>
        && rows == SetReadWhere(old(rows), id)
        && (fault == SelectFails ==> reply == Failed(500, UpdateFailed))
        && (fault == NoFault ==>
              exists k :: 0 <= k < |old(rows)| && old(rows)[k].id == id
                && reply == Updated(old(rows)[k].(isRead := true)))
    {
      if !connected {
        return Failed(500, Disconnected);
      }
      if fault == UpdateFails {
        return Failed(500, UpdateFailed);
      }
      var k := FindRow(id);
      if k < 0 {
        return Failed(404, NotFound);
      }
      SetReadWhereUniqueId(rows, k);
      rows := rows[k := rows[k].(isRead := true)];
      if fault == SelectFails {
        return Failed(500, UpdateFailed);
      }
      reply := Updated(rows[k]);
    }
  }

  /** Three messages stored one after another come back newest first. */
  method ListWalkthrough(a: Submission, b: Submission, c: Submission)
    requires Admissible(a) && Admissible(b) && Admissible(c)
  {
    var table := new ContactsTable(true);
    var ra := table.Create(a, 10, 10, None, Off);
    var rb := table.Create(b, 20, 20, None, SendFailed);
    var rc := table.Create(c, 30, 30, None, Sent);
    assert ra == Created(SentMessage, 1, 10) && rb == Created(SentMessage, 2, 20);
    assert rc == Created(SentMessage, 3, 30);
    var rows := table.rows;
    assert |rows| == 3 && rows[0].timestamp == 10 && rows[1].timestamp == 20 && rows[2].timestamp == 30;
    assert rows[..2][..1] == [rows[0]] && rows[..2][1] == rows[1];
    assert Reversed([rows[0]]) == [rows[0]];
    assert Reversed(rows[..2]) == [rows[1], rows[0]];
    assert Reversed(rows) == [rows[2], rows[1], rows[0]];
    var listed := table.List(false);
    assert listed.rows == [rows[2], rows[1], rows[0]];
  }

  /** On any connected table holding a row with the id, running the handler
      a second time leaves the rows as the first run did and answers the same. */
  method MarkReadTwice(table: ContactsTable, id: int) returns (first: Reply, second: Reply)
    requires table.Valid() && table.connected && HasId(table.rows, id)
    modifies table
    ensures table.Valid() && table.rows == SetReadWhere(old(table.rows), id)
    ensures first.Updated? && first.row.id == id && first.row.isRead
    ensures second == first
  {
    ghost var rows0 := table.rows;
    first := table.MarkRead(id, NoFault);
    ghost var k :| 0 <= k < |rows0| && rows0[k].id == id && first == Updated(rows0[k].(isRead := true));
    ghost var rows1 := table.rows;
    assert rows1[k] == rows0[k].(isRead := true);
    assert HasId(rows1, id);
    second := table.MarkRead(id, NoFault);
    SetReadWhereIdempotent(rows0, id);
    ghost var m :| 0 <= m < |rows1| && rows1[m].id == id && second == Updated(rows1[m].(isRead := true));
  }
}
