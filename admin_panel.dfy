/** The admin panel's list of messages: after `PUT /api/messages/:id/read`
    answers, `markAsRead` maps over the list it holds and marks the entry with
    that id read. */
module AdminPanel {
  import opened ContactRecord

  /** The list `markAsRead` leaves: rewritten when the server reported
      success, the same list otherwise. */
  function MarkAsRead(messages: seq<Row>, messageId: int, success: bool): (r: seq<Row>)
    ensures !success ==> r == messages
    ensures |r| == |messages| && Ids(r) == Ids(messages)
    ensures forall k :: 0 <= k < |r| ==>
      (r[k].isRead <==> messages[k].isRead || (success && messages[k].id == messageId))
    ensures forall k :: 0 <= k < |r| ==> r[k].(isRead := messages[k].isRead) == messages[k]
  {
    if success then
      SetReadWhereChangesOnlyIsRead(messages, messageId);
      SetReadWhere(messages, messageId)
    else
      messages
  }

  /** A second successful update for the same id leaves the list as the first did. */
  lemma MarkAsReadTwice(messages: seq<Row>, messageId: int)
    ensures MarkAsRead(MarkAsRead(messages, messageId, true), messageId, true)
         == MarkAsRead(messages, messageId, true)
  {
  }

  /** A list holding the table's rows in any order still holds them, as
      updated on the server, after the local update. */
  lemma LocalListStaysInStep(messages: seq<Row>, tableRows: seq<Row>, messageId: int)
    requires multiset(messages) == multiset(tableRows)
    ensures multiset(MarkAsRead(messages, messageId, true)) == multiset(SetReadWhere(tableRows, messageId))
  {
    SetReadWhereMultiset(messages, tableRows, messageId);
  }
}
