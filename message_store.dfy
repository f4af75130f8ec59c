/**
 * The message table and its data-access object: insert, lookups, a
 * fetch-then-delete and an update of the text column followed by a re-read.
 * The store's auto-increment column is the counter `nextId`.
 */
module MessageStore {
  import opened Model

  /** Every element of `list` is the row stored under its own id. */
  ghost predicate AllStored(list: seq<Message>, rows: map<int, Message>) {
    forall i :: 0 <= i < |list| ==> list[i].messageId in rows && rows[list[i].messageId] == list[i]
  }

  /** No row appears twice in `list`. */
  ghost predicate DistinctIds(list: seq<Message>) {
    forall i, j :: 0 <= i < j < |list| ==> list[i].messageId != list[j].messageId
  }

  /** A non-empty set of keys has a member to pick. */
  lemma NonEmptyHasKey(keys: set<int>)
    requires keys != {}
    ensures exists id :: id in keys
  {
    // Naming the empty case is enough for the solver to see it is excluded.
    if forall id :: id !in keys { }
  }

  class MessageDAO {
    var rows: map<int, Message>
    var nextId: int

    /** Ids are positive, below the next id to hand out, and each row carries its key. */
    ghost predicate Valid()
      reads this
    {
      1 <= nextId && forall id :: id in rows ==> 1 <= id < nextId && rows[id].messageId == id
    }

    constructor ()
      ensures Valid() && rows == map[] && nextId == 1
    {
      rows := map[];
      nextId := 1;
    }

    /** `INSERT INTO message (posted_by, message_text, time_posted_epoch)`: the
        new row carries the caller's fields and the next generated key, and no
        other row changes. */
    method CreateMessage(postedBy: int, text: string, timePostedEpoch: int) returns (created: Message)
      requires Valid()
      modifies this
      ensures Valid()
      ensures created == Message(old(nextId), postedBy, text, timePostedEpoch)
      ensures created.messageId !in old(rows)
      ensures rows == old(rows)[created.messageId := created]
      ensures nextId > old(nextId)
      ensures GetMessageById(created.messageId) == Some(created)
    {
      var generatedId := nextId;
      rows := rows[generatedId := Message(generatedId, postedBy, text, timePostedEpoch)];
      nextId := nextId + 1;
      created := Message(generatedId, postedBy, text, timePostedEpoch);
    }

    /** `SELECT * FROM message`: one element per stored row, every row covered.
        The order is whatever the scan yields; no order is promised. */
    method GetAllMessages() returns (messages: seq<Message>)
      requires Valid()
      ensures AllStored(messages, rows) && DistinctIds(messages)
      ensures forall id :: id in rows ==> rows[id] in messages
      ensures |messages| == |rows|
    {
      messages := [];
      var unread := rows.Keys;
      while unread != {}
        invariant unread <= rows.Keys
        invariant AllStored(messages, rows) && DistinctIds(messages)
        invariant forall i :: 0 <= i < |messages| ==> messages[i].messageId !in unread
        invariant forall id :: id in rows && id !in unread ==> rows[id] in messages
        invariant |messages| + |unread| == |rows|
        decreases unread
      {
        NonEmptyHasKey(unread);
        var id :| id in unread;
        messages := messages + [rows[id]];
        unread := unread - {id};
      }
    }

    /** `SELECT * FROM message WHERE message_id = ?`, the row or null. */
    function GetMessageById(messageId: int): (r: Option<Message>)
      reads this
      requires Valid()
      ensures r.Some? <==> messageId in rows
      ensures r.Some? ==> r.value.messageId == messageId && r.value in rows.Values
    {
      if messageId in rows then Some(rows[messageId]) else None
    }

    /** Fetch the row, then delete it only if it was found: the result is the
        row as it was, and afterwards no row has that id. */
    method DeleteMessageById(messageId: int) returns (deleted: Option<Message>)
      requires Valid()
      modifies this
      ensures Valid()
      ensures deleted == old(GetMessageById(messageId))
      ensures rows == old(rows) - {messageId} && nextId == old(nextId)
      ensures deleted.None? ==> unchanged(this)
      ensures GetMessageById(messageId).None?
    {
      deleted := GetMessageById(messageId);
      if deleted.Some? {
        rows := rows - {messageId};
      }
    }

    /** `UPDATE message SET message_text = ? WHERE message_id = ?`, then a
        re-read when a row was affected: only that row's text changes. */
    method UpdateMessage(messageId: int, newText: string) returns (updated: Option<Message>)
      requires Valid()
      modifies this
      ensures Valid() && nextId == old(nextId)
      ensures messageId in old(rows) ==>
                && updated == Some(old(rows)[messageId].(text := newText))
                && rows == old(rows)[messageId := updated.value]
      ensures messageId !in old(rows) ==> updated.None? && unchanged(this)
      ensures updated.Some? ==> GetMessageById(messageId) == updated
    {
      var rowsAffected := if messageId in rows then 1 else 0;
      if messageId in rows {
        rows := rows[messageId := rows[messageId].(text := newText)];
      }
      updated := None;
      if rowsAffected > 0 {
        updated := GetMessageById(messageId);
      }
    }

    /** `SELECT * FROM message WHERE posted_by = ?`: exactly the rows posted by
        that account, each once, in whatever order the scan yields. */
    method GetMessagesByAccountId(accountId: int) returns (messages: seq<Message>)
      requires Valid()
      ensures AllStored(messages, rows) && DistinctIds(messages)
      ensures forall i :: 0 <= i < |messages| ==> messages[i].postedBy == accountId
      ensures forall id :: id in rows && rows[id].postedBy == accountId ==> rows[id] in messages
      ensures (forall id :: id in rows ==> rows[id].postedBy != accountId) ==> messages == []
    {
      messages := [];
      var unread := rows.Keys;
      while unread != {}
        invariant unread <= rows.Keys
        invariant AllStored(messages, rows) && DistinctIds(messages)
        invariant forall i :: 0 <= i < |messages| ==> messages[i].postedBy == accountId
        invariant forall i :: 0 <= i < |messages| ==> messages[i].messageId !in unread
        invariant forall id :: id in rows && id !in unread && rows[id].postedBy == accountId ==> rows[id] in messages
        decreases unread
      {
        NonEmptyHasKey(unread);
        var id :| id in unread;
        if rows[id].postedBy == accountId {
          messages := messages + [rows[id]];
        }
        unread := unread - {id};
      }
      if messages != [] {
        assert rows[messages[0].messageId].postedBy == accountId;
      }
    }
  }
}
