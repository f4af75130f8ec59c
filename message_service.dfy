/**
 * Message creation, update and the pass-through reads and delete. Creation
 * checks the text and that the author is a stored account; update checks the
 * text only. The two length bounds differ: creation refuses a text longer
 * than 255 code units, update refuses one of 255 or more.
 */
module MessageServices {
  import opened Model
  import opened JavaString
  import opened AccountStore
  import opened MessageStore

  /** The text rule of `createMessage`: non-null, non-blank, at most 255 long. */
  predicate TextAcceptedOnCreate(text: Option<string>) {
    text.Some? && !IsBlank(text.value) && Utf16Length(text.value) <= 255
  }

  /** The text rule of `updateMessage`: non-null, non-blank, shorter than 255. */
  predicate TextAcceptedOnUpdate(text: Option<string>) {
    text.Some? && !IsBlank(text.value) && Utf16Length(text.value) < 255
  }

  /** The invariant the service keeps over the message table: every stored
      text passes the creation rule and every author is a stored account. */
  ghost predicate MessagesWellFormed(messages: map<int, Message>, accounts: map<int, Account>) {
    forall id :: id in messages ==> TextAcceptedOnCreate(Some(messages[id].text)) && messages[id].postedBy in accounts
  }

  class MessageService {
    const messages: MessageDAO
    const accounts: AccountDAO

    constructor (messages: MessageDAO, accounts: AccountDAO)
      ensures this.messages == messages && this.accounts == accounts
    {
      this.messages := messages;
      this.accounts := accounts;
    }

    /** Create a message. A text that breaks the creation rule, or an author
        that is not a stored account, yields null and inserts nothing;
        otherwise exactly one row with the caller's fields and a fresh id is
        added. */
    method CreateMessage(form: MessageForm) returns (r: Option<Message>)
      requires messages.Valid() && accounts.Valid()
      modifies messages
      ensures messages.Valid()
      ensures !TextAcceptedOnCreate(form.text) || !accounts.IsAccountExist(form.postedBy) ==>
                r.None? && unchanged(messages)
      ensures TextAcceptedOnCreate(form.text) && accounts.IsAccountExist(form.postedBy) ==>
                && r == Some(Message(old(messages.nextId), form.postedBy, form.text.value, form.timePostedEpoch))
                && old(messages.nextId) !in old(messages.rows)
                && messages.rows == old(messages.rows)[r.value.messageId := r.value]
      ensures MessagesWellFormed(old(messages.rows), accounts.rows) ==> MessagesWellFormed(messages.rows, accounts.rows)
    {
      if form.text.None? || IsBlank(form.text.value) || Utf16Length(form.text.value) > 255
         || accounts.GetAccountById(form.postedBy).None?
      {
        return None;
      }
      if !accounts.IsAccountExist(form.postedBy) {
        return None;
      }
      var created := messages.CreateMessage(form.postedBy, form.text.value, form.timePostedEpoch);
      r := Some(created);
    }

    /** Delegates to the store: every stored message, each once. */
    method GetAllMessages() returns (all: seq<Message>)
      requires messages.Valid()
      ensures AllStored(all, messages.rows) && DistinctIds(all)
      ensures forall id :: id in messages.rows ==> messages.rows[id] in all
      ensures |all| == |messages.rows|
    {
      all := messages.GetAllMessages();
    }

    /** Delegates to the store: the message with this id, or null. */
    function GetMessageById(messageId: int): (r: Option<Message>)
      reads messages
      requires messages.Valid()
      ensures r.Some? <==> messageId in messages.rows
      ensures r.Some? ==> r.value.messageId == messageId && r.value in messages.rows.Values
    {
      messages.GetMessageById(messageId)
    }

    /** Delegates to the store without checking that the account exists: under
        the service's invariant an unknown account simply has no messages. */
    method GetMessagesByAccountId(accountId: int) returns (posted: seq<Message>)
      requires messages.Valid()
      ensures AllStored(posted, messages.rows) && DistinctIds(posted)
      ensures forall i :: 0 <= i < |posted| ==> posted[i].postedBy == accountId
      ensures forall id :: id in messages.rows && messages.rows[id].postedBy == accountId ==> messages.rows[id] in posted
      ensures MessagesWellFormed(messages.rows, accounts.rows) && accountId !in accounts.rows ==> posted == []
    {
      posted := messages.GetMessagesByAccountId(accountId);
    }

    /** Delegates to the store: returns the row as it was and removes it, or
        null and no change when there is no such row. */
    method DeleteMessageById(messageId: int) returns (deleted: Option<Message>)
      requires messages.Valid()
      modifies messages
      ensures messages.Valid()
      ensures deleted == old(GetMessageById(messageId))
      ensures messages.rows == old(messages.rows) - {messageId} && messages.nextId == old(messages.nextId)
      ensures deleted.None? ==> unchanged(messages)
      ensures GetMessageById(messageId).None?
      ensures MessagesWellFormed(old(messages.rows), accounts.rows) ==> MessagesWellFormed(messages.rows, accounts.rows)
    {
      deleted := messages.DeleteMessageById(messageId);
    }

    /** Update the text. A text that breaks the update rule yields null and
        changes nothing; otherwise this is the store's update: only that row's
        text changes, and a missing id yields null. */
    method UpdateMessage(messageId: int, newText: Option<string>) returns (r: Option<Message>)
      requires messages.Valid()
      modifies messages
      ensures messages.Valid() && messages.nextId == old(messages.nextId)
      ensures !TextAcceptedOnUpdate(newText) ==> r.None? && unchanged(messages)
      ensures TextAcceptedOnUpdate(newText) && messageId in old(messages.rows) ==>
                && r == Some(old(messages.rows)[messageId].(text := newText.value))
                && messages.rows == old(messages.rows)[messageId := r.value]
      ensures TextAcceptedOnUpdate(newText) && messageId !in old(messages.rows) ==>
                r.None? && unchanged(messages)
      ensures MessagesWellFormed(old(messages.rows), accounts.rows) ==> MessagesWellFormed(messages.rows, accounts.rows)
    {
      if newText.None? || IsBlank(newText.value) || Utf16Length(newText.value) >= 255 {
        return None;
      }
      r := messages.UpdateMessage(messageId, newText.value);
    }
  }

  /** Every text accepted by update is accepted by creation, and its Java
      length lies in [1, 254]. */
  lemma UpdateTextWithinCreateRule(text: Option<string>)
    requires TextAcceptedOnUpdate(text)
    ensures TextAcceptedOnCreate(text)
    ensures 1 <= |text.value| <= Utf16Length(text.value) <= 254
  {
  }

  /** Every text accepted by creation has Java length in [1, 255]. */
  lemma CreateTextLength(text: Option<string>)
    requires TextAcceptedOnCreate(text)
    ensures 1 <= |text.value| <= Utf16Length(text.value) <= 255
  {
  }

  /** The two rules disagree exactly on the non-blank texts whose Java length
      is 255: creation accepts them and update refuses them. */
  lemma BoundaryIff(text: Option<string>)
    ensures (TextAcceptedOnCreate(text) && !TextAcceptedOnUpdate(text))
            <==> (text.Some? && !IsBlank(text.value) && Utf16Length(text.value) == 255)
  {
  }

  /** A corollary of `BoundaryIff`: a non-blank text of 255 characters from the
      Basic Multilingual Plane is accepted by creation and refused by update. */
  lemma BoundaryAt255(s: string)
    requires |s| == 255 && !IsBlank(s)
    requires forall i :: 0 <= i < |s| ==> s[i] as int < 0x1_0000
    ensures TextAcceptedOnCreate(Some(s)) && !TextAcceptedOnUpdate(Some(s))
  {
    Utf16LengthOfBmp(s);
    BoundaryIff(Some(s));
  }
}
