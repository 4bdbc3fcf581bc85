/** How the unread counter of the conversation list reacts to the message
    operations: sending, soft delete, reacting and marking as read, and the
    first-contact walk-through that ties them together. */
module Unread {
  import opened Wrappers
  import opened Schema
  import Seqs
  import opened Conversations
  import opened Messages

  /** Sending a message raises the counter of exactly one conversation, and
      only for readers other than the sender whose last read lies before the
      message. */
  lemma UnreadCountAfterSend(s: Store, identity: Option<string>, c: ConvId, body: string, now: Time,
                             d: ConvId, reader: UserId)
    requires SendMessage(s, identity, c, body, now).Ok?
    ensures var t := SendMessage(s, identity, c, body, now).value.0;
            var sender := CurrentUser(s, identity).value;
            UnreadCount(t, d, reader) ==
              UnreadCount(s, d, reader) +
              (if d == c && sender != reader && now > LastReadTime(s, d, reader) then 1 else 0)
  {
    var t := SendMessage(s, identity, c, body, now).value.0;
    var sender := CurrentUser(s, identity).value;
    var msg := Message(c, sender, body, now, None, Some([]));
    assert LastReadTime(t, d, reader) == LastReadTime(s, d, reader);
    Seqs.CountSnoc(s.messages, msg, IsUnread(d, reader, LastReadTime(s, d, reader)));
  }

  /** A soft-deleted message still counts as unread: deleting changes no
      counter. */
  lemma UnreadCountAfterDelete(s: Store, identity: Option<string>, id: MsgId, now: Time,
                               d: ConvId, reader: UserId)
    requires DeleteMessage(s, identity, id, now).Ok?
    ensures UnreadCount(DeleteMessage(s, identity, id, now).value, d, reader) == UnreadCount(s, d, reader)
  {
    var t := DeleteMessage(s, identity, id, now).value;
    var p := IsUnread(d, reader, LastReadTime(s, d, reader));
    assert LastReadTime(t, d, reader) == LastReadTime(s, d, reader);
    Seqs.CountPointwise(t.messages, s.messages, p, p);
  }

  /** Reacting to a message changes no counter. */
  lemma UnreadCountAfterToggle(s: Store, identity: Option<string>, id: MsgId, emoji: string,
                               d: ConvId, reader: UserId)
    requires ToggleReaction(s, identity, id, emoji).Ok?
    ensures UnreadCount(ToggleReaction(s, identity, id, emoji).value, d, reader) == UnreadCount(s, d, reader)
  {
    var t := ToggleReaction(s, identity, id, emoji).value;
    var p := IsUnread(d, reader, LastReadTime(s, d, reader));
    assert LastReadTime(t, d, reader) == LastReadTime(s, d, reader);
    Seqs.CountPointwise(t.messages, s.messages, p, p);
  }

  /** A conversation nobody has written to yet has no unread messages. */
  lemma NoMessagesNoUnread(s: Store, c: ConvId, reader: UserId)
    requires forall j :: 0 <= j < |s.messages| ==> s.messages[j].conversationId != c
    ensures UnreadCount(s, c, reader) == 0
  {
    Seqs.FilterNone(s.messages, IsUnread(c, reader, LastReadTime(s, c, reader)));
  }

  /** The first message of a conversation: the preview and time are the
      message's, and the recipient, whose last read lies before it, has one
      unread message while the sender has none. */
  lemma FirstMessage(s: Store, idA: Option<string>, a: UserId, b: UserId, c: ConvId, body: string, now: Time)
    requires CurrentUser(s, idA) == Some(a) && a != b && c < |s.conversations|
    requires forall j :: 0 <= j < |s.messages| ==> s.messages[j].conversationId != c
    requires LastReadTime(s, c, b) < now
    ensures SendMessage(s, idA, c, body, now).Ok?
    ensures var t := SendMessage(s, idA, c, body, now).value.0;
            && t.conversations[c].lastMessagePreview == Some(Preview(body))
            && t.conversations[c].lastMessageTime == now
            && UnreadCount(t, c, b) == 1
            && UnreadCount(t, c, a) == 0
  {
    NoMessagesNoUnread(s, c, a);
    NoMessagesNoUnread(s, c, b);
    UnreadCountAfterSend(s, idA, c, body, now, c, b);
    UnreadCountAfterSend(s, idA, c, body, now, c, a);
  }

  /** A last read time is one of the recorded read times, or 0. */
  lemma LastReadTimeBelow(s: Store, c: ConvId, u: UserId, bound: Time)
    requires 0 < bound
    requires forall j :: 0 <= j < |s.readMarkers| ==> s.readMarkers[j].lastReadTime < bound
    ensures LastReadTime(s, c, u) < bound
  {
    match Seqs.FindFirst(s.readMarkers, IsReadOf(c, u))
    case None =>
    case Some(k) => assert s.readMarkers[k].lastReadTime < bound;
  }

  /** Opening a conversation with someone the caller has none with appends
      it at the end of the table. */
  lemma OpenFresh(s: Store, idA: Option<string>, a: UserId, b: UserId, now: Time)
    requires CurrentUser(s, idA) == Some(a)
    requires forall j :: 0 <= j < |s.conversations| ==> !IsPairOf(a, b)(s.conversations[j])
    ensures GetOrCreateConversation(s, idA, b, now) ==
      Ok((s.(conversations := s.conversations + [Conversation([a, b], now, None)]), |s.conversations|))
  {
  }

  /** The send-and-read half of the first contact, on the store right
      after the conversation was opened. */
  lemma SendThenRead(s: Store, idA: Option<string>, idB: Option<string>, a: UserId, b: UserId, c: ConvId,
                     t2: Time, t3: Time)
    requires CurrentUser(s, idA) == Some(a) && CurrentUser(s, idB) == Some(b) && a != b
    requires c < |s.conversations|
    requires forall j :: 0 <= j < |s.messages| ==> s.messages[j].conversationId != c
    requires forall j :: 0 <= j < |s.readMarkers| ==> s.readMarkers[j].lastReadTime < t2
    requires forall j :: 0 <= j < |s.messages| ==> s.messages[j].creationTime <= t3
    requires 0 < t2 <= t3
    ensures SendMessage(s, idA, c, "hi", t2).Ok?
    ensures var s2 := SendMessage(s, idA, c, "hi", t2).value.0;
            && s2.conversations[c].lastMessagePreview == Some("hi")
            && s2.conversations[c].lastMessageTime == t2
            && UnreadCount(s2, c, b) == 1
            && UnreadCount(s2, c, a) == 0
            && UnreadCount(MarkAsRead(s2, idB, c, t3), c, b) == 0
  {
    LastReadTimeBelow(s, c, b, t2);
    FirstMessage(s, idA, a, b, c, "hi", t2);
    assert Preview("hi") == "hi";
    SendMessageIsSent(s, idA, c, "hi", t2);
    ReadAfterSent(s, idB, a, b, c, "hi", t2, t3);
  }

  /** Reading a conversation right after a send, at a time not before any
      message, clears the reader's counter. */
  lemma ReadAfterSent(s: Store, idB: Option<string>, a: UserId, b: UserId, c: ConvId, body: string,
                      t2: Time, t3: Time)
    requires CurrentUser(s, idB) == Some(b) && c < |s.conversations|
    requires forall j :: 0 <= j < |s.messages| ==> s.messages[j].creationTime <= t3
    requires t2 <= t3
    ensures UnreadCount(MarkAsRead(Sent(s, c, a, body, t2), idB, c, t3), c, b) == 0
  {
    var s2 := Sent(s, c, a, body, t2);
    assert CurrentUser(s2, idB) == CurrentUser(s, idB) by {
      assert s2.users == s.users;
    }
    assert s2.messages == s.messages + [Message(c, a, body, t2, None, Some([]))];
    assert forall j :: 0 <= j < |s2.messages| ==> s2.messages[j].creationTime <= t3;
    UnreadAfterMarkAsRead(s2, idB, c, t3);
  }

  /** A opens a conversation with B, sends "hi", and B opens it. The new
      conversation shows the preview "hi" and one unread message for B,
      none for A, and none for B once B has read it. The clock only moves
      forward and starts after the epoch: every earlier read and message
      lies before the send and the read. */
  lemma FirstContact(s: Store, idA: Option<string>, idB: Option<string>, a: UserId, b: UserId,
                     t1: Time, t2: Time, t3: Time)
    requires MessagesReferToDocuments(s)
    requires CurrentUser(s, idA) == Some(a) && CurrentUser(s, idB) == Some(b) && a != b
    requires forall j :: 0 <= j < |s.conversations| ==> !IsPairOf(a, b)(s.conversations[j])
    requires forall j :: 0 <= j < |s.readMarkers| ==> s.readMarkers[j].lastReadTime < t2
    requires forall j :: 0 <= j < |s.messages| ==> s.messages[j].creationTime <= t3
    requires 0 < t1 <= t2 <= t3
    ensures GetOrCreateConversation(s, idA, b, t1).Ok?
    ensures var (s1, c) := GetOrCreateConversation(s, idA, b, t1).value;
            && c == |s.conversations|
            && s1.conversations[c].participantIds == [a, b]
            && SendMessage(s1, idA, c, "hi", t2).Ok?
            && var s2 := SendMessage(s1, idA, c, "hi", t2).value.0;
               && s2.conversations[c].lastMessagePreview == Some("hi")
               && s2.conversations[c].lastMessageTime == t2
               && UnreadCount(s2, c, b) == 1
               && UnreadCount(s2, c, a) == 0
               && UnreadCount(MarkAsRead(s2, idB, c, t3), c, b) == 0
  {
    var c := |s.conversations|;
    var s1 := s.(conversations := s.conversations + [Conversation([a, b], t1, None)]);
    OpenFresh(s, idA, a, b, t1);
    forall j | 0 <= j < |s1.messages| ensures s1.messages[j].conversationId != c {
      assert s.messages[j].conversationId < |s.conversations|;
    }
    SendThenRead(s1, idA, idB, a, b, c, t2, t3);
  }
}
