/** The message log: listing (`getMessages`), sending (`sendMessage`), owner-only
    soft delete (`deleteMessage`) and the emoji reaction toggle (`toggleReaction`). */
module Messages {
  import opened Wrappers
  import opened Schema
  import Seqs
  import Typing

  /** How many characters of a message the conversation preview keeps. */
  const PreviewLength: nat := 50

  /** `body.slice(0, 50)`: the preview is a prefix of the body, at most 50 long. */
  function Preview(body: string): (r: string)
    ensures r <= body
    ensures |r| == if |body| <= PreviewLength then |body| else PreviewLength
  {
    if |body| <= PreviewLength then body else body[..PreviewLength]
  }

  // ---------------------------------------------------------------------------
  // Listing

  /** A message together with its sender's user record. */
  datatype MessageView = MessageView(id: MsgId, message: Message, sender: Option<User>)

  /** The ids of the messages of conversation `c` at positions `from` and
      later, in table order. */
  function MessageIdsFrom(msgs: seq<Message>, c: ConvId, from: nat): (r: seq<MsgId>)
    requires from <= |msgs|
    decreases |msgs| - from
    ensures forall k :: 0 <= k < |r| ==> from <= r[k] < |msgs| && msgs[r[k]].conversationId == c
    ensures forall j, k :: 0 <= j < k < |r| ==> r[j] < r[k]
    ensures forall i :: from <= i < |msgs| && msgs[i].conversationId == c ==> i in r
  {
    if from == |msgs| then []
    else
      var rest := MessageIdsFrom(msgs, c, from + 1);
      if msgs[from].conversationId == c then [from] + rest else rest
  }

  function ViewOf(s: Store, id: MsgId): (r: MessageView)
    requires id < |s.messages|
  {
    MessageView(id, s.messages[id], GetUser(s, s.messages[id].senderId))
  }

  /** Every message of conversation `c`, soft-deleted ones included, with its
      sender, oldest first. Membership is not checked; empty without an identity. */
  function GetMessages(s: Store, identity: Option<string>, c: ConvId): (r: seq<MessageView>)
    ensures identity.None? ==> r == []
    ensures forall k :: 0 <= k < |r| ==>
      && r[k].id < |s.messages|
      && r[k].message == s.messages[r[k].id]
      && r[k].message.conversationId == c
      && r[k].sender == GetUser(s, r[k].message.senderId)
    ensures identity.Some? ==>
      forall i :: 0 <= i < |s.messages| && s.messages[i].conversationId == c ==>
        exists k :: 0 <= k < |r| && r[k].id == i
    ensures forall j, k :: 0 <= j < k < |r| ==> r[j].id < r[k].id
  {
    if identity.None? then []
    else
      var ids := MessageIdsFrom(s.messages, c, 0);
      var r := seq(|ids|, k requires 0 <= k < |ids| => ViewOf(s, ids[k]));
      assert forall k :: 0 <= k < |ids| ==> r[k].id == ids[k];
      r
  }

  /** Under a clock that never runs backwards, the listing is in ascending
      creation time. */
  lemma GetMessagesAscending(s: Store, identity: Option<string>, c: ConvId)
    requires Chronological(s.messages)
    ensures var r := GetMessages(s, identity, c);
            forall j, k :: 0 <= j < k < |r| ==> r[j].message.creationTime <= r[k].message.creationTime
  {
  }

  // ---------------------------------------------------------------------------
  // Sending

  /** Append a message from the caller, stamp the conversation with `now` and
      a preview of the body, and clear the caller's typing mark there. Neither
      membership nor a non-empty body is checked. */
  function SendMessage(s: Store, identity: Option<string>, c: ConvId, body: string, now: Time)
    : (r: Result<(Store, MsgId), Error>)
    ensures identity.None? ==> r == Err(Unauthenticated)
    ensures identity.Some? && CurrentUser(s, identity).None? ==> r == Err(UserNotFound)
    ensures CurrentUser(s, identity).Some? && c >= |s.conversations| ==> r == Err(DocumentNotFound)
    ensures r.Ok? <==> CurrentUser(s, identity).Some? && c < |s.conversations|
    ensures r.Ok? ==>
      var (t, id) := r.value;
      var me := CurrentUser(s, identity).value;
      && id == |s.messages|
      && t.messages == s.messages + [Message(c, me, body, now, None, Some([]))]
      && |t.conversations| == |s.conversations|
      && t.conversations[c] ==
           s.conversations[c].(lastMessageTime := now, lastMessagePreview := Some(Preview(body)))
      && (forall j :: 0 <= j < |s.conversations| && j != c ==> t.conversations[j] == s.conversations[j])
      && t.users == s.users
      && t.readMarkers == s.readMarkers
      && (forall m :: !IsMarkOf(c, me)(m) ==> multiset(t.typing)[m] == multiset(s.typing)[m])
      && (TypingUnique(s.typing) ==> forall j :: 0 <= j < |t.typing| ==> !IsMarkOf(c, me)(t.typing[j]))
  {
    if identity.None? then Err(Unauthenticated)
    else match CurrentUser(s, identity)
    case None => Err(UserNotFound)
    case Some(me) =>
      if c >= |s.conversations| then Err(DocumentNotFound)
      else
        assert TypingUnique(s.typing) ==> forall j :: 0 <= j < |Sent(s, c, me, body, now).typing| ==>
                 !IsMarkOf(c, me)(Sent(s, c, me, body, now).typing[j]) by {
          if TypingUnique(s.typing) {
            Typing.RemoveTypingMarkUnique(s.typing, c, me);
          }
        }
        Ok((Sent(s, c, me, body, now), |s.messages|))
  }

  /** A resolved caller sending to an existing conversation succeeds, with `Sent` as the new store. */
  lemma SendMessageIsSent(s: Store, identity: Option<string>, c: ConvId, body: string, now: Time)
    requires CurrentUser(s, identity).Some? && c < |s.conversations|
    ensures SendMessage(s, identity, c, body, now).Ok?
    ensures SendMessage(s, identity, c, body, now).value.0 == Sent(s, c, CurrentUser(s, identity).value, body, now)
  {
  }

  lemma SendMessagePreservesValid(s: Store, identity: Option<string>, c: ConvId, body: string, now: Time)
    requires Valid(s)
    ensures var r := SendMessage(s, identity, c, body, now);
            r.Ok? ==> Valid(r.value.0)
  {
    var r := SendMessage(s, identity, c, body, now);
    if r.Ok? {
      SentValid(s, c, CurrentUser(s, identity).value, body, now);
    }
  }

  /** The store after `me` sends `body` to the existing conversation `c`. */
  function Sent(s: Store, c: ConvId, me: UserId, body: string, now: Time): (r: Store)
    requires c < |s.conversations|
  {
    s.(messages := s.messages + [Message(c, me, body, now, None, Some([]))],
       conversations := s.conversations[c := s.conversations[c].(lastMessageTime := now,
                                                               lastMessagePreview := Some(Preview(body)))],
       typing := Typing.RemoveTypingMark(s.typing, c, me))
  }

  lemma SentValid(s: Store, c: ConvId, me: UserId, body: string, now: Time)
    requires Valid(s) && c < |s.conversations| && me < |s.users|
    ensures Valid(Sent(s, c, me, body, now))
  {
    var t := Sent(s, c, me, body, now);
    var msg := Message(c, me, body, now, None, Some([]));
    assert t.messages == s.messages + [msg];
    assert TypingUnique(t.typing) by {
      Typing.RemoveTypingMarkUnique(s.typing, c, me);
    }
    assert TwoParty(t.conversations) && PairsDistinct(t.conversations) by {
      assert forall i :: 0 <= i < |t.conversations| ==>
        t.conversations[i].participantIds == s.conversations[i].participantIds;
      forall i, j | 0 <= i < j < |t.conversations|
        ensures Pair(t.conversations[i]) != Pair(t.conversations[j])
      {
        assert Pair(t.conversations[i]) == Pair(s.conversations[i]);
        assert Pair(t.conversations[j]) == Pair(s.conversations[j]);
      }
    }
    assert MessagesReferToDocuments(t) by {
      forall i | 0 <= i < |t.messages|
        ensures t.messages[i].conversationId < |t.conversations| && t.messages[i].senderId < |t.users|
      {
        if i < |s.messages| {
          assert t.messages[i] == s.messages[i];
        }
      }
    }
    assert AllReactionsUnique(t.messages) by {
      forall i | 0 <= i < |t.messages| && t.messages[i].reactions.Some?
        ensures ReactionsUnique(t.messages[i].reactions.value)
      {
        if i < |s.messages| {
          assert t.messages[i] == s.messages[i];
        }
      }
    }
  }

  /** With a clock that has not run backwards, sending keeps the table in
      creation order. */
  lemma SendMessageKeepsChronological(s: Store, identity: Option<string>, c: ConvId, body: string, now: Time)
    requires Chronological(s.messages)
    requires forall j :: 0 <= j < |s.messages| ==> s.messages[j].creationTime <= now
    ensures var r := SendMessage(s, identity, c, body, now);
            r.Ok? ==> Chronological(r.value.0.messages)
  {
  }

  // ---------------------------------------------------------------------------
  // Soft delete

  /** Mark the caller's own message deleted at `now`, keeping its row. */
  function DeleteMessage(s: Store, identity: Option<string>, id: MsgId, now: Time): (r: Result<Store, Error>)
    ensures identity.None? ==> r == Err(Unauthenticated)
    ensures identity.Some? && id >= |s.messages| ==> r == Err(MessageNotFound)
    ensures identity.Some? && id < |s.messages| && CurrentUser(s, identity) != Some(s.messages[id].senderId) ==>
      r == Err(NotOwnMessage)
    ensures r.Ok? <==> id < |s.messages| && CurrentUser(s, identity) == Some(s.messages[id].senderId)
    ensures r.Ok? ==>
      && r.value == s.(messages := r.value.messages)
      && |r.value.messages| == |s.messages|
      && r.value.messages[id] == s.messages[id].(deletedAt := Some(now))
      && forall j :: 0 <= j < |s.messages| && j != id ==> r.value.messages[j] == s.messages[j]
  {
    if identity.None? then Err(Unauthenticated)
    else if id >= |s.messages| then Err(MessageNotFound)
    else if CurrentUser(s, identity) != Some(s.messages[id].senderId) then Err(NotOwnMessage)
    else Ok(s.(messages := s.messages[id := s.messages[id].(deletedAt := Some(now))]))
  }

  /** Soft delete keeps every message where it was: the listing of any
      conversation shows the same messages in the same order, with the same
      sender, body and reactions; only the deleted one gains `deletedAt`. */
  lemma DeleteKeepsListing(s: Store, identity: Option<string>, id: MsgId, now: Time,
                           reader: Option<string>, c: ConvId)
    requires DeleteMessage(s, identity, id, now).Ok?
    ensures var t := DeleteMessage(s, identity, id, now).value;
            var before := GetMessages(s, reader, c);
            var after := GetMessages(t, reader, c);
            && |after| == |before|
            && forall k :: 0 <= k < |before| ==>
                 && after[k].id == before[k].id
                 && after[k].sender == before[k].sender
                 && after[k].message.senderId == before[k].message.senderId
                 && after[k].message.body == before[k].message.body
                 && after[k].message.reactions == before[k].message.reactions
                 && after[k].message.creationTime == before[k].message.creationTime
                 && (after[k].id != id ==> after[k].message == before[k].message)
  {
    var t := DeleteMessage(s, identity, id, now).value;
    assert forall j :: 0 <= j < |s.messages| ==> t.messages[j].conversationId == s.messages[j].conversationId;
    MessageIdsSameConversations(s.messages, t.messages, c, 0);
  }

  /** Which messages a conversation lists depends only on which conversation
      each message belongs to. */
  lemma {:induction false} MessageIdsSameConversations(a: seq<Message>, b: seq<Message>, c: ConvId, from: nat)
    requires |a| == |b| && from <= |a|
    requires forall j :: 0 <= j < |a| ==> a[j].conversationId == b[j].conversationId
    decreases |a| - from
    ensures MessageIdsFrom(a, c, from) == MessageIdsFrom(b, c, from)
  {
    if from < |a| {
      MessageIdsSameConversations(a, b, c, from + 1);
    }
  }

  lemma DeleteMessagePreservesValid(s: Store, identity: Option<string>, id: MsgId, now: Time)
    requires Valid(s)
    ensures var r := DeleteMessage(s, identity, id, now);
            r.Ok? ==> Valid(r.value)
  {
  }

  // ---------------------------------------------------------------------------
  // Reactions

  function IsEntry(emoji: string, u: UserId): Reaction -> bool
  {
    (x: Reaction) => x == Reaction(emoji, u)
  }

  /** The reaction list after user `u` toggles `emoji`: the first matching
      entry is removed if there is one, otherwise the entry is appended. */
  function ToggleIn(rs: seq<Reaction>, emoji: string, u: UserId): (r: seq<Reaction>)
    ensures Reaction(emoji, u) !in rs ==> r == rs + [Reaction(emoji, u)]
    ensures Reaction(emoji, u) in rs ==> multiset(r) == multiset(rs) - multiset{Reaction(emoji, u)}
    ensures Reaction(emoji, u) in rs ==>
      exists k :: 0 <= k < |rs| && rs[k] == Reaction(emoji, u) && Reaction(emoji, u) !in rs[..k] &&
                  r == rs[..k] + rs[k + 1..]
  {
    match Seqs.FindFirst(rs, IsEntry(emoji, u))
    case Some(k) =>
      assert Reaction(emoji, u) !in rs[..k];
      Seqs.RemoveAt(rs, k)
    case None => rs + [Reaction(emoji, u)]
  }

  /** On a list with one entry per (emoji, user), toggling flips exactly the
      caller's entry for that emoji, leaves every other entry as it was, and
      keeps the list free of repeats. */
  lemma ToggleInFlips(rs: seq<Reaction>, emoji: string, u: UserId)
    requires ReactionsUnique(rs)
    ensures var r := ToggleIn(rs, emoji, u);
      && (Reaction(emoji, u) in r <==> Reaction(emoji, u) !in rs)
      && (forall x :: x != Reaction(emoji, u) ==> multiset(r)[x] == multiset(rs)[x])
      && ReactionsUnique(r)
  {
    var r := ToggleIn(rs, emoji, u);
    var e := Reaction(emoji, u);
    if e in rs {
      Seqs.DistinctOnce(rs, e);
      assert multiset(r)[e] == 0;
      var k := Seqs.FindFirst(rs, IsEntry(emoji, u)).value;
      forall i, j | 0 <= i < j < |r| ensures r[i] != r[j]
      {
        var i' := if i < k then i else i + 1;
        var j' := if j < k then j else j + 1;
        assert r[i] == rs[i'] && r[j] == rs[j'] && i' < j';
      }
    }
  }

  /** Toggling the same (emoji, user) twice restores a list that lacked the
      entry exactly. */
  lemma ToggleTwiceAbsent(rs: seq<Reaction>, emoji: string, u: UserId)
    requires Reaction(emoji, u) !in rs
    ensures ToggleIn(ToggleIn(rs, emoji, u), emoji, u) == rs
  {
    var once := rs + [Reaction(emoji, u)];
    var k := Seqs.FindFirst(once, IsEntry(emoji, u));
    assert IsEntry(emoji, u)(once[|rs|]);
    assert k == Some(|rs|);
    assert once[..|rs|] == rs;
  }

  /** Toggling the same (emoji, user) twice restores a list that had the
      entry, up to order: the entry moves to the end. */
  lemma ToggleTwicePresent(rs: seq<Reaction>, emoji: string, u: UserId)
    requires ReactionsUnique(rs)
    requires Reaction(emoji, u) in rs
    ensures multiset(ToggleIn(ToggleIn(rs, emoji, u), emoji, u)) == multiset(rs)
  {
    ToggleInFlips(rs, emoji, u);
  }

  /** Toggle the caller's `emoji` reaction on a message (deleted or not). */
  function ToggleReaction(s: Store, identity: Option<string>, id: MsgId, emoji: string): (r: Result<Store, Error>)
    ensures identity.None? ==> r == Err(Unauthenticated)
    ensures identity.Some? && CurrentUser(s, identity).None? ==> r == Err(UserNotFound)
    ensures CurrentUser(s, identity).Some? && id >= |s.messages| ==> r == Err(MessageNotFound)
    ensures r.Ok? <==> CurrentUser(s, identity).Some? && id < |s.messages|
    ensures r.Ok? ==>
      && r.value == s.(messages := r.value.messages)
      && |r.value.messages| == |s.messages|
      && r.value.messages[id] == s.messages[id].(reactions := Some(
           ToggleIn(s.messages[id].reactions.GetOr([]), emoji, CurrentUser(s, identity).value)))
      && forall j :: 0 <= j < |s.messages| && j != id ==> r.value.messages[j] == s.messages[j]
  {
    if identity.None? then Err(Unauthenticated)
    else match CurrentUser(s, identity)
    case None => Err(UserNotFound)
    case Some(me) =>
      if id >= |s.messages| then Err(MessageNotFound)
      else
        var m := s.messages[id];
        Ok(s.(messages := s.messages[id := m.(reactions := Some(ToggleIn(m.reactions.GetOr([]), emoji, me)))]))
  }

  lemma ToggleReactionPreservesValid(s: Store, identity: Option<string>, id: MsgId, emoji: string)
    requires Valid(s)
    ensures var r := ToggleReaction(s, identity, id, emoji);
            r.Ok? ==> Valid(r.value)
  {
    var r := ToggleReaction(s, identity, id, emoji);
    if r.Ok? {
      var rs := s.messages[id].reactions.GetOr([]);
      ToggleInFlips(rs, emoji, CurrentUser(s, identity).value);
    }
  }

  /** Two identical toggles restore the message's reaction list: exactly when
      the caller had not reacted with that emoji, up to order when they had. */
  lemma ToggleReactionTwice(s: Store, identity: Option<string>, id: MsgId, emoji: string)
    requires ToggleReaction(s, identity, id, emoji).Ok?
    ensures var t := ToggleReaction(s, identity, id, emoji).value;
            var r := ToggleReaction(t, identity, id, emoji);
            var before := s.messages[id].reactions.GetOr([]);
            && r.Ok?
            && r.value.messages[id].reactions.Some?
            && var after := r.value.messages[id].reactions.value;
               && (Reaction(emoji, CurrentUser(s, identity).value) !in before ==> after == before)
               && (ReactionsUnique(before) ==> multiset(after) == multiset(before))
  {
    var me := CurrentUser(s, identity).value;
    var t := ToggleReaction(s, identity, id, emoji).value;
    assert t.users == s.users;
    var before := s.messages[id].reactions.GetOr([]);
    if Reaction(emoji, me) !in before {
      ToggleTwiceAbsent(before, emoji, me);
    } else if ReactionsUnique(before) {
      ToggleTwicePresent(before, emoji, me);
    }
  }
}
