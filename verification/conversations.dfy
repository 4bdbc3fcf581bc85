/** The conversation store: the caller's sorted conversation list with unread
    counts (`getMyConversations`), pair deduplication (`getOrCreateConversation`),
    the membership-gated lookup (`getConversation`) and read markers
    (`markAsRead`). */
module Conversations {
  import opened Wrappers
  import opened Schema
  import Seqs

  // ---------------------------------------------------------------------------
  // Participants

  function IsParticipant(me: UserId): Doc<Conversation> -> bool
  {
    (d: Doc<Conversation>) => me in d.value.participantIds
  }

  /** The get-or-create match: exactly two participant slots, holding both users. */
  function IsPairOf(a: UserId, b: UserId): Conversation -> bool
  {
    (c: Conversation) => |c.participantIds| == 2 && a in c.participantIds && b in c.participantIds
  }

  function IsNot(me: UserId): UserId -> bool
  {
    (u: UserId) => u != me
  }

  /** The first participant that is not `me` (`participantIds.find(id => id !== me)`). */
  function OtherParticipant(c: Conversation, me: UserId): (r: Option<UserId>)
    ensures r.Some? ==> r.value in c.participantIds && r.value != me
    ensures r.None? <==> forall u :: u in c.participantIds ==> u == me
  {
    match Seqs.FindFirst(c.participantIds, IsNot(me))
    case None => None
    case Some(k) => Some(c.participantIds[k])
  }

  /** The other participant's user record, `None` when there is no other
      participant or no such user. */
  function OtherUser(s: Store, c: Conversation, me: UserId): (r: Option<User>)
    ensures r.Some? <==> OtherParticipant(c, me).Some? && OtherParticipant(c, me).value < |s.users|
    ensures r.Some? ==> r.value == s.users[OtherParticipant(c, me).value]
  {
    match OtherParticipant(c, me)
    case None => None
    case Some(u) => GetUser(s, u)
  }

  // ---------------------------------------------------------------------------
  // Read tracking

  /** The caller's last-read time in a conversation: 0 when never read. */
  function LastReadTime(s: Store, c: ConvId, me: UserId): (r: Time)
    ensures (forall j :: 0 <= j < |s.readMarkers| ==> !IsReadOf(c, me)(s.readMarkers[j])) ==> r == 0
    ensures ReadsUnique(s.readMarkers) ==>
      forall j :: 0 <= j < |s.readMarkers| && IsReadOf(c, me)(s.readMarkers[j]) ==>
        r == s.readMarkers[j].lastReadTime
  {
    match Seqs.FindFirst(s.readMarkers, IsReadOf(c, me))
    case None => 0
    case Some(k) => s.readMarkers[k].lastReadTime
  }

  /** A message of conversation `c` that `me` has not read: created after
      `since` by someone else. */
  function IsUnread(c: ConvId, me: UserId, since: Time): Message -> bool
  {
    (m: Message) => m.conversationId == c && m.creationTime > since && m.senderId != me
  }

  /** The unread counter shown next to a conversation: the messages of `c`
      from someone else created after the last read time, soft-deleted ones
      included. */
  function UnreadCount(s: Store, c: ConvId, me: UserId): (r: nat)
    ensures r <= |s.messages|
    ensures r > 0 <==>
      exists j :: 0 <= j < |s.messages| && s.messages[j].conversationId == c &&
                  s.messages[j].senderId != me && s.messages[j].creationTime > LastReadTime(s, c, me)
  {
    var p := IsUnread(c, me, LastReadTime(s, c, me));
    assert forall j :: 0 <= j < |s.messages| ==> s.messages[j] in s.messages;
    Seqs.Count(s.messages, p)
  }

  /** Set the `lastReadTime` of the (c, me) marker to `now`: patch the
      existing marker, or insert one. */
  function UpsertReadMarker(markers: seq<ReadMarker>, c: ConvId, me: UserId, now: Time): (r: seq<ReadMarker>)
    ensures var k := Seqs.FindFirst(r, IsReadOf(c, me)); k.Some? && r[k.value].lastReadTime == now
    ensures forall m :: !IsReadOf(c, me)(m) ==> multiset(r)[m] == multiset(markers)[m]
  {
    match Seqs.FindFirst(markers, IsReadOf(c, me))
    case Some(k) =>
      var r := markers[k := markers[k].(lastReadTime := now)];
      assert forall j :: 0 <= j < k ==> r[j] == markers[j];
      assert IsReadOf(c, me)(r[k]);
      Seqs.UpdateMultiset(markers, k, r[k]);
      r
    case None =>
      var r := markers + [ReadMarker(c, me, now)];
      assert forall j :: 0 <= j < |markers| ==> r[j] == markers[j];
      assert IsReadOf(c, me)(r[|markers|]);
      r
  }

  /** Upserting a read marker keeps at most one marker per (conversation, user). */
  lemma UpsertReadMarkerUnique(markers: seq<ReadMarker>, c: ConvId, me: UserId, now: Time)
    requires ReadsUnique(markers)
    ensures ReadsUnique(UpsertReadMarker(markers, c, me, now))
  {
    var r := UpsertReadMarker(markers, c, me, now);
    if Seqs.FindFirst(markers, IsReadOf(c, me)).None? {
      forall i, j | 0 <= i < j < |r|
        ensures (r[i].conversationId, r[i].userId) != (r[j].conversationId, r[j].userId)
      {
        if j == |markers| {
          assert !IsReadOf(c, me)(markers[i]);
        }
      }
    }
  }

  /** Record that the caller has read conversation `c` up to `now`; a no-op
      without a resolved caller. The conversation's existence is not checked. */
  function MarkAsRead(s: Store, identity: Option<string>, c: ConvId, now: Time): (r: Store)
    ensures CurrentUser(s, identity).None? ==> r == s
    ensures r == s.(readMarkers := r.readMarkers)
    ensures CurrentUser(s, identity).Some? ==> LastReadTime(r, c, CurrentUser(s, identity).value) == now
    ensures CurrentUser(s, identity).Some? ==>
      forall m :: !IsReadOf(c, CurrentUser(s, identity).value)(m) ==>
        multiset(r.readMarkers)[m] == multiset(s.readMarkers)[m]
  {
    match CurrentUser(s, identity)
    case None => s
    case Some(me) => s.(readMarkers := UpsertReadMarker(s.readMarkers, c, me, now))
  }

  lemma MarkAsReadPreservesValid(s: Store, identity: Option<string>, c: ConvId, now: Time)
    requires Valid(s)
    ensures Valid(MarkAsRead(s, identity, c, now))
  {
    if CurrentUser(s, identity).Some? {
      UpsertReadMarkerUnique(s.readMarkers, c, CurrentUser(s, identity).value, now);
    }
  }

  /** After `markAsRead` at `now`, the only messages still unread are those
      created after `now`: with a clock that has not run backwards, none. */
  lemma UnreadAfterMarkAsRead(s: Store, identity: Option<string>, c: ConvId, now: Time)
    requires CurrentUser(s, identity).Some?
    requires forall j :: 0 <= j < |s.messages| ==> s.messages[j].creationTime <= now
    ensures UnreadCount(MarkAsRead(s, identity, c, now), c, CurrentUser(s, identity).value) == 0
  {
    var r := MarkAsRead(s, identity, c, now);
    var me := CurrentUser(s, identity).value;
    assert LastReadTime(r, c, me) == now;
    Seqs.FilterNone(r.messages, IsUnread(c, me, now));
  }

  // ---------------------------------------------------------------------------
  // Listing

  ghost predicate SortedByTimeDesc(ds: seq<Doc<Conversation>>)
  {
    forall i, j :: 0 <= i < j < |ds| ==> ds[i].value.lastMessageTime >= ds[j].value.lastMessageTime
  }

  /** Insert `d` before the first element that is not more recent, so that
      equally recent conversations keep their order. */
  function InsertByTime(d: Doc<Conversation>, ds: seq<Doc<Conversation>>): (r: seq<Doc<Conversation>>)
    requires SortedByTimeDesc(ds)
    ensures SortedByTimeDesc(r)
    ensures multiset(r) == multiset(ds) + multiset{d}
  {
    if |ds| == 0 then [d]
    else if d.value.lastMessageTime >= ds[0].value.lastMessageTime then [d] + ds
    else
      var rest := InsertByTime(d, ds[1..]);
      assert ds == [ds[0]] + ds[1..];
      assert forall k :: 0 <= k < |rest| ==> rest[k].value.lastMessageTime <= ds[0].value.lastMessageTime by {
        forall k | 0 <= k < |rest| ensures rest[k].value.lastMessageTime <= ds[0].value.lastMessageTime {
          assert rest[k] in multiset(rest);
          if rest[k] != d {
            assert rest[k] in multiset(ds[1..]);
          }
        }
      }
      [ds[0]] + rest
  }

  /** `sort((a, b) => b.lastMessageTime - a.lastMessageTime)`: newest first, stable. */
  function SortByTimeDesc(ds: seq<Doc<Conversation>>): (r: seq<Doc<Conversation>>)
    ensures SortedByTimeDesc(r)
    ensures multiset(r) == multiset(ds)
  {
    if |ds| == 0 then []
    else
      assert ds == [ds[0]] + ds[1..];
      InsertByTime(ds[0], SortByTimeDesc(ds[1..]))
  }

  /** One row of the conversation list. */
  datatype ConversationSummary = ConversationSummary(
    id: ConvId,
    conversation: Conversation,
    otherUser: Option<User>,
    unreadCount: nat)

  function Summarize(s: Store, me: UserId, d: Doc<Conversation>): (r: ConversationSummary)
  {
    ConversationSummary(d.id, d.value, OtherUser(s, d.value, me), UnreadCount(s, d.id, me))
  }

  /** The conversation documents a list of rows shows. */
  function Listed(rows: seq<ConversationSummary>): (r: seq<Doc<Conversation>>)
    ensures |r| == |rows|
    ensures forall k :: 0 <= k < |rows| ==> r[k] == Doc(rows[k].id, rows[k].conversation)
  {
    seq(|rows|, k requires 0 <= k < |rows| => Doc(rows[k].id, rows[k].conversation))
  }

  /** Every document of a table occurs exactly once among its documents. */
  lemma DocsOnce<T>(t: seq<T>, i: nat)
    requires i < |t|
    ensures multiset(Docs(t))[Doc(i, t[i])] == 1
  {
    var ds := Docs(t);
    assert ds == ds[..i] + [ds[i]] + ds[i + 1..];
    assert Doc(i, t[i]) !in ds[..i];
    assert Doc(i, t[i]) !in ds[i + 1..];
  }

  /** One row per document, in the same order. */
  function SummarizeAll(s: Store, me: UserId, docs: seq<Doc<Conversation>>): (r: seq<ConversationSummary>)
    ensures Listed(r) == docs
    ensures forall k :: 0 <= k < |r| ==> r[k] == Summarize(s, me, docs[k])
  {
    var r := seq(|docs|, k requires 0 <= k < |docs| => Summarize(s, me, docs[k]));
    assert Listed(r) == docs;
    r
  }

  /** The caller's conversation documents, newest first. */
  function MyConversationDocs(s: Store, me: UserId): (r: seq<Doc<Conversation>>)
    ensures SortedByTimeDesc(r)
    ensures multiset(r) == multiset(Seqs.Filter(Docs(s.conversations), IsParticipant(me)))
  {
    SortByTimeDesc(Seqs.Filter(Docs(s.conversations), IsParticipant(me)))
  }

  /** The listing holds each conversation the caller takes part in exactly
      once, and no other document. */
  lemma MyConversationDocsExact(s: Store, me: UserId)
    ensures var r := MyConversationDocs(s, me);
      && (forall d :: d in r ==> d.id < |s.conversations| && d.value == s.conversations[d.id])
      && (forall i :: 0 <= i < |s.conversations| ==>
            multiset(r)[Doc(i, s.conversations[i])] == if me in s.conversations[i].participantIds then 1 else 0)
  {
    var docs := Docs(s.conversations);
    var mine := Seqs.Filter(docs, IsParticipant(me));
    var r := MyConversationDocs(s, me);
    forall d | d in r ensures d.id < |s.conversations| && d.value == s.conversations[d.id]
    {
      assert d in multiset(r);
      assert d in mine;
    }
    forall i | 0 <= i < |s.conversations|
      ensures multiset(r)[Doc(i, s.conversations[i])] == if me in s.conversations[i].participantIds then 1 else 0
    {
      DocsOnce(s.conversations, i);
      Seqs.FilterMultiset(docs, IsParticipant(me), Doc(i, s.conversations[i]));
      assert multiset(mine)[Doc(i, s.conversations[i])] ==
        if IsParticipant(me)(Doc(i, s.conversations[i])) then multiset(docs)[Doc(i, s.conversations[i])] else 0;
    }
  }

  /** The caller's conversations, newest first, each with the other
      participant and the caller's unread count; empty without a resolved caller. */
  function GetMyConversations(s: Store, identity: Option<string>): (r: seq<ConversationSummary>)
    ensures CurrentUser(s, identity).None? ==> r == []
    ensures CurrentUser(s, identity).Some? ==> Listed(r) == MyConversationDocs(s, CurrentUser(s, identity).value)
    ensures forall j, k :: 0 <= j < k < |r| ==>
      r[j].conversation.lastMessageTime >= r[k].conversation.lastMessageTime
    ensures CurrentUser(s, identity).Some? ==>
      forall k :: 0 <= k < |r| ==>
        && r[k].unreadCount == UnreadCount(s, r[k].id, CurrentUser(s, identity).value)
        && r[k].otherUser == OtherUser(s, r[k].conversation, CurrentUser(s, identity).value)
  {
    match CurrentUser(s, identity)
    case None => []
    case Some(me) =>
      SummarizeAll(s, me, MyConversationDocs(s, me))
  }

  /** `getMyConversations` lists every conversation of the caller exactly
      once and nothing else. */
  lemma GetMyConversationsExact(s: Store, identity: Option<string>)
    requires CurrentUser(s, identity).Some?
    ensures var r := GetMyConversations(s, identity);
      && (forall k :: 0 <= k < |r| ==> r[k].id < |s.conversations| && r[k].conversation == s.conversations[r[k].id])
      && (forall i :: 0 <= i < |s.conversations| ==>
            multiset(Listed(r))[Doc(i, s.conversations[i])] ==
              if CurrentUser(s, identity).value in s.conversations[i].participantIds then 1 else 0)
  {
    var r := GetMyConversations(s, identity);
    MyConversationDocsExact(s, CurrentUser(s, identity).value);
    assert forall k :: 0 <= k < |r| ==> Listed(r)[k] in Listed(r);
  }

  // ---------------------------------------------------------------------------
  // Get or create

  /** Return the existing two-party conversation of the caller and `other`,
      or insert one with participants `[caller, other]`, no preview and
      `lastMessageTime = now`. */
  function GetOrCreateConversation(s: Store, identity: Option<string>, other: UserId, now: Time)
    : (r: Result<(Store, ConvId), Error>)
    ensures identity.None? ==> r == Err(Unauthenticated)
    ensures identity.Some? && CurrentUser(s, identity).None? ==> r == Err(UserNotFound)
    ensures CurrentUser(s, identity).Some? ==> r.Ok?
    ensures r.Ok? ==> CurrentUser(s, identity).Some?
    ensures r.Ok? ==>
      r.value.1 < |r.value.0.conversations|
      && IsPairOf(CurrentUser(s, identity).value, other)(r.value.0.conversations[r.value.1])
    ensures r.Ok? && (exists j :: 0 <= j < |s.conversations| &&
                       IsPairOf(CurrentUser(s, identity).value, other)(s.conversations[j])) ==>
      && r.value.0 == s
      && forall j :: 0 <= j < r.value.1 ==> !IsPairOf(CurrentUser(s, identity).value, other)(s.conversations[j])
    ensures r.Ok? && (forall j :: 0 <= j < |s.conversations| ==>
                       !IsPairOf(CurrentUser(s, identity).value, other)(s.conversations[j])) ==>
      && r.value.1 == |s.conversations|
      && r.value.0 == s.(conversations := s.conversations +
                           [Conversation([CurrentUser(s, identity).value, other], now, None)])
  {
    if identity.None? then Err(Unauthenticated)
    else match CurrentUser(s, identity)
    case None => Err(UserNotFound)
    case Some(me) =>
      match Seqs.FindFirst(s.conversations, IsPairOf(me, other))
      case Some(k) => Ok((s, k))
      case None =>
        var c := Conversation([me, other], now, None);
        assert IsPairOf(me, other)(c);
        Ok((s.(conversations := s.conversations + [c]), |s.conversations|))
  }

  /** Calling get-or-create for (A, B) and then for (B, A) yields the same
      conversation, and the second call changes nothing. */
  lemma GetOrCreateSymmetric(s: Store, idA: Option<string>, idB: Option<string>, a: UserId, b: UserId,
                             now1: Time, now2: Time)
    requires CurrentUser(s, idA) == Some(a) && CurrentUser(s, idB) == Some(b)
    ensures var first := GetOrCreateConversation(s, idA, b, now1);
            first.Ok? && GetOrCreateConversation(first.value.0, idB, a, now2) == first
  {
    var first := GetOrCreateConversation(s, idA, b, now1);
    var (s1, k) := first.value;
    assert CurrentUser(s1, idB) == Some(b) by {
      assert s1.users == s.users;
    }
    assert forall j :: 0 <= j < k ==> !IsPairOf(a, b)(s1.conversations[j]) by {
      if exists j :: 0 <= j < |s.conversations| && IsPairOf(a, b)(s.conversations[j]) {
        assert s1 == s;
      } else {
        assert forall j :: 0 <= j < k ==> s1.conversations[j] == s.conversations[j];
      }
    }
    assert forall j :: 0 <= j < k ==> !IsPairOf(b, a)(s1.conversations[j]) by {
      assert forall c :: IsPairOf(a, b)(c) == IsPairOf(b, a)(c);
    }
    Seqs.FindFirstAt(s1.conversations, IsPairOf(b, a), k);
  }

  lemma GetOrCreatePreservesValid(s: Store, identity: Option<string>, other: UserId, now: Time)
    requires Valid(s)
    ensures var r := GetOrCreateConversation(s, identity, other, now);
            r.Ok? ==> Valid(r.value.0)
  {
    var r := GetOrCreateConversation(s, identity, other, now);
    if r.Ok? && r.value.1 == |s.conversations| {
      var me := CurrentUser(s, identity).value;
      var cs := r.value.0.conversations;
      var c := cs[|s.conversations|];
      forall i, j | 0 <= i < j < |cs| ensures Pair(cs[i]) != Pair(cs[j])
      {
        if j == |s.conversations| {
          assert cs[i] == s.conversations[i];
          assert !IsPairOf(me, other)(cs[i]);
          assert me in Pair(c) && other in Pair(c);
          assert !(me in Pair(cs[i]) && other in Pair(cs[i]));
        }
      }
    }
  }

  /** On a valid store, the conversation get-or-create returns for two
      distinct users connects exactly those two, and it is the only one that does. */
  lemma GetOrCreateUniquePair(s: Store, identity: Option<string>, other: UserId, now: Time)
    requires Valid(s)
    requires CurrentUser(s, identity).Some? && CurrentUser(s, identity).value != other
    ensures var r := GetOrCreateConversation(s, identity, other, now);
            var me := CurrentUser(s, identity).value;
            && r.Ok?
            && Pair(r.value.0.conversations[r.value.1]) == {me, other}
            && forall j :: 0 <= j < |r.value.0.conversations| && j != r.value.1 ==>
                 Pair(r.value.0.conversations[j]) != {me, other}
  {
    var r := GetOrCreateConversation(s, identity, other, now);
    var me := CurrentUser(s, identity).value;
    GetOrCreatePreservesValid(s, identity, other, now);
    var cs := r.value.0.conversations;
    var c := cs[r.value.1];
    TwoSlotPair(c, me, other);
    var id := r.value.1;
    forall j | 0 <= j < |cs| && j != id ensures Pair(cs[j]) != {me, other}
    {
      if j < id {
        assert Pair(cs[j]) != Pair(cs[id]);
      } else {
        assert Pair(cs[id]) != Pair(cs[j]);
      }
    }
  }

  /** Two slots holding two distinct users hold exactly those users. */
  lemma TwoSlotPair(c: Conversation, a: UserId, b: UserId)
    requires IsPairOf(a, b)(c) && a != b
    ensures Pair(c) == {a, b}
  {
    var p := c.participantIds;
    assert p == [p[0], p[1]];
    assert Pair(c) == {p[0], p[1]};
  }

  // ---------------------------------------------------------------------------
  // Single conversation

  /** A conversation as the chat header sees it. */
  datatype ConversationDetail = ConversationDetail(
    id: ConvId,
    conversation: Conversation,
    otherUser: Option<User>,
    currentUser: Doc<User>)

  /** The conversation, if the caller is resolved and a participant;
      `None` (`null`) otherwise. */
  function GetConversation(s: Store, identity: Option<string>, c: ConvId): (r: Option<ConversationDetail>)
    ensures r.Some? <==>
      && CurrentUser(s, identity).Some?
      && c < |s.conversations|
      && CurrentUser(s, identity).value in s.conversations[c].participantIds
    ensures r.Some? ==>
      var me := CurrentUser(s, identity).value;
      && r.value.id == c
      && r.value.conversation == s.conversations[c]
      && r.value.currentUser == Doc(me, s.users[me])
      && r.value.otherUser == OtherUser(s, s.conversations[c], me)
  {
    match CurrentUser(s, identity)
    case None => None
    case Some(me) =>
      if c < |s.conversations| && me in s.conversations[c].participantIds then
        var conv := s.conversations[c];
        Some(ConversationDetail(c, conv, OtherUser(s, conv, me), Doc(me, s.users[me])))
      else None
  }

  /** In a two-party conversation of the caller and another user `u`, the
      detail view carries `u`'s user record, whichever slot `u` is in. */
  lemma GetConversationShowsOther(s: Store, identity: Option<string>, c: ConvId, u: UserId)
    requires CurrentUser(s, identity).Some? && c < |s.conversations|
    requires var me := CurrentUser(s, identity).value;
      s.conversations[c].participantIds == [me, u] || s.conversations[c].participantIds == [u, me]
    requires u != CurrentUser(s, identity).value && u < |s.users|
    ensures var me := CurrentUser(s, identity).value;
      GetConversation(s, identity, c) ==
        Some(ConversationDetail(c, s.conversations[c], Some(s.users[u]), Doc(me, s.users[me])))
  {
    var me := CurrentUser(s, identity).value;
    var p := s.conversations[c].participantIds;
    assert me in p;
    var o := OtherParticipant(s.conversations[c], me);
    assert u in p;
    assert o.Some?;
    assert o.value in p && o.value != me;
  }
}
