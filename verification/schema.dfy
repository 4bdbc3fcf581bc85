/** The document store of the chat backend: one table per record kind of the
    Convex schema (users, conversations, messages, typingIndicators,
    messageReads), the errors its mutations throw, the resolution of the
    authenticated caller, and the invariants every mutation preserves. */
module Schema {
  import opened Wrappers
  import Seqs

  /** Milliseconds since the epoch, as returned by `Date.now()`. */
  type Time = int

  /** Document ids. The users, conversations and messages tables are never
      deleted from, so a document's id is its position in its table. */
  type UserId = nat
  type ConvId = nat
  type MsgId = nat

  datatype User = User(
    clerkId: string,
    name: string,
    email: string,
    imageUrl: Option<string>,
    isOnline: bool,
    lastSeen: Time)

  datatype Conversation = Conversation(
    participantIds: seq<UserId>,
    lastMessageTime: Time,
    lastMessagePreview: Option<string>)

  /** One entry of a message's reaction list. */
  datatype Reaction = Reaction(emoji: string, userId: UserId)

  /** `creationTime` is the system field `_creationTime`, stamped at insertion.
      It is taken to be the `now` of the inserting mutation, the same clock
      reading the mutation stores in its own timestamps. */
  datatype Message = Message(
    conversationId: ConvId,
    senderId: UserId,
    body: string,
    creationTime: Time,
    deletedAt: Option<Time>,
    reactions: Option<seq<Reaction>>)

  datatype TypingMark = TypingMark(conversationId: ConvId, userId: UserId, updatedAt: Time)

  datatype ReadMarker = ReadMarker(conversationId: ConvId, userId: UserId, lastReadTime: Time)

  datatype Store = Store(
    users: seq<User>,
    conversations: seq<Conversation>,
    messages: seq<Message>,
    typing: seq<TypingMark>,
    readMarkers: seq<ReadMarker>)

  /** A document returned by a query: its id together with its fields. */
  datatype Doc<T> = Doc(id: nat, value: T)

  /** The errors the mutations throw. */
  datatype Error =
    | Unauthenticated
    | UserNotFound
    | MessageNotFound
    | NotOwnMessage
    | DocumentNotFound   // raised by the store when a patch names a missing document

  /** Every document of a table with its id, in table order (`.collect()`). */
  function Docs<T>(table: seq<T>): (r: seq<Doc<T>>)
    ensures |r| == |table|
    ensures forall i :: 0 <= i < |table| ==> r[i] == Doc(i, table[i])
  {
    seq(|table|, i requires 0 <= i < |table| => Doc(i, table[i]))
  }

  /** `ctx.db.get` on the users table. */
  function GetUser(s: Store, id: UserId): (r: Option<User>)
    ensures r.Some? <==> id < |s.users|
    ensures r.Some? ==> r.value == s.users[id]
  {
    if id < |s.users| then Some(s.users[id]) else None
  }

  function HasClerkId(clerkId: string): User -> bool
  {
    (u: User) => u.clerkId == clerkId
  }

  /** The users-table lookup by external identity (index `by_clerk_id`). */
  function FindByClerkId(s: Store, clerkId: string): (r: Option<UserId>)
    ensures r.Some? ==> r.value < |s.users| && s.users[r.value].clerkId == clerkId
    ensures r.None? <==> forall j :: 0 <= j < |s.users| ==> s.users[j].clerkId != clerkId
  {
    Seqs.FindFirst(s.users, HasClerkId(clerkId))
  }

  /** The caller's user id: `None` when the request carries no identity
      (`identity` is the identity provider's subject) or when no user record
      has that external id. */
  function CurrentUser(s: Store, identity: Option<string>): (r: Option<UserId>)
    ensures identity.None? ==> r.None?
    ensures r.Some? ==> r.value < |s.users| && s.users[r.value].clerkId == identity.value
    ensures identity.Some? && r.None? ==>
      forall j :: 0 <= j < |s.users| ==> s.users[j].clerkId != identity.value
  {
    match identity
    case None => None
    case Some(subject) => FindByClerkId(s, subject)
  }

  // ---------------------------------------------------------------------------
  // Invariants

  /** At most one user per external id. */
  ghost predicate ClerkIdsUnique(users: seq<User>)
  {
    forall i, j :: 0 <= i < j < |users| ==> users[i].clerkId != users[j].clerkId
  }

  /** The set of users a conversation connects. */
  function Pair(c: Conversation): set<UserId>
  {
    set u | u in c.participantIds
  }

  /** Every conversation is a direct message between two participant slots. */
  ghost predicate TwoParty(conversations: seq<Conversation>)
  {
    forall i :: 0 <= i < |conversations| ==> |conversations[i].participantIds| == 2
  }

  /** At most one conversation per unordered pair of users. */
  ghost predicate PairsDistinct(conversations: seq<Conversation>)
  {
    forall i, j :: 0 <= i < j < |conversations| ==> Pair(conversations[i]) != Pair(conversations[j])
  }

  function IsMarkOf(c: ConvId, u: UserId): TypingMark -> bool
  {
    (t: TypingMark) => t.conversationId == c && t.userId == u
  }

  function IsReadOf(c: ConvId, u: UserId): ReadMarker -> bool
  {
    (m: ReadMarker) => m.conversationId == c && m.userId == u
  }

  /** At most one typing mark per (conversation, user). */
  ghost predicate TypingUnique(typing: seq<TypingMark>)
  {
    forall i, j :: 0 <= i < j < |typing| ==>
      (typing[i].conversationId, typing[i].userId) != (typing[j].conversationId, typing[j].userId)
  }

  /** At most one read marker per (conversation, user). */
  ghost predicate ReadsUnique(markers: seq<ReadMarker>)
  {
    forall i, j :: 0 <= i < j < |markers| ==>
      (markers[i].conversationId, markers[i].userId) != (markers[j].conversationId, markers[j].userId)
  }

  /** At most one entry per (emoji, user) in a reaction list. */
  ghost predicate ReactionsUnique(rs: seq<Reaction>)
  {
    forall i, j :: 0 <= i < j < |rs| ==> rs[i] != rs[j]
  }

  ghost predicate AllReactionsUnique(messages: seq<Message>)
  {
    forall i :: 0 <= i < |messages| && messages[i].reactions.Some? ==>
      ReactionsUnique(messages[i].reactions.value)
  }

  /** Every message belongs to an existing conversation and was sent by an
      existing user. */
  ghost predicate MessagesReferToDocuments(s: Store)
  {
    forall i :: 0 <= i < |s.messages| ==>
      s.messages[i].conversationId < |s.conversations| && s.messages[i].senderId < |s.users|
  }

  /** The invariant of the store that every mutation preserves. */
  ghost predicate Valid(s: Store)
  {
    && ClerkIdsUnique(s.users)
    && MessagesReferToDocuments(s)
    && TwoParty(s.conversations)
    && PairsDistinct(s.conversations)
    && AllReactionsUnique(s.messages)
    && TypingUnique(s.typing)
    && ReadsUnique(s.readMarkers)
  }

  /** Messages appear in the table in non-decreasing creation time. This holds
      as long as the clock never runs backwards between mutations. */
  ghost predicate Chronological(messages: seq<Message>)
  {
    forall i, j :: 0 <= i < j < |messages| ==> messages[i].creationTime <= messages[j].creationTime
  }

  /** The empty store satisfies the invariant. */
  lemma EmptyStoreValid()
    ensures Valid(Store([], [], [], [], []))
    ensures Chronological([])
  {
  }
}
