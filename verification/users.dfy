/** The user directory: identity sync (`upsertUser`), presence
    (`setOnlineStatus`), the caller's own record (`getCurrentUser`) and the
    people search (`getAllUsers`). */
module Users {
  import opened Wrappers
  import opened Schema
  import Seqs
  import Text

  /** The caller's own user document, or `None` (`null`) when there is no
      identity or no record for it. */
  function GetCurrentUser(s: Store, identity: Option<string>): (r: Option<Doc<User>>)
    ensures r.Some? <==>
      identity.Some? && exists j :: 0 <= j < |s.users| && s.users[j].clerkId == identity.value
    ensures r.Some? ==>
      r.value.id < |s.users| && r.value.value == s.users[r.value.id] && r.value.value.clerkId == identity.value
    ensures r.Some? && ClerkIdsUnique(s.users) ==>
      forall j :: 0 <= j < |s.users| && s.users[j].clerkId == identity.value ==> j == r.value.id
  {
    match CurrentUser(s, identity)
    case None => None
    case Some(me) => Some(Doc(me, s.users[me]))
  }

  /** The search box filters only when the text has a non-whitespace
      character (`search && search.trim()`). */
  predicate SearchActive(search: Option<string>)
  {
    search.Some? && Text.Trim(search.value) != ""
  }

  function IsNotUser(me: UserId): Doc<User> -> bool
  {
    (d: Doc<User>) => d.id != me
  }

  function NameContains(lowerSearch: string): Doc<User> -> bool
  {
    (d: Doc<User>) => Text.Contains(Text.Lower(d.value.name), lowerSearch)
  }

  /** Whether user `u` is listed for a caller with the given search text:
      the lower-cased (untrimmed) search text occurs in the lower-cased name. */
  ghost predicate MatchesSearch(u: User, search: Option<string>)
  {
    SearchActive(search) ==> Text.OccursIn(Text.Lower(search.value), Text.Lower(u.name))
  }

  /** Every user except the caller, optionally narrowed by a case-insensitive
      substring match on the display name, in table order. */
  function GetAllUsers(s: Store, identity: Option<string>, search: Option<string>): (r: seq<Doc<User>>)
    ensures CurrentUser(s, identity).None? ==> r == []
    ensures forall d :: d in r ==> d.id < |s.users| && d.value == s.users[d.id]
    ensures CurrentUser(s, identity).Some? ==>
      forall i :: 0 <= i < |s.users| ==>
        (Doc(i, s.users[i]) in r <==>
          i != CurrentUser(s, identity).value && MatchesSearch(s.users[i], search))
    ensures forall j, k :: 0 <= j < k < |r| ==> r[j].id < r[k].id
  {
    match CurrentUser(s, identity)
    case None => []
    case Some(me) => Listing(s, me, search)
  }

  /** Every user document except the caller's, in table order. */
  function Others(s: Store, me: UserId): (r: seq<Doc<User>>)
    ensures forall d :: d in r ==> d.id < |s.users| && d.value == s.users[d.id] && d.id != me
    ensures forall i :: 0 <= i < |s.users| ==> (Doc(i, s.users[i]) in r <==> i != me)
    ensures forall j, k :: 0 <= j < k < |r| ==> r[j].id < r[k].id
  {
    var docs := Docs(s.users);
    assert forall i :: 0 <= i < |s.users| ==> docs[i] in docs;
    Seqs.FilterPairwise(docs, IsNotUser(me), IdBefore);
    Seqs.Filter(docs, IsNotUser(me))
  }

  /** Document `a` comes before document `b` in its table. */
  predicate IdBefore(a: Doc<User>, b: Doc<User>)
  {
    a.id < b.id
  }

  /** The executable name filter agrees with `MatchesSearch`. */
  lemma NameContainsMatches(u: Doc<User>, search: Option<string>)
    requires SearchActive(search)
    ensures NameContains(Text.Lower(search.value))(u) <==> MatchesSearch(u.value, search)
  {
    Text.ContainsIsOccurrence(Text.Lower(u.value.name), Text.Lower(search.value));
  }

  /** The other users whose lower-cased name contains the lower-cased search. */
  function Narrowed(s: Store, me: UserId, search: Option<string>): (r: seq<Doc<User>>)
    requires SearchActive(search)
    ensures forall d :: d in r ==> d.id < |s.users| && d.value == s.users[d.id]
    ensures forall i :: 0 <= i < |s.users| ==>
      (Doc(i, s.users[i]) in r <==> i != me && MatchesSearch(s.users[i], search))
    ensures forall j, k :: 0 <= j < k < |r| ==> r[j].id < r[k].id
  {
    NarrowedMatches(s, me, search);
    Seqs.FilterPairwise(Others(s, me), NameContains(Text.Lower(search.value)), IdBefore);
    Seqs.Filter(Others(s, me), NameContains(Text.Lower(search.value)))
  }

  /** The name filter over the other users selects exactly the matches. */
  lemma NarrowedMatches(s: Store, me: UserId, search: Option<string>)
    requires SearchActive(search)
    ensures var r := Seqs.Filter(Others(s, me), NameContains(Text.Lower(search.value)));
      forall i :: 0 <= i < |s.users| ==>
        (Doc(i, s.users[i]) in r <==> i != me && MatchesSearch(s.users[i], search))
  {
    forall i | 0 <= i < |s.users| {
      NameContainsMatches(Doc(i, s.users[i]), search);
    }
  }

  /** The listing `GetAllUsers` returns to the resolved caller `me`. */
  function Listing(s: Store, me: UserId, search: Option<string>): (r: seq<Doc<User>>)
    ensures forall d :: d in r ==> d.id < |s.users| && d.value == s.users[d.id]
    ensures forall i :: 0 <= i < |s.users| ==>
      (Doc(i, s.users[i]) in r <==> i != me && MatchesSearch(s.users[i], search))
    ensures forall j, k :: 0 <= j < k < |r| ==> r[j].id < r[k].id
  {
    if SearchActive(search) then Narrowed(s, me, search) else Others(s, me)
  }

  /** Search is case-insensitive: two search texts with the same lower-case
      form give the same listing. */
  lemma SearchIgnoresCase(s: Store, identity: Option<string>, q1: string, q2: string)
    requires Text.Lower(q1) == Text.Lower(q2)
    ensures GetAllUsers(s, identity, Some(q1)) == GetAllUsers(s, identity, Some(q2))
  {
    Text.TrimEmptyIffBlank(q1);
    Text.TrimEmptyIffBlank(q2);
    Text.LowerKeepsBlank(q1);
    Text.LowerKeepsBlank(q2);
  }

  /** A blank or absent search text does not filter: the listing is every
      user except the caller. */
  lemma BlankSearchListsEveryoneElse(s: Store, identity: Option<string>, search: Option<string>)
    requires search.None? || Text.IsBlank(search.value)
    requires CurrentUser(s, identity).Some?
    ensures forall i :: 0 <= i < |s.users| ==>
      (Doc(i, s.users[i]) in GetAllUsers(s, identity, search) <==> i != CurrentUser(s, identity).value)
  {
    if search.Some? {
      Text.TrimEmptyIffBlank(search.value);
    }
  }

  /** The directory's identity sync: insert a user for a new external id, or
      overwrite name, email and avatar of the existing one. Returns the id. */
  function UpsertUser(s: Store, clerkId: string, name: string, email: string, imageUrl: Option<string>, now: Time)
    : (r: (Store, UserId))
    ensures r.1 < |r.0.users|
    ensures FindByClerkId(r.0, clerkId) == Some(r.1)
    ensures r.0.users[r.1].name == name && r.0.users[r.1].email == email && r.0.users[r.1].imageUrl == imageUrl
    ensures r.0 == s.(users := r.0.users)
    ensures FindByClerkId(s, clerkId).Some? ==>
      && r.1 == FindByClerkId(s, clerkId).value
      && |r.0.users| == |s.users|
      && r.0.users[r.1].isOnline == s.users[r.1].isOnline
      && r.0.users[r.1].lastSeen == s.users[r.1].lastSeen
      && forall j :: 0 <= j < |s.users| && j != r.1 ==> r.0.users[j] == s.users[j]
    ensures FindByClerkId(s, clerkId).None? ==>
      && r.1 == |s.users|
      && r.0.users == s.users + [User(clerkId, name, email, imageUrl, false, now)]
  {
    match FindByClerkId(s, clerkId)
    case Some(k) =>
      var users := s.users[k := s.users[k].(name := name, email := email, imageUrl := imageUrl)];
      assert forall j :: 0 <= j < k ==> !HasClerkId(clerkId)(users[j]) by {
        assert forall j :: 0 <= j < k ==> users[j] == s.users[j] && !HasClerkId(clerkId)(s.users[j]);
      }
      Seqs.FindFirstAt(users, HasClerkId(clerkId), k);
      (s.(users := users), k)
    case None =>
      var users := s.users + [User(clerkId, name, email, imageUrl, false, now)];
      assert forall j :: 0 <= j < |s.users| ==> !HasClerkId(clerkId)(users[j]) by {
        assert forall j :: 0 <= j < |s.users| ==> users[j] == s.users[j];
      }
      Seqs.FindFirstAt(users, HasClerkId(clerkId), |s.users|);
      (s.(users := users), |s.users|)
  }

  /** Delivering the same identity event twice changes nothing the second
      time: same id, same store, whatever the clock says. */
  lemma UpsertIdempotent(s: Store, clerkId: string, name: string, email: string, imageUrl: Option<string>,
                         now1: Time, now2: Time)
    ensures var (s1, id1) := UpsertUser(s, clerkId, name, email, imageUrl, now1);
            UpsertUser(s1, clerkId, name, email, imageUrl, now2) == (s1, id1)
  {
    var (s1, id1) := UpsertUser(s, clerkId, name, email, imageUrl, now1);
    var (s2, id2) := UpsertUser(s1, clerkId, name, email, imageUrl, now2);
    assert id2 == id1;
    assert s2.users == s1.users;
  }

  lemma UpsertPreservesValid(s: Store, clerkId: string, name: string, email: string, imageUrl: Option<string>, now: Time)
    requires Valid(s)
    ensures Valid(UpsertUser(s, clerkId, name, email, imageUrl, now).0)
  {
    var r := UpsertUser(s, clerkId, name, email, imageUrl, now).0;
    forall i, j | 0 <= i < j < |r.users|
      ensures r.users[i].clerkId != r.users[j].clerkId
    {
      if j == |s.users| {
        assert r.users[j].clerkId == clerkId;
        assert r.users[i] == s.users[i];
      }
    }
  }

  /** Presence: set the caller's online flag and refresh `lastSeen`; a no-op
      without a resolved caller. */
  function SetOnlineStatus(s: Store, identity: Option<string>, isOnline: bool, now: Time): (r: Store)
    ensures CurrentUser(s, identity).None? ==> r == s
    ensures r == s.(users := r.users) && |r.users| == |s.users|
    ensures CurrentUser(s, identity).Some? ==>
      var me := CurrentUser(s, identity).value;
      && r.users[me] == s.users[me].(isOnline := isOnline, lastSeen := now)
      && forall j :: 0 <= j < |s.users| && j != me ==> r.users[j] == s.users[j]
  {
    match CurrentUser(s, identity)
    case None => s
    case Some(me) => s.(users := s.users[me := s.users[me].(isOnline := isOnline, lastSeen := now)])
  }

  /** Presence changes never change who any caller resolves to, and keep the
      store invariant. */
  lemma SetOnlineStatusKeepsIdentities(s: Store, identity: Option<string>, isOnline: bool, now: Time, other: Option<string>)
    requires Valid(s)
    ensures var r := SetOnlineStatus(s, identity, isOnline, now);
            Valid(r) && CurrentUser(r, other) == CurrentUser(s, other)
  {
    var r := SetOnlineStatus(s, identity, isOnline, now);
    assert forall j :: 0 <= j < |s.users| ==> r.users[j].clerkId == s.users[j].clerkId;
    if other.Some? {
      FindSameKeys(s.users, r.users, other.value);
    }
  }

  /** The first user with a given external id depends only on the external ids. */
  lemma {:induction false} FindSameKeys(a: seq<User>, b: seq<User>, clerkId: string)
    requires |a| == |b|
    requires forall j :: 0 <= j < |a| ==> a[j].clerkId == b[j].clerkId
    ensures Seqs.FindFirst(a, HasClerkId(clerkId)) == Seqs.FindFirst(b, HasClerkId(clerkId))
  {
    if |a| > 0 {
      FindSameKeys(a[1..], b[1..], clerkId);
    }
  }
}
