/** The typing registry: one mark per (conversation, user), refreshed while
    the user types, and read through a 2000 ms liveness window
    (`setTyping`, `getTypingUsers`). */
module Typing {
  import opened Wrappers
  import opened Schema
  import Seqs

  /** A mark counts as "typing" while it is younger than this many milliseconds. */
  const LivenessWindow: int := 2000

  /** The liveness test `updatedAt > now - 2000`, evaluated at read time. */
  function IsLive(t: TypingMark, now: Time): (r: bool)
    ensures r <==> now - t.updatedAt < LivenessWindow
    ensures t.updatedAt >= now ==> r
    ensures now - t.updatedAt >= 2000 ==> !r
  {
    t.updatedAt > now - LivenessWindow
  }

  /** Create the (c, u) mark with `updatedAt = now`, or refresh the existing one. */
  function RefreshTypingMark(typing: seq<TypingMark>, c: ConvId, u: UserId, now: Time): (r: seq<TypingMark>)
    ensures TypingMark(c, u, now) in r
    ensures forall m :: !IsMarkOf(c, u)(m) ==> multiset(r)[m] == multiset(typing)[m]
  {
    match Seqs.FindFirst(typing, IsMarkOf(c, u))
    case Some(k) =>
      var r := typing[k := typing[k].(updatedAt := now)];
      Seqs.UpdateMultiset(typing, k, r[k]);
      r
    case None =>
      typing + [TypingMark(c, u, now)]
  }

  /** Refreshing keeps one mark per key, and the refreshed key's only mark is the new one. */
  lemma RefreshTypingMarkUnique(typing: seq<TypingMark>, c: ConvId, u: UserId, now: Time)
    requires TypingUnique(typing)
    ensures var r := RefreshTypingMark(typing, c, u, now);
      && TypingUnique(r)
      && forall j :: 0 <= j < |r| && IsMarkOf(c, u)(r[j]) ==> r[j] == TypingMark(c, u, now)
  {
    var r := RefreshTypingMark(typing, c, u, now);
    match Seqs.FindFirst(typing, IsMarkOf(c, u))
    case Some(k) =>
      forall j | 0 <= j < |r| && j != k ensures !IsMarkOf(c, u)(r[j])
      {
        if j < k {
          assert (typing[j].conversationId, typing[j].userId) != (typing[k].conversationId, typing[k].userId);
        } else {
          assert (typing[k].conversationId, typing[k].userId) != (typing[j].conversationId, typing[j].userId);
        }
      }
    case None =>
      forall i, j | 0 <= i < j < |r|
        ensures (r[i].conversationId, r[i].userId) != (r[j].conversationId, r[j].userId)
      {
        if j == |typing| {
          assert !IsMarkOf(c, u)(typing[i]);
        }
      }
  }

  /** Delete the (c, u) mark if there is one. */
  function RemoveTypingMark(typing: seq<TypingMark>, c: ConvId, u: UserId): (r: seq<TypingMark>)
    ensures forall m :: !IsMarkOf(c, u)(m) ==> multiset(r)[m] == multiset(typing)[m]
    ensures (forall j :: 0 <= j < |typing| ==> !IsMarkOf(c, u)(typing[j])) ==> r == typing
    ensures TypingUnique(typing) ==> forall j :: 0 <= j < |r| ==> !IsMarkOf(c, u)(r[j])
  {
    match Seqs.FindFirst(typing, IsMarkOf(c, u))
    case Some(k) =>
      RemovedKeyGone(typing, c, u, k);
      Seqs.RemoveAt(typing, k)
    case None => typing
  }

  /** Under uniqueness, removing a mark of a key removes the key's only mark. */
  lemma RemovedKeyGone(typing: seq<TypingMark>, c: ConvId, u: UserId, k: nat)
    requires k < |typing| && IsMarkOf(c, u)(typing[k])
    ensures TypingUnique(typing) ==>
      var r := Seqs.RemoveAt(typing, k);
      forall j :: 0 <= j < |r| ==> !IsMarkOf(c, u)(r[j])
  {
    if TypingUnique(typing) {
      var r := Seqs.RemoveAt(typing, k);
      forall j | 0 <= j < |r| ensures !IsMarkOf(c, u)(r[j])
      {
        if j < k {
          assert (typing[j].conversationId, typing[j].userId) != (typing[k].conversationId, typing[k].userId);
        } else {
          assert r[j] == typing[j + 1];
          assert (typing[k].conversationId, typing[k].userId) != (typing[j + 1].conversationId, typing[j + 1].userId);
        }
      }
    }
  }

  /** After removal no mark of the key is left, and the rest stay unique. */
  lemma RemoveTypingMarkUnique(typing: seq<TypingMark>, c: ConvId, u: UserId)
    requires TypingUnique(typing)
    ensures var r := RemoveTypingMark(typing, c, u);
      && TypingUnique(r)
      && forall j :: 0 <= j < |r| ==> !IsMarkOf(c, u)(r[j])
  {
    var r := RemoveTypingMark(typing, c, u);
    match Seqs.FindFirst(typing, IsMarkOf(c, u))
    case Some(k) =>
      forall i, j | 0 <= i < j < |r|
        ensures (r[i].conversationId, r[i].userId) != (r[j].conversationId, r[j].userId)
      {
        var i' := if i < k then i else i + 1;
        var j' := if j < k then j else j + 1;
        assert r[i] == typing[i'] && r[j] == typing[j'] && i' < j';
      }
    case None =>
  }

  /** Start (`isTyping`) or stop typing in conversation `c`; a no-op without
      a resolved caller. The conversation's existence is not checked. */
  function SetTyping(s: Store, identity: Option<string>, c: ConvId, isTyping: bool, now: Time): (r: Store)
    ensures CurrentUser(s, identity).None? ==> r == s
    ensures r == s.(typing := r.typing)
    ensures CurrentUser(s, identity).Some? ==>
      forall m :: !IsMarkOf(c, CurrentUser(s, identity).value)(m) ==>
        multiset(r.typing)[m] == multiset(s.typing)[m]
    ensures CurrentUser(s, identity).Some? && isTyping ==>
      TypingMark(c, CurrentUser(s, identity).value, now) in r.typing
    ensures CurrentUser(s, identity).Some? && !isTyping &&
            (forall j :: 0 <= j < |s.typing| ==> !IsMarkOf(c, CurrentUser(s, identity).value)(s.typing[j])) ==>
      r == s
    ensures CurrentUser(s, identity).Some? && !isTyping && TypingUnique(s.typing) ==>
      forall j :: 0 <= j < |r.typing| ==> !IsMarkOf(c, CurrentUser(s, identity).value)(r.typing[j])
  {
    match CurrentUser(s, identity)
    case None => s
    case Some(me) =>
      if isTyping then s.(typing := RefreshTypingMark(s.typing, c, me, now))
      else s.(typing := RemoveTypingMark(s.typing, c, me))
  }

  /** `setTyping` keeps one mark per (conversation, user): after starting,
      the caller's only mark is stamped `now`; after stopping, it has none. */
  lemma SetTypingPreservesValid(s: Store, identity: Option<string>, c: ConvId, isTyping: bool, now: Time)
    requires Valid(s)
    ensures var r := SetTyping(s, identity, c, isTyping, now);
      && Valid(r)
      && (CurrentUser(s, identity).Some? ==>
            var me := CurrentUser(s, identity).value;
            forall j :: 0 <= j < |r.typing| && IsMarkOf(c, me)(r.typing[j]) ==>
              isTyping && r.typing[j] == TypingMark(c, me, now))
  {
    if CurrentUser(s, identity).Some? {
      var me := CurrentUser(s, identity).value;
      if isTyping {
        RefreshTypingMarkUnique(s.typing, c, me, now);
      } else {
        RemoveTypingMarkUnique(s.typing, c, me);
      }
    }
  }

  /** Marks of conversation `c` that are live at `now` and not the reader's own. */
  function IsActiveTyper(c: ConvId, me: UserId, now: Time): TypingMark -> bool
  {
    (t: TypingMark) => t.conversationId == c && IsLive(t, now) && t.userId != me
  }

  /** Some mark in `marks` belongs to user `u`. */
  ghost predicate MarksUser(marks: seq<TypingMark>, u: UserId)
  {
    exists j :: 0 <= j < |marks| && marks[j].userId == u
  }

  /** User `u` has a live mark in conversation `c` at `now`. */
  ghost predicate TypingIn(typing: seq<TypingMark>, c: ConvId, u: UserId, now: Time)
  {
    exists j :: 0 <= j < |typing| && typing[j].conversationId == c && typing[j].userId == u && IsLive(typing[j], now)
  }

  lemma MarksUserCons(marks: seq<TypingMark>, u: UserId)
    requires |marks| > 0
    ensures MarksUser(marks, u) <==> marks[0].userId == u || MarksUser(marks[1..], u)
  {
    if MarksUser(marks, u) {
      var j :| 0 <= j < |marks| && marks[j].userId == u;
      if j > 0 { assert marks[1..][j - 1].userId == u; }
    }
    if MarksUser(marks[1..], u) {
      var j :| 0 <= j < |marks[1..]| && marks[1..][j].userId == u;
      assert marks[j + 1].userId == u;
    }
  }

  /** A mark made by user `u`. */
  function MarkBy(u: UserId): TypingMark -> bool
  {
    (m: TypingMark) => m.userId == u
  }

  /** The user documents of the given marks, dropping marks whose user is
      missing (`users.filter(Boolean)`): one entry per mark of an existing
      user, in mark order. */
  function UsersOfMarks(s: Store, marks: seq<TypingMark>): (r: seq<Doc<User>>)
    ensures forall d :: d in r ==> d.id < |s.users| && d.value == s.users[d.id]
    ensures forall u :: 0 <= u < |s.users| ==> (Doc(u, s.users[u]) in r <==> MarksUser(marks, u))
  {
    if |marks| == 0 then []
    else
      var rest := UsersOfMarks(s, marks[1..]);
      var u := marks[0].userId;
      assert forall v :: MarksUser(marks, v) <==> v == u || MarksUser(marks[1..], v) by {
        forall v ensures MarksUser(marks, v) <==> v == u || MarksUser(marks[1..], v) {
          MarksUserCons(marks, v);
        }
      }
      if u < |s.users| then [Doc(u, s.users[u])] + rest else rest
  }

  /** There is one document per mark of an existing user. */
  lemma {:induction false} UsersOfMarksCount(s: Store, marks: seq<TypingMark>, u: UserId)
    requires u < |s.users|
    ensures multiset(UsersOfMarks(s, marks))[Doc(u, s.users[u])] == Seqs.Count(marks, MarkBy(u))
  {
    if |marks| > 0 {
      UsersOfMarksCount(s, marks[1..], u);
      Seqs.FilterCons(marks, MarkBy(u));
    }
  }

  /** Marks by pairwise different users give documents of pairwise different
      users. */
  lemma {:induction false} UsersOfMarksDistinct(s: Store, marks: seq<TypingMark>)
    ensures (forall i, j :: 0 <= i < j < |marks| ==> marks[i].userId != marks[j].userId) ==>
      forall i, j :: 0 <= i < j < |UsersOfMarks(s, marks)| ==> UsersOfMarks(s, marks)[i].id != UsersOfMarks(s, marks)[j].id
  {
    if |marks| > 0 && forall i, j :: 0 <= i < j < |marks| ==> marks[i].userId != marks[j].userId {
      var tail := marks[1..];
      assert forall i, j :: 0 <= i < j < |tail| ==> tail[i].userId != tail[j].userId by {
        forall i, j | 0 <= i < j < |tail| ensures tail[i].userId != tail[j].userId {
          assert tail[i] == marks[i + 1] && tail[j] == marks[j + 1];
        }
      }
      UsersOfMarksDistinct(s, tail);
      HeadNotListedAgain(s, marks);
      var rest := UsersOfMarks(s, tail);
      var r := UsersOfMarks(s, marks);
      if marks[0].userId < |s.users| {
        forall i, j | 0 <= i < j < |r| ensures r[i].id != r[j].id {
          assert r[j] == rest[j - 1] && rest[j - 1] in rest;
          if i > 0 {
            assert r[i] == rest[i - 1];
          }
        }
      }
    }
  }

  /** A user with no later mark is not among the documents of the later marks. */
  lemma HeadNotListedAgain(s: Store, marks: seq<TypingMark>)
    requires |marks| > 0
    requires forall j :: 0 < j < |marks| ==> marks[j].userId != marks[0].userId
    ensures forall d :: d in UsersOfMarks(s, marks[1..]) ==> d.id != marks[0].userId
  {
    var tail := marks[1..];
    forall d | d in UsersOfMarks(s, tail) ensures d.id != marks[0].userId {
      assert d == Doc(d.id, s.users[d.id]);
      assert MarksUser(tail, d.id);
      var m :| 0 <= m < |tail| && tail[m].userId == d.id;
      assert marks[m + 1] == tail[m];
    }
  }

  /** Two typing marks for different (conversation, user) keys. */
  predicate KeyDiffers(a: TypingMark, b: TypingMark)
  {
    (a.conversationId, a.userId) != (b.conversationId, b.userId)
  }

  /** Under unique marks, the marks kept for one conversation belong to
      pairwise different users. */
  lemma ActiveTypersDistinct(typing: seq<TypingMark>, c: ConvId, me: UserId, now: Time)
    ensures TypingUnique(typing) ==>
      var active := Seqs.Filter(typing, IsActiveTyper(c, me, now));
      forall i, j :: 0 <= i < j < |active| ==> active[i].userId != active[j].userId
  {
    if TypingUnique(typing) {
      var active := Seqs.Filter(typing, IsActiveTyper(c, me, now));
      Seqs.FilterPairwise(typing, IsActiveTyper(c, me, now), KeyDiffers);
      forall i, j | 0 <= i < j < |active| ensures active[i].userId != active[j].userId {
        assert active[i] in active && active[j] in active;
        assert KeyDiffers(active[i], active[j]);
      }
    }
  }

  /** Under unique marks, no user is listed twice as typing in `c`. */
  lemma TypingUsersDistinct(s: Store, c: ConvId, me: UserId, now: Time)
    ensures TypingUnique(s.typing) ==>
      forall j, k :: 0 <= j < k < |UsersOfMarks(s, Seqs.Filter(s.typing, IsActiveTyper(c, me, now)))| ==>
        UsersOfMarks(s, Seqs.Filter(s.typing, IsActiveTyper(c, me, now)))[j].id !=
        UsersOfMarks(s, Seqs.Filter(s.typing, IsActiveTyper(c, me, now)))[k].id
  {
    ActiveTypersDistinct(s.typing, c, me, now);
    UsersOfMarksDistinct(s, Seqs.Filter(s.typing, IsActiveTyper(c, me, now)));
  }

  /** The marks `getTypingUsers` keeps belong to exactly the other users typing live in `c`. */
  lemma ActiveTypers(typing: seq<TypingMark>, c: ConvId, me: UserId, now: Time, u: UserId)
    ensures MarksUser(Seqs.Filter(typing, IsActiveTyper(c, me, now)), u) <==> u != me && TypingIn(typing, c, u, now)
  {
    if MarksUser(Seqs.Filter(typing, IsActiveTyper(c, me, now)), u) {
      ActiveTyperIsTyping(typing, c, me, now, u);
    }
    if u != me && TypingIn(typing, c, u, now) {
      TypingIsActiveTyper(typing, c, me, now, u);
    }
  }

  lemma ActiveTyperIsTyping(typing: seq<TypingMark>, c: ConvId, me: UserId, now: Time, u: UserId)
    requires MarksUser(Seqs.Filter(typing, IsActiveTyper(c, me, now)), u)
    ensures u != me && TypingIn(typing, c, u, now)
  {
    var active := Seqs.Filter(typing, IsActiveTyper(c, me, now));
    var j :| 0 <= j < |active| && active[j].userId == u;
    assert active[j] in typing;
    var i :| 0 <= i < |typing| && typing[i] == active[j];
    assert typing[i].conversationId == c && typing[i].userId == u && IsLive(typing[i], now);
  }

  lemma TypingIsActiveTyper(typing: seq<TypingMark>, c: ConvId, me: UserId, now: Time, u: UserId)
    requires u != me && TypingIn(typing, c, u, now)
    ensures MarksUser(Seqs.Filter(typing, IsActiveTyper(c, me, now)), u)
  {
    var active := Seqs.Filter(typing, IsActiveTyper(c, me, now));
    var j :| 0 <= j < |typing| && typing[j].conversationId == c && typing[j].userId == u && IsLive(typing[j], now);
    assert IsActiveTyper(c, me, now)(typing[j]);
    assert typing[j] in active;
    var i :| 0 <= i < |active| && active[i] == typing[j];
    assert active[i].userId == u;
  }

  /** The users typing in conversation `c` at `now`, other than the caller:
      those with a mark younger than the liveness window and an existing
      user record. Empty without a resolved caller. */
  function GetTypingUsers(s: Store, identity: Option<string>, c: ConvId, now: Time): (r: seq<Doc<User>>)
    ensures CurrentUser(s, identity).None? ==> r == []
    ensures forall d :: d in r ==> d.id < |s.users| && d.value == s.users[d.id]
    ensures CurrentUser(s, identity).Some? ==>
      forall u :: 0 <= u < |s.users| ==>
        (Doc(u, s.users[u]) in r <==> u != CurrentUser(s, identity).value && TypingIn(s.typing, c, u, now))
    ensures CurrentUser(s, identity).Some? && TypingUnique(s.typing) ==>
      forall j, k :: 0 <= j < k < |r| ==> r[j].id != r[k].id
  {
    match CurrentUser(s, identity)
    case None => []
    case Some(me) =>
      TypingUsersDistinct(s, c, me, now);
      var r := UsersOfMarks(s, Seqs.Filter(s.typing, IsActiveTyper(c, me, now)));
      assert forall u :: 0 <= u < |s.users| ==> (Doc(u, s.users[u]) in r <==> u != me && TypingIn(s.typing, c, u, now)) by {
        forall u | 0 <= u < |s.users| ensures Doc(u, s.users[u]) in r <==> u != me && TypingIn(s.typing, c, u, now) {
          ActiveTypers(s.typing, c, me, now, u);
        }
      }
      r
  }

  /** A user who signalled typing once at `t0` and then went silent is listed
      to another participant 1900 ms later, but no longer at exactly 2000 ms
      or at 2100 ms: expiry needs no "stop typing" call. */
  lemma TypingExpiresScenario(s: Store, idA: Option<string>, idB: Option<string>, c: ConvId, t0: Time)
    requires TypingUnique(s.typing)
    requires CurrentUser(s, idA).Some? && CurrentUser(s, idB).Some?
    requires CurrentUser(s, idA) != CurrentUser(s, idB)
    ensures var a := CurrentUser(s, idA).value;
            var s1 := SetTyping(s, idA, c, true, t0);
            && Doc(a, s.users[a]) in GetTypingUsers(s1, idB, c, t0 + 1900)
            && Doc(a, s.users[a]) !in GetTypingUsers(s1, idB, c, t0 + 2000)
            && Doc(a, s.users[a]) !in GetTypingUsers(s1, idB, c, t0 + 2100)
  {
    var a := CurrentUser(s, idA).value;
    var s1 := SetTyping(s, idA, c, true, t0);
    assert s1 == s.(typing := RefreshTypingMark(s.typing, c, a, t0));
    assert CurrentUser(s1, idB) == CurrentUser(s, idB) by {
      assert s1.users == s.users;
    }
    RefreshedTypingIn(s.typing, c, a, t0, t0 + 1900);
    RefreshedTypingIn(s.typing, c, a, t0, t0 + 2000);
    RefreshedTypingIn(s.typing, c, a, t0, t0 + 2100);
  }

  /** Right after a refresh, a user counts as typing exactly while the
      refreshed mark is live. */
  lemma RefreshedTypingIn(typing: seq<TypingMark>, c: ConvId, u: UserId, t0: Time, now: Time)
    requires TypingUnique(typing)
    ensures TypingIn(RefreshTypingMark(typing, c, u, t0), c, u, now) <==> t0 > now - LivenessWindow
  {
    var r := RefreshTypingMark(typing, c, u, t0);
    RefreshTypingMarkUnique(typing, c, u, t0);
    var k :| 0 <= k < |r| && r[k] == TypingMark(c, u, t0);
    if t0 > now - LivenessWindow {
      assert IsLive(r[k], now);
    }
  }
}
