/** How one message is rendered: the soft-delete mask, the delete and
    reaction-picker affordances, and the per-emoji reaction groups. */
module MessageItem {
  import opened Wrappers
  import opened Schema
  import Messages

  /** Shown instead of the body of a soft-deleted message. */
  const DeletedPlaceholder: string := "This message was deleted"

  /** `!!message.deletedAt`: JavaScript truthiness, so a deletion time of 0
      reads as "not deleted". */
  function IsDeleted(m: Message): (r: bool)
    ensures m.deletedAt.None? ==> !r
    ensures m.deletedAt == Some(0) ==> !r
    ensures r <== (m.deletedAt.Some? && m.deletedAt.value > 0)
  {
    m.deletedAt.Some? && m.deletedAt.value != 0
  }

  /** The text in the message bubble. */
  function DisplayedBody(m: Message): (r: string)
    ensures r == m.body || r == DeletedPlaceholder
    ensures IsDeleted(m) ==> r == DeletedPlaceholder
    ensures m.deletedAt.None? ==> r == m.body
  {
    if IsDeleted(m) then DeletedPlaceholder else m.body
  }

  /** The delete button is offered on the viewer's own, live messages. */
  function ShowsDeleteButton(isOwn: bool, m: Message): (r: bool)
    ensures r ==> isOwn && DisplayedBody(m) == m.body
    ensures isOwn && m.deletedAt.None? ==> r
  {
    isOwn && !IsDeleted(m)
  }

  /** Double-clicking a live message toggles the emoji picker; on a deleted
      message it does nothing. */
  function OnDoubleClick(showReactions: bool, m: Message): (r: bool)
    ensures r != showReactions <==> !IsDeleted(m)
  {
    if IsDeleted(m) then showReactions else !showReactions
  }

  /** The emoji picker is drawn only for a live message. */
  function ShowsPicker(showReactions: bool, m: Message): (r: bool)
    ensures r ==> showReactions && DisplayedBody(m) == m.body
    ensures showReactions && m.deletedAt.None? ==> r
  {
    showReactions && !IsDeleted(m)
  }

  /** Two double-clicks restore the picker state, and some picker state
      shows the picker, before or after a double-click, iff the message is
      live. */
  lemma DoubleClickTwice(show: bool, m: Message)
    ensures OnDoubleClick(OnDoubleClick(show, m), m) == show
    ensures ShowsPicker(show, m) || ShowsPicker(OnDoubleClick(show, m), m) <==> !IsDeleted(m)
  {
  }

  /** After a successful soft delete (at a non-zero time) the message is
      still listed with its body stored, but readers see the placeholder, no
      delete button, and no picker, however the picker state got there. */
  lemma DeletedMessageIsMasked(s: Store, identity: Option<string>, id: MsgId, now: Time)
    requires Messages.DeleteMessage(s, identity, id, now).Ok?
    requires now != 0
    ensures var t := Messages.DeleteMessage(s, identity, id, now).value;
            var m := t.messages[id];
            && m.body == s.messages[id].body
            && DisplayedBody(m) == DeletedPlaceholder
            && (forall isOwn: bool :: !ShowsDeleteButton(isOwn, m))
            && (forall show: bool :: !ShowsPicker(show, m) && !ShowsPicker(OnDoubleClick(show, m), m))
  {
  }

  /** A message that is not deleted shows its body and offers the picker
      after a double-click from the closed state. */
  lemma LiveMessageShowsBody(m: Message)
    requires m.deletedAt.None?
    ensures DisplayedBody(m) == m.body
    ensures ShowsPicker(OnDoubleClick(false, m), m)
    ensures forall isOwn: bool :: ShowsDeleteButton(isOwn, m) == isOwn
  {
  }

  // ---------------------------------------------------------------------------
  // Reaction groups

  /** One chip of the reactions row: an emoji, how many reacted with it, and
      whether the viewer is among them. */
  datatype ReactionGroup = ReactionGroup(emoji: string, count: nat, isMine: bool)

  /** How many entries of `rs` carry emoji `e`. */
  function CountEmoji(rs: seq<Reaction>, e: string): (r: nat)
  {
    if |rs| == 0 then 0 else (if rs[0].emoji == e then 1 else 0) + CountEmoji(rs[1..], e)
  }

  lemma {:induction false} CountEmojiSnoc(rs: seq<Reaction>, x: Reaction, e: string)
    ensures CountEmoji(rs + [x], e) == CountEmoji(rs, e) + (if x.emoji == e then 1 else 0)
  {
    if |rs| > 0 {
      assert (rs + [x])[1..] == rs[1..] + [x];
      CountEmojiSnoc(rs[1..], x, e);
    } else {
      assert [x][1..] == [];
    }
  }

  lemma {:induction false} CountEmojiAbsent(rs: seq<Reaction>, e: string)
    requires forall j :: 0 <= j < |rs| ==> rs[j].emoji != e
    ensures CountEmoji(rs, e) == 0
  {
    if |rs| > 0 {
      CountEmojiAbsent(rs[1..], e);
    }
  }

  /** Some entry with emoji `e` belongs to the viewer (`r.userId === currentUserId`;
      never when the viewer is unknown). */
  ghost predicate MineFor(rs: seq<Reaction>, e: string, viewer: Option<UserId>)
  {
    exists j :: 0 <= j < |rs| && rs[j].emoji == e && viewer == Some(rs[j].userId)
  }

  function SumCounts(groups: seq<ReactionGroup>): (r: nat)
  {
    if |groups| == 0 then 0 else groups[0].count + SumCounts(groups[1..])
  }

  lemma {:induction false} SumCountsSnoc(groups: seq<ReactionGroup>, g: ReactionGroup)
    ensures SumCounts(groups + [g]) == SumCounts(groups) + g.count
  {
    if |groups| > 0 {
      assert (groups + [g])[1..] == groups[1..] + [g];
      SumCountsSnoc(groups[1..], g);
    }
  }

  lemma {:induction false} SumCountsBump(groups: seq<ReactionGroup>, k: nat, g: ReactionGroup)
    requires k < |groups| && g.count == groups[k].count + 1
    ensures SumCounts(groups[k := g]) == SumCounts(groups) + 1
  {
    if k > 0 {
      assert groups[k := g][1..] == groups[1..][k - 1 := g];
      SumCountsBump(groups[1..], k - 1, g);
    }
  }

  /** The position of the group for emoji `e` (the `reactionGroups[e]`
      lookup), or `|groups|` when there is none yet. */
  function GroupIndex(groups: seq<ReactionGroup>, e: string): (k: nat)
    ensures k <= |groups|
    ensures k < |groups| ==> groups[k].emoji == e
    ensures k == |groups| ==> forall j :: 0 <= j < |groups| ==> groups[j].emoji != e
  {
    if |groups| == 0 then 0
    else if groups[0].emoji == e then 0
    else 1 + GroupIndex(groups[1..], e)
  }

  /** `groups` is the grouping of `rs` for `viewer`: one group per distinct
      emoji, each with its count and its "mine" flag. */
  ghost predicate GroupsOf(groups: seq<ReactionGroup>, rs: seq<Reaction>, viewer: Option<UserId>)
  {
    && (forall i, j :: 0 <= i < j < |groups| ==> groups[i].emoji != groups[j].emoji)
    && (forall k :: 0 <= k < |groups| ==>
          && groups[k].count == CountEmoji(rs, groups[k].emoji)
          && groups[k].count >= 1
          && (groups[k].isMine <==> MineFor(rs, groups[k].emoji, viewer)))
    && (forall j :: 0 <= j < |rs| ==> exists k :: 0 <= k < |groups| && groups[k].emoji == rs[j].emoji)
  }

  lemma MineForSnoc(rs: seq<Reaction>, x: Reaction, e: string, viewer: Option<UserId>)
    ensures MineFor(rs + [x], e, viewer) <==> MineFor(rs, e, viewer) || (x.emoji == e && viewer == Some(x.userId))
  {
    var rs' := rs + [x];
    if MineFor(rs', e, viewer) {
      var j :| 0 <= j < |rs'| && rs'[j].emoji == e && viewer == Some(rs'[j].userId);
      if j < |rs| { assert rs[j] == rs'[j]; }
    }
    if MineFor(rs, e, viewer) {
      var j :| 0 <= j < |rs| && rs[j].emoji == e && viewer == Some(rs[j].userId);
      assert rs'[j] == rs[j];
    }
    if x.emoji == e && viewer == Some(x.userId) {
      assert rs'[|rs|] == x;
    }
  }

  /** One pass of the grouping loop: find or create the group of `x`'s
      emoji, count `x`, and flag the group when `x` is the viewer's. */
  function AddReaction(groups: seq<ReactionGroup>, x: Reaction, viewer: Option<UserId>): (r: seq<ReactionGroup>)
  {
    var gs := if GroupIndex(groups, x.emoji) == |groups| then groups + [ReactionGroup(x.emoji, 0, false)] else groups;
    var k := GroupIndex(groups, x.emoji);
    gs[k := gs[k].(count := gs[k].count + 1, isMine := gs[k].isMine || viewer == Some(x.userId))]
  }

  /** Counting one more reaction adds one to the total. */
  lemma AddReactionSum(groups: seq<ReactionGroup>, x: Reaction, viewer: Option<UserId>)
    ensures SumCounts(AddReaction(groups, x, viewer)) == SumCounts(groups) + 1
  {
    var k := GroupIndex(groups, x.emoji);
    var gs := if k == |groups| then groups + [ReactionGroup(x.emoji, 0, false)] else groups;
    if k == |groups| {
      SumCountsSnoc(groups, ReactionGroup(x.emoji, 0, false));
    }
    SumCountsBump(gs, k, gs[k].(count := gs[k].count + 1, isMine := gs[k].isMine || viewer == Some(x.userId)));
  }

  /** One pass of the loop extends the grouping of `rs` to that of `rs + [x]`. */
  lemma AddReactionGroups(groups: seq<ReactionGroup>, rs: seq<Reaction>, x: Reaction, viewer: Option<UserId>)
    requires GroupsOf(groups, rs, viewer)
    ensures GroupsOf(AddReaction(groups, x, viewer), rs + [x], viewer)
  {
    var k := GroupIndex(groups, x.emoji);
    var r := AddReaction(groups, x, viewer);
    AddReactionCounts(groups, rs, x, viewer);
    forall j | 0 <= j < |rs + [x]|
      ensures exists k' :: 0 <= k' < |r| && r[k'].emoji == (rs + [x])[j].emoji
    {
      if j == |rs| {
        assert r[k].emoji == x.emoji;
      } else {
        assert (rs + [x])[j] == rs[j];
        var k' :| 0 <= k' < |groups| && groups[k'].emoji == rs[j].emoji;
        assert r[k'].emoji == groups[k'].emoji;
      }
    }
  }

  /** One pass of the loop keeps emojis distinct and every count and flag exact. */
  lemma AddReactionCounts(groups: seq<ReactionGroup>, rs: seq<Reaction>, x: Reaction, viewer: Option<UserId>)
    requires GroupsOf(groups, rs, viewer)
    ensures var r := AddReaction(groups, x, viewer);
      && (forall i, j :: 0 <= i < j < |r| ==> r[i].emoji != r[j].emoji)
      && forall j :: 0 <= j < |r| ==>
           && r[j].count == CountEmoji(rs + [x], r[j].emoji)
           && r[j].count >= 1
           && (r[j].isMine <==> MineFor(rs + [x], r[j].emoji, viewer))
  {
    var k := GroupIndex(groups, x.emoji);
    var gs := if k == |groups| then groups + [ReactionGroup(x.emoji, 0, false)] else groups;
    var r := AddReaction(groups, x, viewer);
    if k == |groups| {
      assert forall j :: 0 <= j < |rs| ==> rs[j].emoji != x.emoji;
      CountEmojiAbsent(rs, x.emoji);
    }
    assert gs[k].count == CountEmoji(rs, x.emoji);
    assert gs[k].isMine <==> MineFor(rs, x.emoji, viewer);
    forall j | 0 <= j < |r|
      ensures r[j].count == CountEmoji(rs + [x], r[j].emoji)
      ensures r[j].count >= 1
      ensures r[j].isMine <==> MineFor(rs + [x], r[j].emoji, viewer)
    {
      CountEmojiSnoc(rs, x, r[j].emoji);
      MineForSnoc(rs, x, r[j].emoji, viewer);
    }
  }

  /** Group a message's reactions by emoji for display (`message.reactions ?? []`). */
  method GroupReactions(reactions: Option<seq<Reaction>>, viewer: Option<UserId>) returns (groups: seq<ReactionGroup>)
    ensures GroupsOf(groups, reactions.GetOr([]), viewer)
    ensures SumCounts(groups) == |reactions.GetOr([])|
  {
    var rs := reactions.GetOr([]);
    groups := [];
    var i := 0;
    while i < |rs|
      invariant 0 <= i <= |rs|
      invariant GroupsOf(groups, rs[..i], viewer)
      invariant SumCounts(groups) == i
    {
      assert rs[..i + 1] == rs[..i] + [rs[i]];
      AddReactionGroups(groups, rs[..i], rs[i], viewer);
      AddReactionSum(groups, rs[i], viewer);
      groups := AddReaction(groups, rs[i], viewer);
      i := i + 1;
    }
    assert rs[..i] == rs;
  }
}
