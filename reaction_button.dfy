/**
 * The reaction summary of src/components/ReactionButton.tsx: the total number of reactions on
 * a post, the most common reaction, and what the button shows.
 */
module ReactionButton {
  import opened Wrappers
  import opened Posts

  /** One entry of the reaction picker. */
  datatype ReactionOption = ReactionOption(kind: Reaction, emoji: string, title: string)

  const ReactionOptions: seq<ReactionOption> := [
    ReactionOption(Like, "\U{1F44D}", "Like"),
    ReactionOption(Love, "\U{2764}\U{FE0F}", "Love"),
    ReactionOption(Haha, "\U{1F602}", "Haha"),
    ReactionOption(Wow, "\U{1F62E}", "Wow"),
    ReactionOption(Sad, "\U{1F622}", "Sad"),
    ReactionOption(Angry, "\U{1F620}", "Angry")
  ]

  /** The picker lists the six kinds once each, in the key order of a post's reaction record, with distinct emoji. */
  lemma ReactionOptionsInKeyOrder()
    ensures |ReactionOptions| == |ReactionKinds| == 6
    ensures forall i :: 0 <= i < 6 ==> ReactionOptions[i].kind == ReactionKinds[i]
    ensures forall i, j :: 0 <= i < j < 6 ==>
      ReactionOptions[i].kind != ReactionOptions[j].kind && ReactionOptions[i].emoji != ReactionOptions[j].emoji
  {
  }

  /** `reactionOptions.find(r => r.type === k)`: always present, since every kind is listed. */
  function OptionFor(k: Reaction): (r: ReactionOption)
    ensures r in ReactionOptions && r.kind == k
  {
    ReactionOptions[Rank(k)]
  }

  // ---------------------------------------------------------------------------------------
  // totalReactions (line 34)
  // ---------------------------------------------------------------------------------------

  /** `reduce((sum, count) => sum + count, 0)` over the counts of `kinds`, left to right. */
  function SumCounts(rs: Reactions, kinds: seq<Reaction>): int
    decreases |kinds|
  {
    if kinds == [] then 0
    else SumCounts(rs, kinds[..|kinds| - 1]) + rs.Get(kinds[|kinds| - 1])
  }

  function Total(rs: Reactions): (t: int)
    ensures t == rs.like + rs.love + rs.haha + rs.wow + rs.sad + rs.angry
  {
    var ks := ReactionKinds;
    assert ks[..1][..0] == [];
    assert SumCounts(rs, ks[..1]) == rs.like;
    assert ks[..2][..1] == ks[..1];
    assert SumCounts(rs, ks[..2]) == rs.like + rs.love;
    assert ks[..3][..2] == ks[..2];
    assert SumCounts(rs, ks[..3]) == rs.like + rs.love + rs.haha;
    assert ks[..4][..3] == ks[..3];
    assert SumCounts(rs, ks[..4]) == rs.like + rs.love + rs.haha + rs.wow;
    assert ks[..5][..4] == ks[..4];
    assert SumCounts(rs, ks[..5]) == rs.like + rs.love + rs.haha + rs.wow + rs.sad;
    assert ks[..5] == ks[..|ks| - 1];
    SumCounts(rs, ReactionKinds)
  }

  // ---------------------------------------------------------------------------------------
  // topReaction / maxCount (lines 37-45)
  // ---------------------------------------------------------------------------------------

  /** The two variables of the search: `topReaction` and `maxCount`. */
  datatype Leader = Leader(top: Option<Reaction>, maxCount: int)

  /** One iteration: a strictly greater count takes the lead. */
  function Visit(acc: Leader, k: Reaction, count: int): Leader
  {
    if count > acc.maxCount then Leader(Some(k), count) else acc
  }

  /** The search over `kinds` in order, from `topReaction = null`, `maxCount = 0`. */
  function Search(rs: Reactions, kinds: seq<Reaction>): Leader
    decreases |kinds|
  {
    if kinds == [] then Leader(None, 0)
    else Visit(Search(rs, kinds[..|kinds| - 1]), kinds[|kinds| - 1], rs.Get(kinds[|kinds| - 1]))
  }

  function TopReactionOf(rs: Reactions): Option<Reaction>
  {
    Search(rs, ReactionKinds).top
  }

  /**
   * `k` is the top reaction: its count is positive, no count is greater, and every kind
   * before it in key order has a strictly smaller count (ties go to the earliest kind).
   */
  ghost predicate IsTop(rs: Reactions, k: Reaction)
  {
    && rs.Get(k) > 0
    && (forall j :: rs.Get(j) <= rs.Get(k))
    && (forall j :: Rank(j) < Rank(k) ==> rs.Get(j) < rs.Get(k))
  }

  /** At most one kind is the top reaction. */
  lemma TopIsUnique(rs: Reactions, a: Reaction, b: Reaction)
    requires IsTop(rs, a) && IsTop(rs, b)
    ensures a == b
  {
    assert rs.Get(a) == rs.Get(b);
    assert ReactionKinds[Rank(a)] == a && ReactionKinds[Rank(b)] == b;
  }

  /** What the search has established after visiting the first `n` kinds. */
  lemma {:induction false} SearchPrefix(rs: Reactions, n: nat)
    requires n <= |ReactionKinds|
    ensures var acc := Search(rs, ReactionKinds[..n]);
            && acc.maxCount >= 0
            && (forall j :: 0 <= j < n ==> rs.Get(ReactionKinds[j]) <= acc.maxCount)
            && (acc.top.None? ==> acc.maxCount == 0)
            && (acc.top.Some? ==>
                  && Rank(acc.top.value) < n && rs.Get(acc.top.value) == acc.maxCount > 0
                  && forall j :: 0 <= j < Rank(acc.top.value) ==> rs.Get(ReactionKinds[j]) < acc.maxCount)
  {
    if n > 0 {
      var ks := ReactionKinds[..n];
      assert ks[..n - 1] == ReactionKinds[..n - 1];
      SearchPrefix(rs, n - 1);
    }
  }

  /**
   * The search finds exactly the top reaction, and finds none exactly when no count is
   * positive; `maxCount` ends as the largest count, or 0.
   */
  lemma TopReactionOfIsTop(rs: Reactions)
    ensures forall k :: TopReactionOf(rs) == Some(k) <==> IsTop(rs, k)
    ensures TopReactionOf(rs).None? <==> forall k :: rs.Get(k) <= 0
    ensures forall k :: rs.Get(k) <= Search(rs, ReactionKinds).maxCount
  {
    SearchPrefix(rs, 6);
    assert ReactionKinds[..6] == ReactionKinds;
    var acc := Search(rs, ReactionKinds);
    forall k ensures rs.Get(k) <= acc.maxCount {
      assert ReactionKinds[Rank(k)] == k;
    }
    match acc.top
    case Some(t) =>
      forall j | Rank(j) < Rank(t) ensures rs.Get(j) < rs.Get(t) {
        assert ReactionKinds[Rank(j)] == j;
      }
      assert IsTop(rs, t);
      forall k | IsTop(rs, k) ensures k == t {
        TopIsUnique(rs, k, t);
      }
    case None =>
  }

  /** The loop of lines 40-45, visiting the kinds in key order. */
  method TopReaction(rs: Reactions) returns (top: Option<Reaction>, maxCount: int)
    ensures top == TopReactionOf(rs)
    ensures forall k :: top == Some(k) <==> IsTop(rs, k)
    ensures top.None? <==> forall k :: rs.Get(k) <= 0
    ensures maxCount >= 0 && forall k :: rs.Get(k) <= maxCount
    ensures top.Some? ==> maxCount == rs.Get(top.value)
  {
    top, maxCount := None, 0;
    var i := 0;
    while i < |ReactionKinds|
      invariant 0 <= i <= |ReactionKinds|
      invariant Leader(top, maxCount) == Search(rs, ReactionKinds[..i])
    {
      var k := ReactionKinds[i];
      assert ReactionKinds[..i + 1][..i] == ReactionKinds[..i];
      if rs.Get(k) > maxCount {
        maxCount := rs.Get(k);
        top := Some(OptionFor(k).kind);
      }
      i := i + 1;
    }
    assert ReactionKinds[..i] == ReactionKinds;
    TopReactionOfIsTop(rs);
    SearchPrefix(rs, 6);
  }

  /** A positive total always has a top reaction; with non-negative counts the converse holds too. */
  lemma TotalAndTop(rs: Reactions)
    ensures Total(rs) > 0 ==> TopReactionOf(rs).Some?
    ensures rs.NonNegative() ==> (Total(rs) > 0 <==> TopReactionOf(rs).Some?)
  {
    TopReactionOfIsTop(rs);
    if TopReactionOf(rs).None? {
      assert forall k :: rs.Get(k) <= 0;
      assert rs.Get(Like) <= 0 && rs.Get(Love) <= 0 && rs.Get(Haha) <= 0;
      assert rs.Get(Wow) <= 0 && rs.Get(Sad) <= 0 && rs.Get(Angry) <= 0;
    } else if rs.NonNegative() {
      var t := TopReactionOf(rs).value;
      assert rs.Get(t) > 0;
      assert rs.Get(Like) >= 0 && rs.Get(Love) >= 0 && rs.Get(Haha) >= 0;
      assert rs.Get(Wow) >= 0 && rs.Get(Sad) >= 0 && rs.Get(Angry) >= 0;
    }
  }

  // ---------------------------------------------------------------------------------------
  // What the button shows (lines 56-65)
  // ---------------------------------------------------------------------------------------

  datatype Icon = Emoji(glyph: string) | SmileIcon

  /** The trigger's face: an icon, and the total as a badge when there is one. */
  datatype Face = Face(icon: Icon, badge: Option<int>)

  function ButtonFace(selected: Option<Reaction>, rs: Reactions): (f: Face)
    ensures f.badge.Some? <==> Total(rs) > 0
    ensures f.badge.Some? ==> f.badge.value == rs.like + rs.love + rs.haha + rs.wow + rs.sad + rs.angry
    ensures selected.Some? ==> f.icon == Emoji(OptionFor(selected.value).emoji)
    ensures selected.None? && Total(rs) > 0 ==> TopReactionOf(rs).Some? && f.icon == Emoji(OptionFor(TopReactionOf(rs).value).emoji)
    ensures selected.None? && Total(rs) <= 0 ==> f.icon == SmileIcon
  {
    TotalAndTop(rs);
    var icon :=
      if selected.Some? then Emoji(OptionFor(selected.value).emoji)
      else if Total(rs) > 0 && TopReactionOf(rs).Some? then Emoji(OptionFor(TopReactionOf(rs).value).emoji)
      else SmileIcon;
    Face(icon, if Total(rs) > 0 then Some(Total(rs)) else None)
  }

  /**
   * With no selection and non-negative counts, the button shows the default icon exactly when
   * the post has no reactions, and otherwise the emoji of the top reaction.
   */
  lemma FaceWithoutSelection(rs: Reactions)
    requires rs.NonNegative()
    ensures ButtonFace(None, rs).icon == SmileIcon <==> forall k :: rs.Get(k) == 0
    ensures forall k :: IsTop(rs, k) ==> ButtonFace(None, rs).icon == Emoji(OptionFor(k).emoji)
  {
    TotalAndTop(rs);
    TopReactionOfIsTop(rs);
    ReactionOptionsInKeyOrder();
    if ButtonFace(None, rs).icon == SmileIcon {
      assert Total(rs) <= 0;
    } else {
      var t := TopReactionOf(rs).value;
      assert rs.Get(t) > 0;
    }
  }
}
