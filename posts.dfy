/**
 * The client-side post store of src/hooks/usePosts.ts: one shared, newest-first list of
 * posts, a per-(user, post) ledger of votes and of reactions, the per-user time of the last
 * post, and the 69-second posting cooldown.
 *
 * Each operation is given twice: as a pure transition function over `StoreState`, about which
 * the lemmas below are proved, and as a method of the class `PostStore`, which updates its
 * fields in place as the hook does and is proved to produce exactly that transition.
 */
module Posts {
  import opened Wrappers

  type UserId = string
  type PostId = string

  datatype Vote = Upvote | Downvote

  datatype Reaction = Like | Love | Haha | Wow | Sad | Angry

  /** The key order of every post's reaction record, as `addPost` creates it. */
  const ReactionKinds: seq<Reaction> := [Like, Love, Haha, Wow, Sad, Angry]

  /** Position of a reaction kind in `ReactionKinds`. */
  function Rank(k: Reaction): (i: nat)
    ensures i < |ReactionKinds| && ReactionKinds[i] == k
  {
    match k
    case Like => 0
    case Love => 1
    case Haha => 2
    case Wow => 3
    case Sad => 4
    case Angry => 5
  }

  /** The six reaction counters of one post. */
  datatype Reactions = Reactions(like: int, love: int, haha: int, wow: int, sad: int, angry: int)
  {
    /** `reactions[k]` */
    function Get(k: Reaction): int
    {
      match k
      case Like => like
      case Love => love
      case Haha => haha
      case Wow => wow
      case Sad => sad
      case Angry => angry
    }

    /** `reactions[k] = n` on a copy */
    function With(k: Reaction, n: int): (r: Reactions)
      ensures r.Get(k) == n
      ensures forall j :: j != k ==> r.Get(j) == Get(j)
    {
      match k
      case Like => this.(like := n)
      case Love => this.(love := n)
      case Haha => this.(haha := n)
      case Wow => this.(wow := n)
      case Sad => this.(sad := n)
      case Angry => this.(angry := n)
    }

    predicate NonNegative()
    {
      forall k :: Get(k) >= 0
    }
  }

  const NoReactions: Reactions := Reactions(0, 0, 0, 0, 0, 0)

  /** A post; `createdAt` is a time in milliseconds. */
  datatype Post = Post(
    id: PostId,
    userId: UserId,
    content: string,
    createdAt: int,
    upvotes: int,
    downvotes: int,
    reactions: Reactions)

  predicate NonNegativeCounters(p: Post)
  {
    p.upvotes >= 0 && p.downvotes >= 0 && p.reactions.NonNegative()
  }

  predicate UniqueIds(posts: seq<Post>)
  {
    forall i, j :: 0 <= i < j < |posts| ==> posts[i].id != posts[j].id
  }

  /** The post that `addPost` builds: the caller's id, zero votes and zero reactions. */
  function NewPost(id: PostId, user: UserId, content: string, now: int): Post
  {
    Post(id, user, content, now, 0, 0, NoReactions)
  }

  const FirstSeedText: string := "Just discovered this platform. Love the anonymity!"
  const SecondSeedText: string :=
    "Freedom of expression without judgment. Finally a place where thoughts matter more than identity."
  const ThirdSeedText: string :=
    "Is anyone else concerned about the state of privacy online? Even with anonymity, how secure are we really?"

  /** The three seed posts used when nothing is stored; `loadedAt` stands for `Date.now()`. */
  function InitialPosts(loadedAt: int): seq<Post>
  {
    [ Post("1", "anon123", FirstSeedText, loadedAt - 1000 * 60 * 60 * 2, 15, 2, Reactions(5, 3, 0, 1, 0, 0)),
      Post("2", "anon456", SecondSeedText, loadedAt - 1000 * 60 * 30, 8, 1, Reactions(2, 4, 0, 0, 0, 0)),
      Post("3", "anon789", ThirdSeedText, loadedAt - 1000 * 60 * 10, 4, 0, Reactions(1, 0, 0, 2, 1, 0)) ]
  }

  lemma InitialPostsValid(loadedAt: int)
    ensures |InitialPosts(loadedAt)| == 3
    ensures UniqueIds(InitialPosts(loadedAt))
    ensures forall i :: 0 <= i < 3 ==> NonNegativeCounters(InitialPosts(loadedAt)[i])
  {
  }

  // ---------------------------------------------------------------------------------------
  // Counter arithmetic shared by votes and reactions
  // ---------------------------------------------------------------------------------------

  /** `Math.max(0, n - 1)` */
  function FlooredDecrement(n: int): (r: int)
    ensures r >= 0
    ensures n >= 1 ==> r == n - 1
    ensures n < 1 ==> r == 0
  {
    if n - 1 > 0 then n - 1 else 0
  }

  /**
   * The ledger entry after choosing `choice`: choosing the current selection again clears it,
   * anything else makes `choice` the selection.
   */
  function NextSelection<T(==)>(existing: Option<T>, choice: T): (r: Option<T>)
    ensures r.None? <==> existing == Some(choice)
    ensures r.Some? ==> r.value == choice
  {
    if existing == Some(choice) then None else Some(choice)
  }

  /** 1 when the ledger entry `entry` is the selection `k`, else 0: what one user contributes to k's counter. */
  function Held<T(==)>(entry: Option<T>, k: T): int
  {
    if entry == Some(k) then 1 else 0
  }

  // ---------------------------------------------------------------------------------------
  // The vote protocol (votePost, lines 163-191)
  // ---------------------------------------------------------------------------------------

  /**
   * The post after one user chooses `choice` while their ledger entry is `existing`:
   * the same vote again is taken back, the opposite vote is switched, a first vote is added.
   */
  function CastVote(post: Post, existing: Option<Vote>, choice: Vote): (r: Post)
    ensures r == post.(upvotes := r.upvotes, downvotes := r.downvotes)
    ensures NonNegativeCounters(post) ==> NonNegativeCounters(r)
  {
    if existing == Some(choice) then
      if choice == Upvote then post.(upvotes := FlooredDecrement(post.upvotes))
      else post.(downvotes := FlooredDecrement(post.downvotes))
    else if existing.Some? then
      if choice == Upvote then
        post.(upvotes := post.upvotes + 1, downvotes := FlooredDecrement(post.downvotes))
      else
        post.(downvotes := post.downvotes + 1, upvotes := FlooredDecrement(post.upvotes))
    else
      if choice == Upvote then post.(upvotes := post.upvotes + 1)
      else post.(downvotes := post.downvotes + 1)
  }

  /**
   * Exact accounting for one user: when each counter covers at least what this user's entry
   * contributes to it, a vote changes every counter by exactly the change of this user's
   * contribution, so no floor is ever hit, and the coverage is kept.
   */
  lemma VoteAccounting(post: Post, existing: Option<Vote>, choice: Vote)
    requires post.upvotes >= Held(existing, Upvote) && post.downvotes >= Held(existing, Downvote)
    ensures CastVote(post, existing, choice).upvotes - Held(NextSelection(existing, choice), Upvote)
            == post.upvotes - Held(existing, Upvote)
    ensures CastVote(post, existing, choice).downvotes - Held(NextSelection(existing, choice), Downvote)
            == post.downvotes - Held(existing, Downvote)
  {
    match existing
    case None =>
    case Some(v) =>
      if v == choice {
        assert NextSelection(existing, choice) == None;
      } else {
        assert NextSelection(existing, choice) == Some(choice);
      }
  }

  /** Voting the same way twice, starting from no vote, restores the counters and the empty entry. */
  lemma VoteTwiceRestores(post: Post, choice: Vote)
    requires post.upvotes >= 0 && post.downvotes >= 0
    ensures var once := CastVote(post, None, choice);
            var entry := NextSelection(None, choice);
            CastVote(once, entry, choice) == post && NextSelection(entry, choice) == None
  {
  }

  /** A user's successive votes on one post: the post and the user's final ledger entry. */
  function ReplayVotes(post: Post, entry: Option<Vote>, choices: seq<Vote>): (Post, Option<Vote>)
    decreases |choices|
  {
    if choices == [] then (post, entry)
    else ReplayVotes(CastVote(post, entry, choices[0]), NextSelection(entry, choices[0]), choices[1..])
  }

  /**
   * For any sequence of votes by one user on one post, each counter minus that user's
   * contribution never moves, the user holds at most one vote at the end (the entry is an
   * Option), and the counters keep covering it.
   */
  lemma {:induction false} ReplayVotesAccounting(post: Post, entry: Option<Vote>, choices: seq<Vote>)
    requires post.upvotes >= Held(entry, Upvote) && post.downvotes >= Held(entry, Downvote)
    ensures var (p, e) := ReplayVotes(post, entry, choices);
            && p.upvotes - Held(e, Upvote) == post.upvotes - Held(entry, Upvote)
            && p.downvotes - Held(e, Downvote) == post.downvotes - Held(entry, Downvote)
            && p.upvotes >= Held(e, Upvote) && p.downvotes >= Held(e, Downvote)
            && p == post.(upvotes := p.upvotes, downvotes := p.downvotes)
    decreases |choices|
  {
    if choices != [] {
      VoteAccounting(post, entry, choices[0]);
      ReplayVotesAccounting(CastVote(post, entry, choices[0]), NextSelection(entry, choices[0]), choices[1..]);
    }
  }

  // ---------------------------------------------------------------------------------------
  // The reaction protocol (addReaction, lines 211-226)
  // ---------------------------------------------------------------------------------------

  /**
   * The reaction counters after one user chooses `choice` while their ledger entry is
   * `existing`: the same kind again is taken back, another kind is switched, a first
   * reaction is added.
   */
  function React(rs: Reactions, existing: Option<Reaction>, choice: Reaction): (r: Reactions)
    ensures forall k :: k != choice && Some(k) != existing ==> r.Get(k) == rs.Get(k)
    ensures rs.NonNegative() ==> r.NonNegative()
  {
    if existing == Some(choice) then
      rs.With(choice, FlooredDecrement(rs.Get(choice)))
    else if existing.Some? then
      var taken := rs.With(existing.value, FlooredDecrement(rs.Get(existing.value)));
      taken.With(choice, taken.Get(choice) + 1)
    else
      rs.With(choice, rs.Get(choice) + 1)
  }

  /** Exact accounting for one user over the six kinds, as for votes. */
  lemma ReactAccounting(rs: Reactions, existing: Option<Reaction>, choice: Reaction)
    requires forall k :: rs.Get(k) >= Held(existing, k)
    ensures forall k ::
      React(rs, existing, choice).Get(k) - Held(NextSelection(existing, choice), k)
      == rs.Get(k) - Held(existing, k)
  {
  }

  /** Reacting the same way twice, starting from no reaction, restores the counters and the empty entry. */
  lemma ReactTwiceRestores(rs: Reactions, choice: Reaction)
    requires rs.NonNegative()
    ensures var once := React(rs, None, choice);
            var entry := NextSelection(None, choice);
            React(once, entry, choice) == rs && NextSelection(entry, choice) == None
  {
    var once := React(rs, None, choice);
    var back := React(once, Some(choice), choice);
    assert forall k :: back.Get(k) == rs.Get(k);
    assert back == rs by {
      assert back.Get(Like) == rs.Get(Like) && back.Get(Love) == rs.Get(Love);
      assert back.Get(Haha) == rs.Get(Haha) && back.Get(Wow) == rs.Get(Wow);
      assert back.Get(Sad) == rs.Get(Sad) && back.Get(Angry) == rs.Get(Angry);
    }
  }

  /** A user's successive reactions on one post: the counters and the user's final ledger entry. */
  function ReplayReactions(rs: Reactions, entry: Option<Reaction>, choices: seq<Reaction>): (Reactions, Option<Reaction>)
    decreases |choices|
  {
    if choices == [] then (rs, entry)
    else ReplayReactions(React(rs, entry, choices[0]), NextSelection(entry, choices[0]), choices[1..])
  }

  /**
   * For any sequence of reactions by one user on one post, each counter minus that user's
   * contribution never moves, and the user holds at most one reaction at the end.
   */
  lemma {:induction false} ReplayReactionsAccounting(rs: Reactions, entry: Option<Reaction>, choices: seq<Reaction>)
    requires forall k :: rs.Get(k) >= Held(entry, k)
    ensures var (r, e) := ReplayReactions(rs, entry, choices);
            forall k :: r.Get(k) - Held(e, k) == rs.Get(k) - Held(entry, k) && r.Get(k) >= Held(e, k)
    decreases |choices|
  {
    if choices != [] {
      ReactAccounting(rs, entry, choices[0]);
      ReplayReactionsAccounting(React(rs, entry, choices[0]), NextSelection(entry, choices[0]), choices[1..]);
    }
  }

  // ---------------------------------------------------------------------------------------
  // The cooldown (lines 116-121 and 254-256)
  // ---------------------------------------------------------------------------------------

  const CooldownMs: int := 69000
  const CooldownSeconds: int := 69

  /**
   * The rejection of `addPost`: `None` when posting is allowed at `now`, otherwise the number
   * of seconds reported to the user, `Math.ceil((69000 - elapsed) / 1000)`.
   */
  function RetryAfter(lastPostTime: Option<int>, now: int): (r: Option<int>)
    ensures r.None? <==> lastPostTime.None? || now - lastPostTime.value >= CooldownMs
    ensures r.Some? ==>
      var remaining := CooldownMs - (now - lastPostTime.value);
      r.value >= 1 && (r.value - 1) * 1000 < remaining <= r.value * 1000
  {
    match lastPostTime
    case None => None
    case Some(last) =>
      var elapsed := now - last;
      if elapsed < CooldownMs then Some((CooldownMs - elapsed + 999) / 1000) else None
  }

  /**
   * The displayed countdown `cooldownRemaining`: 0 with no last post, otherwise
   * `Math.max(0, 69 - Math.floor(elapsed / 1000))`.
   */
  function Countdown(lastPostTime: Option<int>, now: int): (r: int)
    ensures r >= 0
    ensures lastPostTime.None? ==> r == 0
    ensures lastPostTime.Some? && now >= lastPostTime.value ==> r <= CooldownSeconds
    ensures r > 0 <==> RetryAfter(lastPostTime, now).Some?
  {
    match lastPostTime
    case None => 0
    case Some(last) =>
      var left := CooldownSeconds - (now - last) / 1000;
      if left > 0 then left else 0
  }

  /**
   * While a post would be rejected, the displayed countdown equals the wait the rejection
   * reports, although one rounds up the remaining time and the other rounds down the elapsed time.
   */
  lemma CountdownMatchesRetryAfter(lastPostTime: Option<int>, now: int)
    requires RetryAfter(lastPostTime, now).Some?
    ensures Countdown(lastPostTime, now) == RetryAfter(lastPostTime, now).value
  {
    var elapsed := now - lastPostTime.value;
    var q, m := elapsed / 1000, elapsed % 1000;
    assert elapsed == 1000 * q + m && 0 <= m < 1000;
    assert CooldownMs - elapsed + 999 == 1000 * (CooldownSeconds - q) + (999 - m);
    DivideExactly(CooldownMs - elapsed + 999, CooldownSeconds - q, 999 - m);
  }

  lemma DivideExactly(n: int, q: int, m: int)
    requires n == 1000 * q + m && 0 <= m < 1000
    ensures n / 1000 == q
  {
  }

  /** Once the countdown shows 0, posting at that or any later time passes the cooldown. */
  lemma CountdownZeroAllowsLaterPost(lastPostTime: Option<int>, shownAt: int, now: int)
    requires Countdown(lastPostTime, shownAt) == 0 && shownAt <= now
    ensures RetryAfter(lastPostTime, now).None?
  {
  }

  // ---------------------------------------------------------------------------------------
  // Finding and removing posts by id (findIndex, filter)
  // ---------------------------------------------------------------------------------------

  /** `posts.findIndex(post => post.id === id)`, with `None` for -1. */
  function FindIndex(posts: seq<Post>, id: PostId): (r: Option<nat>)
    ensures r.Some? ==> r.value < |posts| && posts[r.value].id == id
    ensures r.Some? ==> forall j :: 0 <= j < r.value ==> posts[j].id != id
    ensures r.None? ==> forall j :: 0 <= j < |posts| ==> posts[j].id != id
    decreases |posts|
  {
    if posts == [] then None
    else if posts[0].id == id then Some(0)
    else match FindIndex(posts[1..], id)
      case None => None
      case Some(i) => Some(i + 1)
  }

  /** `posts.filter(post => post.id !== id)` */
  function RemoveId(posts: seq<Post>, id: PostId): (r: seq<Post>)
    ensures |r| <= |posts|
    ensures forall p :: p in r <==> p in posts && p.id != id
    decreases |posts|
  {
    if posts == [] then []
    else if posts[0].id == id then RemoveId(posts[1..], id)
    else [posts[0]] + RemoveId(posts[1..], id)
  }

  /** Filtering splits over concatenation, so the posts that stay keep their relative order. */
  lemma {:induction false} RemoveIdAppend(a: seq<Post>, b: seq<Post>, id: PostId)
    ensures RemoveId(a + b, id) == RemoveId(a, id) + RemoveId(b, id)
    decreases |a|
  {
    if a != [] {
      assert (a + b)[1..] == a[1..] + b;
      RemoveIdAppend(a[1..], b, id);
    } else {
      assert a + b == b;
    }
  }

  /** Removing an id that no post has changes nothing. */
  lemma {:induction false} RemoveIdAbsent(posts: seq<Post>, id: PostId)
    requires forall j :: 0 <= j < |posts| ==> posts[j].id != id
    ensures RemoveId(posts, id) == posts
    decreases |posts|
  {
    if posts != [] {
      RemoveIdAbsent(posts[1..], id);
      assert [posts[0]] + posts[1..] == posts;
    }
  }

  /** Deleting twice is deleting once. */
  lemma RemoveIdIdempotent(posts: seq<Post>, id: PostId)
    ensures RemoveId(RemoveId(posts, id), id) == RemoveId(posts, id)
  {
    var r := RemoveId(posts, id);
    forall j | 0 <= j < |r| ensures r[j].id != id {
      assert r[j] in r;
    }
    RemoveIdAbsent(r, id);
  }

  /** With unique ids, deleting the id of the post at index i removes exactly that post. */
  lemma RemoveIdRemovesOne(posts: seq<Post>, i: nat)
    requires UniqueIds(posts) && i < |posts|
    ensures RemoveId(posts, posts[i].id) == posts[..i] + posts[i + 1..]
    ensures |RemoveId(posts, posts[i].id)| == |posts| - 1
  {
    var id := posts[i].id;
    var before, rest := posts[..i], posts[i + 1..];
    var tail := [posts[i]] + rest;
    assert posts == before + tail;
    forall j | 0 <= j < |before| ensures before[j].id != id {
      assert before[j] == posts[j];
    }
    forall j | 0 <= j < |rest| ensures rest[j].id != id {
      assert rest[j] == posts[i + 1 + j];
    }
    RemoveIdAppend(before, tail, id);
    RemoveIdAbsent(before, id);
    assert tail[1..] == rest;
    assert RemoveId(tail, id) == RemoveId(rest, id);
    RemoveIdAbsent(rest, id);
  }

  // ---------------------------------------------------------------------------------------
  // Ledgers: `vote_<user>_<post>` and `reaction_<user>_<post>` storage entries
  // ---------------------------------------------------------------------------------------

  /** `localStorage.getItem(key)`, with `None` for null. */
  function Lookup<K, V>(m: map<K, V>, key: K): (r: Option<V>)
    ensures r.Some? <==> key in m
    ensures r.Some? ==> m[key] == r.value
  {
    if key in m then Some(m[key]) else None
  }

  /** `removeItem(key)` for `None`, `setItem(key, v)` for `Some(v)`. */
  function Put<K(!new), V>(m: map<K, V>, key: K, entry: Option<V>): (r: map<K, V>)
    ensures Lookup(r, key) == entry
    ensures forall k :: k != key ==> Lookup(r, k) == Lookup(m, k)
  {
    match entry
    case None => m - {key}
    case Some(v) => m[key := v]
  }

  // ---------------------------------------------------------------------------------------
  // The whole store as a value, and each operation as a transition
  // ---------------------------------------------------------------------------------------

  /**
   * `posts` is `globalPosts` (and the stored `anonPosts`); `lastPost` holds the stored
   * `lastPost_<user>` times; `lastPostTime` is the hook's own copy that `addPost` checks.
   */
  datatype StoreState = StoreState(
    posts: seq<Post>,
    votes: map<(UserId, PostId), Vote>,
    reactions: map<(UserId, PostId), Reaction>,
    lastPost: map<UserId, int>,
    lastPostTime: Option<int>)

  predicate ValidState(s: StoreState)
  {
    UniqueIds(s.posts) && forall i :: 0 <= i < |s.posts| ==> NonNegativeCounters(s.posts[i])
  }

  /**
   * Initial load (lines 84-98): only an empty list is filled, with the stored list when there
   * is one and otherwise with `seeds` (the caller passes `InitialPosts`).
   */
  function AfterLoad(s: StoreState, stored: Option<seq<Post>>, seeds: seq<Post>): (r: StoreState)
    ensures |s.posts| > 0 ==> r == s
    ensures r == s.(posts := r.posts)
    ensures |s.posts| == 0 && stored.Some? ==> r.posts == stored.value
    ensures |s.posts| == 0 && stored.None? ==> r.posts == seeds
  {
    if |s.posts| != 0 then s
    else match stored
      case Some(ps) => s.(posts := ps)
      case None => s.(posts := seeds)
  }

  lemma LoadKeepsValid(s: StoreState, stored: Option<seq<Post>>, loadedAt: int)
    requires ValidState(s)
    requires stored.Some? ==> ValidState(s.(posts := stored.value))
    ensures ValidState(AfterLoad(s, stored, InitialPosts(loadedAt)))
  {
    InitialPostsValid(loadedAt);
  }

  /** Lines 104-110: the hook's `lastPostTime` takes the user's stored time when there is one. */
  function AfterRestore(s: StoreState, user: Option<UserId>): (r: StoreState)
    ensures r == s.(lastPostTime := r.lastPostTime)
    ensures user.Some? && user.value in s.lastPost ==> r.lastPostTime == Some(s.lastPost[user.value])
    ensures user.None? || user.value !in s.lastPost ==> r == s
  {
    match user
    case Some(u) => if u in s.lastPost then s.(lastPostTime := Some(s.lastPost[u])) else s
    case None => s
  }

  /** What `addPost` does: returns nothing, throws the cooldown error, or returns the new post. */
  datatype AddOutcome = Ignored | RateLimited(retryAfterSeconds: int) | Created(post: Post)

  /** `addPost(content)` by `user` at time `now`, with `id` the fresh id it draws. */
  function AfterAddPost(s: StoreState, user: Option<UserId>, content: string, id: PostId, now: int)
    : (r: (StoreState, AddOutcome))
    ensures user.None? ==> r == (s, Ignored)
    ensures user.Some? && RetryAfter(s.lastPostTime, now).Some? ==>
      r == (s, RateLimited(RetryAfter(s.lastPostTime, now).value))
    ensures user.Some? && RetryAfter(s.lastPostTime, now).None? ==>
      && |r.0.posts| == |s.posts| + 1
      && r.0.posts[0] == NewPost(id, user.value, content, now) && r.1 == Created(r.0.posts[0])
      && r.0.posts[1..] == s.posts
      && r.0.lastPost == s.lastPost[user.value := now] && r.0.lastPostTime == Some(now)
      && r.0.votes == s.votes && r.0.reactions == s.reactions
  {
    match user
    case None => (s, Ignored)
    case Some(u) =>
      match RetryAfter(s.lastPostTime, now)
      case Some(wait) => (s, RateLimited(wait))
      case None =>
        var post := NewPost(id, u, content, now);
        (s.(posts := [post] + s.posts, lastPost := s.lastPost[u := now], lastPostTime := Some(now)),
         Created(post))
  }

  lemma AddPostKeepsValid(s: StoreState, user: Option<UserId>, content: string, id: PostId, now: int)
    requires ValidState(s)
    requires forall j :: 0 <= j < |s.posts| ==> s.posts[j].id != id
    ensures ValidState(AfterAddPost(s, user, content, id, now).0)
  {
    var r := AfterAddPost(s, user, content, id, now).0;
    if r != s {
      assert r.posts == [r.posts[0]] + s.posts;
      forall i | 0 <= i < |r.posts| ensures NonNegativeCounters(r.posts[i]) {
        if i > 0 { assert r.posts[i] == s.posts[i - 1]; }
      }
    }
  }

  /** `deletePost(postId)`: needs no user, and touches nothing but the list. */
  function AfterDeletePost(s: StoreState, postId: PostId): (r: StoreState)
    ensures r == s.(posts := r.posts)
    ensures forall p :: p in r.posts <==> p in s.posts && p.id != postId
  {
    s.(posts := RemoveId(s.posts, postId))
  }

  lemma DeletePostKeepsValid(s: StoreState, postId: PostId)
    requires ValidState(s)
    ensures ValidState(AfterDeletePost(s, postId))
  {
    var r := RemoveId(s.posts, postId);
    RemoveIdKeepsUnique(s.posts, postId);
    forall i | 0 <= i < |r| ensures NonNegativeCounters(r[i]) {
      assert r[i] in s.posts;
    }
  }

  /** Filtering keeps ids unique. */
  lemma {:induction false} RemoveIdKeepsUnique(posts: seq<Post>, id: PostId)
    requires UniqueIds(posts)
    ensures UniqueIds(RemoveId(posts, id))
    decreases |posts|
  {
    if posts != [] {
      assert UniqueIds(posts[1..]);
      RemoveIdKeepsUnique(posts[1..], id);
      var rest := RemoveId(posts[1..], id);
      forall j | 0 <= j < |rest| ensures rest[j].id != posts[0].id {
        assert rest[j] in posts[1..];
      }
    }
  }

  /** Deleting twice leaves the same state as deleting once. */
  lemma DeletePostIdempotent(s: StoreState, postId: PostId)
    ensures AfterDeletePost(AfterDeletePost(s, postId), postId) == AfterDeletePost(s, postId)
  {
    RemoveIdIdempotent(s.posts, postId);
  }

  /** Deleting an id that is not in the list leaves the state unchanged. */
  lemma DeleteAbsentPost(s: StoreState, postId: PostId)
    requires FindIndex(s.posts, postId).None?
    ensures AfterDeletePost(s, postId) == s
  {
    RemoveIdAbsent(s.posts, postId);
  }

  /** Deleting a post that was just created gives back the list as it was before. */
  lemma DeleteUndoesAdd(s: StoreState, user: Option<UserId>, content: string, id: PostId, now: int)
    requires forall j :: 0 <= j < |s.posts| ==> s.posts[j].id != id
    requires AfterAddPost(s, user, content, id, now).1.Created?
    ensures AfterDeletePost(AfterAddPost(s, user, content, id, now).0, id).posts == s.posts
  {
    var r := AfterAddPost(s, user, content, id, now).0;
    assert r.posts == [r.posts[0]] + s.posts;
    RemoveIdAbsent(s.posts, id);
  }

  /** `votePost(postId, choice)` by `user`. */
  function AfterVote(s: StoreState, user: Option<UserId>, postId: PostId, choice: Vote): (r: StoreState)
    ensures user.None? || FindIndex(s.posts, postId).None? ==> r == s
    ensures r == s.(posts := r.posts, votes := r.votes)
    ensures |r.posts| == |s.posts|
    ensures forall j :: 0 <= j < |s.posts| && FindIndex(s.posts, postId) != Some(j) ==> r.posts[j] == s.posts[j]
    ensures forall j :: 0 <= j < |s.posts| ==>
      r.posts[j] == s.posts[j].(upvotes := r.posts[j].upvotes, downvotes := r.posts[j].downvotes)
  {
    match user
    case None => s
    case Some(u) =>
      match FindIndex(s.posts, postId)
      case None => s
      case Some(i) =>
        var key := (u, postId);
        var existing := Lookup(s.votes, key);
        s.(posts := s.posts[i := CastVote(s.posts[i], existing, choice)],
           votes := Put(s.votes, key, NextSelection(existing, choice)))
  }

  lemma VoteKeepsValid(s: StoreState, user: Option<UserId>, postId: PostId, choice: Vote)
    requires ValidState(s)
    ensures ValidState(AfterVote(s, user, postId, choice))
  {
    var r := AfterVote(s, user, postId, choice);
    assert forall j :: 0 <= j < |r.posts| ==> r.posts[j].id == s.posts[j].id;
    match FindIndex(s.posts, postId)
    case None =>
    case Some(i) =>
      if user.Some? {
        assert r.posts[i] == CastVote(s.posts[i], Lookup(s.votes, (user.value, postId)), choice);
      }
  }

  /** `addReaction(postId, choice)` by `user`. */
  function AfterReaction(s: StoreState, user: Option<UserId>, postId: PostId, choice: Reaction): (r: StoreState)
    ensures user.None? || FindIndex(s.posts, postId).None? ==> r == s
    ensures r == s.(posts := r.posts, reactions := r.reactions)
    ensures |r.posts| == |s.posts|
    ensures forall j :: 0 <= j < |s.posts| && FindIndex(s.posts, postId) != Some(j) ==> r.posts[j] == s.posts[j]
    ensures forall j :: 0 <= j < |s.posts| ==> r.posts[j] == s.posts[j].(reactions := r.posts[j].reactions)
  {
    match user
    case None => s
    case Some(u) =>
      match FindIndex(s.posts, postId)
      case None => s
      case Some(i) =>
        var key := (u, postId);
        var existing := Lookup(s.reactions, key);
        var post := s.posts[i];
        s.(posts := s.posts[i := post.(reactions := React(post.reactions, existing, choice))],
           reactions := Put(s.reactions, key, NextSelection(existing, choice)))
  }

  lemma ReactionKeepsValid(s: StoreState, user: Option<UserId>, postId: PostId, choice: Reaction)
    requires ValidState(s)
    ensures ValidState(AfterReaction(s, user, postId, choice))
  {
    var r := AfterReaction(s, user, postId, choice);
    assert forall j :: 0 <= j < |r.posts| ==> r.posts[j].id == s.posts[j].id;
  }

  /** `getUserVoteAndReaction(postId)`: the user's ledger entries, both null without a user. */
  datatype Selection = Selection(vote: Option<Vote>, reaction: Option<Reaction>)

  function UserSelection(s: StoreState, user: Option<UserId>, postId: PostId): (r: Selection)
    ensures user.None? ==> r == Selection(None, None)
    ensures user.Some? ==> r.vote.Some? == ((user.value, postId) in s.votes)
    ensures user.Some? ==> r.reaction.Some? == ((user.value, postId) in s.reactions)
    ensures r.vote.Some? ==> user.Some? && (user.value, postId) in s.votes && s.votes[(user.value, postId)] == r.vote.value
    ensures r.reaction.Some? ==> user.Some? && (user.value, postId) in s.reactions && s.reactions[(user.value, postId)] == r.reaction.value
  {
    match user
    case None => Selection(None, None)
    case Some(u) => Selection(Lookup(s.votes, (u, postId)), Lookup(s.reactions, (u, postId)))
  }

  /**
   * Reading back after a vote: the voter's entry follows the toggle rule, the voter's reaction
   * and every other user's or post's entries are unchanged.
   */
  lemma VoteThenRead(s: StoreState, u: UserId, postId: PostId, choice: Vote, other: UserId, otherPost: PostId)
    requires FindIndex(s.posts, postId).Some?
    ensures var r := AfterVote(s, Some(u), postId, choice);
            && UserSelection(r, Some(u), postId).vote
               == NextSelection(UserSelection(s, Some(u), postId).vote, choice)
            && UserSelection(r, Some(u), postId).reaction == UserSelection(s, Some(u), postId).reaction
            && ((other, otherPost) != (u, postId) ==>
                  UserSelection(r, Some(other), otherPost) == UserSelection(s, Some(other), otherPost))
  {
  }

  /** Reading back after a reaction, as for votes. */
  lemma ReactionThenRead(s: StoreState, u: UserId, postId: PostId, choice: Reaction, other: UserId, otherPost: PostId)
    requires FindIndex(s.posts, postId).Some?
    ensures var r := AfterReaction(s, Some(u), postId, choice);
            && UserSelection(r, Some(u), postId).reaction
               == NextSelection(UserSelection(s, Some(u), postId).reaction, choice)
            && UserSelection(r, Some(u), postId).vote == UserSelection(s, Some(u), postId).vote
            && ((other, otherPost) != (u, postId) ==>
                  UserSelection(r, Some(other), otherPost) == UserSelection(s, Some(other), otherPost))
  {
  }

  /**
   * The cooldown scenario: after a post at `t0`, another post at `t0 + 10000` is rejected with
   * 59 seconds to wait, and one at `t0 + 70000` is accepted.
   */
  lemma CooldownScenario(s: StoreState, u: UserId, id1: PostId, id2: PostId, id3: PostId, t0: int)
    requires AfterAddPost(s, Some(u), "first", id1, t0).1.Created?
    ensures var after := AfterAddPost(s, Some(u), "first", id1, t0).0;
            && AfterAddPost(after, Some(u), "second", id2, t0 + 10000) == (after, RateLimited(59))
            && AfterAddPost(after, Some(u), "second", id3, t0 + 70000).1.Created?
  {
  }

  // ---------------------------------------------------------------------------------------
  // Counters against the ledgers, across all users
  // ---------------------------------------------------------------------------------------

  /** The ledger keys whose entry for `postId` is `v`: the users holding selection `v` on that post. */
  function Holders<V(==)>(ledger: map<(UserId, PostId), V>, postId: PostId, v: V): set<(UserId, PostId)>
  {
    set key | key in ledger && key.1 == postId && ledger[key] == v
  }

  /** Changing one ledger entry moves that post's holder count by exactly the change of that entry. */
  lemma HoldersAfterPut<V>(ledger: map<(UserId, PostId), V>, key: (UserId, PostId), entry: Option<V>, postId: PostId, v: V)
    ensures key.1 != postId ==> Holders(Put(ledger, key, entry), postId, v) == Holders(ledger, postId, v)
    ensures key.1 == postId ==>
      |Holders(Put(ledger, key, entry), postId, v)| + Held(Lookup(ledger, key), v)
      == |Holders(ledger, postId, v)| + Held(entry, v)
  {
    var before := Holders(ledger, postId, v);
    var after := Holders(Put(ledger, key, entry), postId, v);
    HoldersAwayFromKey(ledger, key, entry, postId, v);
    if key.1 == postId {
      SizeAroundKey(before, key);
      SizeAroundKey(after, key);
    } else {
      assert before == before - {key} && after == after - {key};
    }
  }

  /** Away from the written key, the holders are the same before and after. */
  lemma HoldersAwayFromKey<V>(ledger: map<(UserId, PostId), V>, key: (UserId, PostId), entry: Option<V>, postId: PostId, v: V)
    ensures Holders(Put(ledger, key, entry), postId, v) - {key} == Holders(ledger, postId, v) - {key}
  {
    var updated := Put(ledger, key, entry);
    forall x | x != key ensures x in Holders(updated, postId, v) <==> x in Holders(ledger, postId, v) {
      assert Lookup(updated, x) == Lookup(ledger, x);
    }
  }

  lemma SizeAroundKey<T>(s: set<T>, x: T)
    ensures |s| == |s - {x}| + (if x in s then 1 else 0)
  {
    if x in s {
      assert s == (s - {x}) + {x};
    } else {
      assert s == s - {x};
    }
  }

  function VoteCount(p: Post, v: Vote): int
  {
    match v
    case Upvote => p.upvotes
    case Downvote => p.downvotes
  }

  /** Votes of kind `v` on `p` that no ledger entry accounts for (seeded counts, for one). */
  function UnbackedVotes(s: StoreState, p: Post, v: Vote): int
  {
    VoteCount(p, v) - |Holders(s.votes, p.id, v)|
  }

  /** Reactions of kind `k` on `p` that no ledger entry accounts for. */
  function UnbackedReactions(s: StoreState, p: Post, k: Reaction): int
  {
    p.reactions.Get(k) - |Holders(s.reactions, p.id, k)|
  }

  /** Every counter is at least the number of users whose ledger entry says they contributed to it. */
  ghost predicate LedgerBacked(s: StoreState)
  {
    forall i :: 0 <= i < |s.posts| ==>
      (forall v :: UnbackedVotes(s, s.posts[i], v) >= 0) && (forall k :: UnbackedReactions(s, s.posts[i], k) >= 0)
  }

  /**
   * Votes by any user on any post change each counter by exactly the change in the number of
   * ledger entries for it: the floors at 0 never take effect, and the counters stay backed.
   */
  lemma VoteKeepsLedgerBalance(s: StoreState, user: Option<UserId>, postId: PostId, choice: Vote)
    requires ValidState(s) && LedgerBacked(s)
    ensures var r := AfterVote(s, user, postId, choice);
            && LedgerBacked(r)
            && forall j, v :: 0 <= j < |s.posts| ==> UnbackedVotes(r, r.posts[j], v) == UnbackedVotes(s, s.posts[j], v)
  {
    var r := AfterVote(s, user, postId, choice);
    if user.None? || FindIndex(s.posts, postId).None? {
      return;
    }
    var i := FindIndex(s.posts, postId).value;
    var key := (user.value, postId);
    var existing := Lookup(s.votes, key);
    var entry := NextSelection(existing, choice);
    assert r.votes == Put(s.votes, key, entry);
    forall v | existing == Some(v) ensures VoteCount(s.posts[i], v) >= 1 {
      assert key in Holders(s.votes, postId, v);
      assert UnbackedVotes(s, s.posts[i], v) >= 0;
    }
    VoteAccounting(s.posts[i], existing, choice);
    forall j, v | 0 <= j < |s.posts| ensures UnbackedVotes(r, r.posts[j], v) == UnbackedVotes(s, s.posts[j], v) {
      HoldersAfterPut(s.votes, key, entry, s.posts[j].id, v);
      if j != i {
        assert s.posts[j].id != postId;
      }
    }
    forall j | 0 <= j < |r.posts|
      ensures (forall v :: UnbackedVotes(r, r.posts[j], v) >= 0) && (forall k :: UnbackedReactions(r, r.posts[j], k) >= 0)
    {
      assert r.posts[j].id == s.posts[j].id && r.posts[j].reactions == s.posts[j].reactions;
      forall v ensures UnbackedVotes(r, r.posts[j], v) >= 0 {
        assert UnbackedVotes(r, r.posts[j], v) == UnbackedVotes(s, s.posts[j], v);
      }
      forall k ensures UnbackedReactions(r, r.posts[j], k) >= 0 {
        assert UnbackedReactions(r, r.posts[j], k) == UnbackedReactions(s, s.posts[j], k);
      }
    }
  }

  /** The same exact accounting for reactions, over the six kinds. */
  lemma ReactionKeepsLedgerBalance(s: StoreState, user: Option<UserId>, postId: PostId, choice: Reaction)
    requires ValidState(s) && LedgerBacked(s)
    ensures var r := AfterReaction(s, user, postId, choice);
            && LedgerBacked(r)
            && forall j, k :: 0 <= j < |s.posts| ==> UnbackedReactions(r, r.posts[j], k) == UnbackedReactions(s, s.posts[j], k)
  {
    var r := AfterReaction(s, user, postId, choice);
    if user.None? || FindIndex(s.posts, postId).None? {
      return;
    }
    var i := FindIndex(s.posts, postId).value;
    var key := (user.value, postId);
    var existing := Lookup(s.reactions, key);
    var entry := NextSelection(existing, choice);
    assert r.reactions == Put(s.reactions, key, entry);
    forall k ensures s.posts[i].reactions.Get(k) >= Held(existing, k) {
      if existing == Some(k) {
        assert key in Holders(s.reactions, postId, k);
        assert UnbackedReactions(s, s.posts[i], k) >= 0;
      }
    }
    ReactAccounting(s.posts[i].reactions, existing, choice);
    forall j, k | 0 <= j < |s.posts| ensures UnbackedReactions(r, r.posts[j], k) == UnbackedReactions(s, s.posts[j], k) {
      HoldersAfterPut(s.reactions, key, entry, s.posts[j].id, k);
      if j != i {
        assert s.posts[j].id != postId;
      }
    }
    forall j | 0 <= j < |r.posts|
      ensures (forall v :: UnbackedVotes(r, r.posts[j], v) >= 0) && (forall k :: UnbackedReactions(r, r.posts[j], k) >= 0)
    {
      assert r.posts[j].id == s.posts[j].id;
      assert r.posts[j].upvotes == s.posts[j].upvotes && r.posts[j].downvotes == s.posts[j].downvotes;
      forall v ensures UnbackedVotes(r, r.posts[j], v) >= 0 {
        assert UnbackedVotes(r, r.posts[j], v) == UnbackedVotes(s, s.posts[j], v);
      }
      forall k ensures UnbackedReactions(r, r.posts[j], k) >= 0 {
        assert UnbackedReactions(r, r.posts[j], k) == UnbackedReactions(s, s.posts[j], k);
      }
    }
  }

  /** A post with a never-used id starts with nothing unbacked; deleting keeps the rest backed. */
  lemma AddAndDeleteKeepLedgerBacked(s: StoreState, user: Option<UserId>, content: string, id: PostId, now: int, postId: PostId)
    requires LedgerBacked(s)
    requires forall key :: key in s.votes ==> key.1 != id
    requires forall key :: key in s.reactions ==> key.1 != id
    ensures LedgerBacked(AfterAddPost(s, user, content, id, now).0)
    ensures LedgerBacked(AfterDeletePost(s, postId))
  {
    var a := AfterAddPost(s, user, content, id, now).0;
    if a != s {
      assert a.posts == [a.posts[0]] + s.posts && a.votes == s.votes && a.reactions == s.reactions;
      forall i | 0 <= i < |a.posts|
        ensures (forall v :: UnbackedVotes(a, a.posts[i], v) >= 0) && (forall k :: UnbackedReactions(a, a.posts[i], k) >= 0)
      {
        if i == 0 {
          forall v ensures UnbackedVotes(a, a.posts[0], v) >= 0 {
            assert Holders(a.votes, id, v) == {};
          }
          forall k ensures UnbackedReactions(a, a.posts[0], k) >= 0 {
            assert Holders(a.reactions, id, k) == {};
          }
        } else {
          assert a.posts[i] == s.posts[i - 1];
          forall v ensures UnbackedVotes(a, a.posts[i], v) >= 0 {
            assert UnbackedVotes(s, s.posts[i - 1], v) >= 0;
          }
          forall k ensures UnbackedReactions(a, a.posts[i], k) >= 0 {
            assert UnbackedReactions(s, s.posts[i - 1], k) >= 0;
          }
        }
      }
    }
    var d := AfterDeletePost(s, postId);
    forall i | 0 <= i < |d.posts|
      ensures (forall v :: UnbackedVotes(d, d.posts[i], v) >= 0) && (forall k :: UnbackedReactions(d, d.posts[i], k) >= 0)
    {
      assert d.posts[i] in s.posts;
      var j :| 0 <= j < |s.posts| && s.posts[j] == d.posts[i];
      assert d.votes == s.votes && d.reactions == s.reactions;
      forall v ensures UnbackedVotes(d, d.posts[i], v) >= 0 {
        assert UnbackedVotes(s, s.posts[j], v) >= 0;
      }
      forall k ensures UnbackedReactions(d, d.posts[i], k) >= 0 {
        assert UnbackedReactions(s, s.posts[j], k) >= 0;
      }
    }
  }

  /** A fresh store (no votes or reactions recorded yet) is backed, whatever its non-negative counters. */
  lemma EmptyLedgersBacked(s: StoreState)
    requires ValidState(s) && s.votes == map[] && s.reactions == map[]
    ensures LedgerBacked(s)
  {
    forall i | 0 <= i < |s.posts|
      ensures (forall v :: UnbackedVotes(s, s.posts[i], v) >= 0) && (forall k :: UnbackedReactions(s, s.posts[i], k) >= 0)
    {
      assert NonNegativeCounters(s.posts[i]);
      forall v ensures UnbackedVotes(s, s.posts[i], v) >= 0 {
        assert Holders(s.votes, s.posts[i].id, v) == {};
      }
      forall k ensures UnbackedReactions(s, s.posts[i], k) >= 0 {
        assert Holders(s.reactions, s.posts[i].id, k) == {};
      }
    }
  }

  // ---------------------------------------------------------------------------------------
  // The store object
  // ---------------------------------------------------------------------------------------

  /** The shared store; every method is one transition above, done by updating fields in place. */
  class PostStore {
    var posts: seq<Post>
    var votes: map<(UserId, PostId), Vote>
    var reactions: map<(UserId, PostId), Reaction>
    var lastPost: map<UserId, int>
    var lastPostTime: Option<int>

    function State(): StoreState
      reads this
    {
      StoreState(posts, votes, reactions, lastPost, lastPostTime)
    }

    predicate Valid()
      reads this
    {
      ValidState(State())
    }

    /** `let globalPosts: Post[] = []` with nothing stored yet. */
    constructor ()
      ensures State() == StoreState([], map[], map[], map[], None)
      ensures Valid()
    {
      posts, votes, reactions, lastPost, lastPostTime := [], map[], map[], map[], None;
    }

    method LoadPosts(stored: Option<seq<Post>>, loadedAt: int)
      modifies this
      ensures State() == AfterLoad(old(State()), stored, InitialPosts(loadedAt))
      ensures old(Valid()) && (stored.Some? ==> ValidState(old(State()).(posts := stored.value))) ==> Valid()
    {
      var seeds := InitialPosts(loadedAt);
      if Valid() && (stored.Some? ==> ValidState(State().(posts := stored.value))) {
        LoadKeepsValid(State(), stored, loadedAt);
      }
      if |posts| == 0 {
        if stored.Some? {
          posts := stored.value;
        } else {
          posts := seeds;
        }
      }
    }

    method RestoreLastPostTime(user: Option<UserId>)
      modifies this
      ensures State() == AfterRestore(old(State()), user)
      ensures old(Valid()) ==> Valid()
    {
      if user.Some? && user.value in lastPost {
        lastPostTime := Some(lastPost[user.value]);
      }
    }

    method AddPost(user: Option<UserId>, content: string, id: PostId, now: int) returns (outcome: AddOutcome)
      requires forall j :: 0 <= j < |posts| ==> posts[j].id != id
      modifies this
      ensures (State(), outcome) == AfterAddPost(old(State()), user, content, id, now)
      ensures old(Valid()) ==> Valid()
    {
      if Valid() {
        AddPostKeepsValid(State(), user, content, id, now);
      }
      if user.None? {
        return Ignored;
      }
      if lastPostTime.Some? && now - lastPostTime.value < CooldownMs {
        var remaining := (CooldownMs - (now - lastPostTime.value) + 999) / 1000;
        return RateLimited(remaining);
      }
      var post := NewPost(id, user.value, content, now);
      posts := [post] + posts;
      lastPost := lastPost[user.value := now];
      lastPostTime := Some(now);
      return Created(post);
    }

    method DeletePost(postId: PostId)
      modifies this
      ensures State() == AfterDeletePost(old(State()), postId)
      ensures old(Valid()) ==> Valid()
    {
      if Valid() {
        DeletePostKeepsValid(State(), postId);
      }
      posts := RemoveId(posts, postId);
    }

    method VotePost(user: Option<UserId>, postId: PostId, choice: Vote)
      modifies this
      ensures State() == AfterVote(old(State()), user, postId, choice)
      ensures old(Valid()) ==> Valid()
    {
      if Valid() {
        VoteKeepsValid(State(), user, postId, choice);
      }
      if user.None? {
        return;
      }
      var index := FindIndex(posts, postId);
      if index.None? {
        return;
      }
      var key := (user.value, postId);
      var existing := Lookup(votes, key);
      var post := CastVote(posts[index.value], existing, choice);
      if existing == Some(choice) {
        votes := votes - {key};
      } else {
        votes := votes[key := choice];
      }
      posts := posts[index.value := post];
    }

    method AddReaction(user: Option<UserId>, postId: PostId, choice: Reaction)
      modifies this
      ensures State() == AfterReaction(old(State()), user, postId, choice)
      ensures old(Valid()) ==> Valid()
    {
      if Valid() {
        ReactionKeepsValid(State(), user, postId, choice);
      }
      if user.None? {
        return;
      }
      var index := FindIndex(posts, postId);
      if index.None? {
        return;
      }
      var key := (user.value, postId);
      var existing := Lookup(reactions, key);
      var post := posts[index.value];
      if existing == Some(choice) {
        reactions := reactions - {key};
      } else {
        reactions := reactions[key := choice];
      }
      posts := posts[index.value := post.(reactions := React(post.reactions, existing, choice))];
    }

    function GetUserVoteAndReaction(user: Option<UserId>, postId: PostId): (r: Selection)
      reads this
      ensures user.None? ==> r == Selection(None, None)
      ensures user.Some? ==> (r.vote.Some? <==> (user.value, postId) in votes)
      ensures user.Some? ==> (r.reaction.Some? <==> (user.value, postId) in reactions)
      ensures r.vote.Some? ==> user.Some? && (user.value, postId) in votes && votes[(user.value, postId)] == r.vote.value
      ensures r.reaction.Some? ==> user.Some? && (user.value, postId) in reactions && reactions[(user.value, postId)] == r.reaction.value
    {
      UserSelection(State(), user, postId)
    }

    function CooldownRemaining(now: int): (r: int)
      reads this
      ensures 0 <= r
      ensures lastPostTime.Some? && now >= lastPostTime.value ==> r <= CooldownSeconds
      ensures r > 0 <==> RetryAfter(lastPostTime, now).Some?
    {
      Countdown(lastPostTime, now)
    }
  }
}
