# anonmingle post store, in Dafny

This project models the client-side post store of anonmingle, an anonymous posting board, and the two components that sit on top of it.

- **`Posts`** (`posts.dfy`) models the `usePosts` hook (`src/hooks/usePosts.ts`). It covers:
  - one shared, newest-first list of posts;
  - one ledger entry per (user, post) for votes and another for reactions (`vote_<user>_<post>`, `reaction_<user>_<post>` in storage);
  - the per-user time of the last post (`lastPost_<user>`), and the hook's own copy of it (`lastPostTime`);
  - the 69-second posting cooldown.

  Each operation appears twice. It is a pure transition over `StoreState` (`AfterLoad`, `AfterRestore`, `AfterAddPost`, `AfterDeletePost`, `AfterVote`, `AfterReaction`), and the properties are proved about these transitions. It is also a method of the class `PostStore`, which updates its fields in place as the hook does. Each method's postcondition says its new state is exactly that transition applied to the old state. The store invariant says post ids are unique and every counter is non-negative. `AddPost`, `DeletePost`, `VotePost`, `AddReaction` and `RestoreLastPostTime` keep it unconditionally. `LoadPosts` keeps it only when the stored list it adopts satisfies it.
- **`CreatePost`** (`create_post.dfy`) models the composer (`src/components/CreatePost.tsx`). It covers the checks `handleSubmit` runs in order (logged in, not blank after `trim()`, at most 280 UTF-16 code units), what it does with `addPost`'s result, and when the text area and the submit button are disabled.
- **`ReactionButton`** (`reaction_button.dfy`) models the reaction summary (`src/components/ReactionButton.tsx`). It covers the reaction total, the most common reaction (ties go to the earliest kind in key order), and what the button shows.
- **`Wrappers`** (`wrappers.dfy`) holds the `Option` type. It stands for `null` and for missing storage keys.

Time is an integer count of milliseconds. `Math.floor(x / 1000)` is Dafny's `x / 1000`. `Math.ceil(x / 1000)` for `x > 0` is `(x + 999) / 1000`.

## Model

| member | source | states |
|---|---|---|
| Posts.Rank | src/hooks/usePosts.ts:12-22 | every reaction kind has a position in the record's key order like, love, haha, wow, sad, angry |
| Posts.Reactions.With | src/hooks/usePosts.ts:209-213 | setting one reaction counter on a copy changes that counter only |
| Posts.InitialPostsValid | src/hooks/usePosts.ts:25-53 | the three seed posts have distinct ids and non-negative counters |
| Posts.FlooredDecrement | src/hooks/usePosts.ts:166 | `Math.max(0, n - 1)` is never negative; it is `n - 1` when `n >= 1` and 0 otherwise |
| Posts.NextSelection | src/hooks/usePosts.ts:163-191 | the ledger entry is cleared exactly when the same choice is made again, otherwise it becomes the choice |
| Posts.CastVote | src/hooks/usePosts.ts:163-191 | a vote changes only the post's up and down counts and keeps them non-negative |
| Posts.VoteAccounting | src/hooks/usePosts.ts:163-191 | if each counter covers the voter's own contribution, a vote moves each counter by exactly the change in that contribution, so the floor at 0 never takes effect |
| Posts.VoteTwiceRestores | src/hooks/usePosts.ts:163-191 | voting the same way twice from no vote restores the post and leaves no entry |
| Posts.ReplayVotesAccounting | src/hooks/usePosts.ts:163-191 | over any sequence of one user's votes on one post, each counter minus that user's contribution stays fixed, the counters keep covering the user's final entry, and nothing but the vote counts changes. The user holding at most one vote follows from the ledger entry's type (`Option`), not from this lemma |
| Posts.React | src/hooks/usePosts.ts:211-226 | a reaction changes only the chosen kind and the previously held kind, and keeps all counters non-negative |
| Posts.ReactAccounting | src/hooks/usePosts.ts:211-226 | if each counter covers the user's contribution, every counter moves by exactly the change in that contribution |
| Posts.ReactTwiceRestores | src/hooks/usePosts.ts:211-226 | reacting the same way twice from no reaction restores the counters and leaves no entry |
| Posts.ReplayReactionsAccounting | src/hooks/usePosts.ts:211-226 | over any sequence of one user's reactions on one post, each counter minus that user's contribution stays fixed, and the counters keep covering the user's final entry. The user holding at most one reaction follows from the ledger entry's type (`Option`), not from this lemma |
| Posts.RetryAfter | src/hooks/usePosts.ts:116-121 | a post is refused exactly when there is a last post time less than 69000 ms ago; the reported wait is the remaining time rounded up to whole seconds, at least 1 |
| Posts.Countdown | src/hooks/usePosts.ts:254-256 | the displayed countdown is never negative, is 0 with no last post, is at most 69 when the clock has not gone backwards, and is positive exactly when a post would be refused |
| Posts.CountdownMatchesRetryAfter | src/hooks/usePosts.ts:116-121 | whenever a post is refused, the countdown shows the same number of seconds as the error message |
| Posts.CountdownZeroAllowsLaterPost | src/hooks/usePosts.ts:254-256 | once the countdown shows 0, a post at that time or later passes the cooldown |
| Posts.FindIndex | src/hooks/usePosts.ts:154-155 | `findIndex` returns the first index with the id, or none when no post has it |
| Posts.RemoveId | src/hooks/usePosts.ts:146 | the filtered list holds exactly the posts whose id differs |
| Posts.RemoveIdAppend | src/hooks/usePosts.ts:146 | filtering distributes over concatenation, so surviving posts keep their order |
| Posts.RemoveIdAbsent | src/hooks/usePosts.ts:146 | filtering an id no post has returns the list unchanged |
| Posts.RemoveIdIdempotent | src/hooks/usePosts.ts:146 | filtering twice equals filtering once |
| Posts.RemoveIdRemovesOne | src/hooks/usePosts.ts:146 | with unique ids, deleting the id at index i removes exactly that post, and the length drops by one |
| Posts.RemoveIdKeepsUnique | src/hooks/usePosts.ts:146 | filtering keeps ids unique |
| Posts.Lookup | src/hooks/usePosts.ts:159 | `getItem` finds a value exactly when the key is stored, and returns the stored value |
| Posts.Put | src/hooks/usePosts.ts:170-190 | after `removeItem`/`setItem` the key reads back as written and every other key is unchanged |
| Posts.AfterLoad | src/hooks/usePosts.ts:84-98 | a non-empty list is kept; an empty one takes the stored list if there is one, else the seed posts; nothing else changes |
| Posts.LoadKeepsValid | src/hooks/usePosts.ts:84-98 | loading keeps ids unique and counters non-negative, given a well-formed stored list |
| Posts.AfterRestore | src/hooks/usePosts.ts:104-110 | the hook's last post time becomes the user's stored time when there is one; otherwise, even after a change of user, it keeps its old value |
| Posts.AfterAddPost | src/hooks/usePosts.ts:113-143 | no user: nothing changes. Inside the cooldown: nothing changes and the rounded-up wait is reported. Otherwise: the new post with zero counters goes in front of the unchanged list, and the user's last post time becomes now |
| Posts.AddPostKeepsValid | src/hooks/usePosts.ts:123-133 | adding a post with a fresh id keeps ids unique and counters non-negative |
| Posts.AfterDeletePost | src/hooks/usePosts.ts:145-149 | deleting needs no user; afterwards exactly the posts with another id remain, and the ledgers are untouched |
| Posts.DeletePostKeepsValid | src/hooks/usePosts.ts:145-149 | deleting keeps the invariant |
| Posts.DeletePostIdempotent | src/hooks/usePosts.ts:145-149 | deleting twice equals deleting once |
| Posts.DeleteAbsentPost | src/hooks/usePosts.ts:145-149 | deleting an unknown id changes nothing |
| Posts.DeleteUndoesAdd | src/hooks/usePosts.ts:133-146 | deleting a just-created post gives back the list as it was before |
| Posts.AfterVote | src/hooks/usePosts.ts:151-196 | no user or unknown id: nothing changes. Otherwise only the list and the vote ledger change, the list keeps its length, and only the target post's vote counts move |
| Posts.VoteKeepsValid | src/hooks/usePosts.ts:151-196 | voting keeps the invariant |
| Posts.AfterReaction | src/hooks/usePosts.ts:198-232 | no user or unknown id: nothing changes. Otherwise only the list and the reaction ledger change, and only the target post's reaction record moves |
| Posts.ReactionKeepsValid | src/hooks/usePosts.ts:198-232 | reacting keeps the invariant |
| Posts.UserSelection | src/hooks/usePosts.ts:234-244 | both entries are null without a user; otherwise each is present exactly when its ledger key is stored, and equals the stored value |
| Posts.VoteThenRead | src/hooks/usePosts.ts:151-244 | after a vote, the voter's entry follows the toggle rule, and their reaction and every other (user, post) entry read back unchanged |
| Posts.ReactionThenRead | src/hooks/usePosts.ts:198-244 | the same for reactions |
| Posts.CooldownScenario | src/hooks/usePosts.ts:113-143 | after a post at t0, a post at t0+10 s is refused with a 59-second wait, and one at t0+70 s is created |
| Posts.HoldersAfterPut | src/hooks/usePosts.ts:170-190 | writing one ledger entry changes the number of users holding a selection on that post by exactly the change of that entry, and no other post's holders |
| Posts.VoteKeepsLedgerBalance | src/hooks/usePosts.ts:151-196 | when every counter covers the ledger entries that hold it, a vote by any user keeps that true, and each counter minus its holders stays fixed on every post |
| Posts.ReactionKeepsLedgerBalance | src/hooks/usePosts.ts:198-232 | the same across all users for reactions |
| Posts.AddAndDeleteKeepLedgerBacked | src/hooks/usePosts.ts:123-149 | a post with a never-used id and deleting a post both keep every counter covering its holders |
| Posts.EmptyLedgersBacked | src/hooks/usePosts.ts:84-98 | with no votes or reactions recorded, any valid list of posts is backed |
| Posts.PostStore.constructor | src/hooks/usePosts.ts:56 | the store starts with no posts, empty ledgers and no last post time |
| Posts.PostStore.LoadPosts | src/hooks/usePosts.ts:84-98 | updates the fields exactly as `AfterLoad` with the seed posts, and keeps the invariant when the stored list it may adopt satisfies it |
| Posts.PostStore.RestoreLastPostTime | src/hooks/usePosts.ts:104-110 | updates the fields exactly as `AfterRestore`, and keeps the invariant |
| Posts.PostStore.AddPost | src/hooks/usePosts.ts:113-143 | the new state and outcome are exactly `AfterAddPost`, and the invariant is kept |
| Posts.PostStore.DeletePost | src/hooks/usePosts.ts:145-149 | the new state is exactly `AfterDeletePost`, and the invariant is kept |
| Posts.PostStore.VotePost | src/hooks/usePosts.ts:151-196 | the new state is exactly `AfterVote`, and the invariant is kept |
| Posts.PostStore.AddReaction | src/hooks/usePosts.ts:198-232 | the new state is exactly `AfterReaction`, and the invariant is kept |
| Posts.PostStore.GetUserVoteAndReaction | src/hooks/usePosts.ts:234-244 | null without a user; otherwise each entry is present exactly when stored, and equals the stored value |
| Posts.PostStore.CooldownRemaining | src/hooks/usePosts.ts:254-256 | never negative, at most 69 when `now` is not before the last post time, and positive exactly when `addPost` would refuse |
| CreatePost.TrimStart | src/components/CreatePost.tsx:30 | strips exactly the leading white space: the result is a suffix, and what was dropped is all white space |
| CreatePost.Utf16Length | src/components/CreatePost.tsx:39 | `content.length` counts two code units for each character outside the Basic Multilingual Plane and one for any other; it equals the character count exactly when no character is outside that plane |
| CreatePost.Utf16LengthAppend | src/components/CreatePost.tsx:39 | the code-unit lengths of concatenated strings add up |
| CreatePost.EmojiRunLength | src/components/CreatePost.tsx:39 | 141 copies of U+1F600 are 141 characters but 282 code units |
| CreatePost.TrimEnd | src/components/CreatePost.tsx:30 | strips exactly the trailing white space: the result is a prefix, and what was dropped is all white space |
| CreatePost.TrimEmptyIffBlank | src/components/CreatePost.tsx:30 | `content.trim()` is empty exactly when the content is only white space |
| CreatePost.SubmitGate | src/components/CreatePost.tsx:20-46 | a submit passes exactly when the user is logged in, the content is not blank and is at most 280 UTF-16 code units long; the first failing check in that order is reported |
| CreatePost.LengthBoundary | src/components/CreatePost.tsx:39-46 | content of 280 UTF-16 code units passes and 281 is too long; 141 copies of U+1F600 (282 units) are too long; the empty string is refused as empty |
| CreatePost.SubmitDisabled | src/components/CreatePost.tsx:100-106 | the button is enabled exactly when the submit checks pass, no submit is running and the countdown is 0 |
| CreatePost.TextareaDisabled | src/components/CreatePost.tsx:87 | the text area is disabled when the user is not logged in or the countdown is positive, and whenever it is disabled the button is disabled too |
| CreatePost.EnabledSubmitIsAccepted | src/components/CreatePost.tsx:98-106 | a click on an enabled button, at render time or later, passes every check and `addPost` creates the post |
| CreatePost.Composer.constructor | src/components/CreatePost.tsx:14-18 | the composer starts with empty content and no submit running |
| CreatePost.Composer.HandleSubmit | src/components/CreatePost.tsx:20-67 | the length check counts UTF-16 code units. A refused submit changes nothing and reports the first failing check. An accepted one applies `addPost` to the store once and ends with no submit running. It clears the content only when the post was published, and shows the wait message when rate-limited |
| ReactionButton.ReactionOptionsInKeyOrder | src/components/ReactionButton.tsx:14-21 | the picker lists the six kinds once each, in the record's key order, with distinct emoji |
| ReactionButton.OptionFor | src/components/ReactionButton.tsx:57 | the `find` on the picker always finds the option of the kind |
| ReactionButton.Total | src/components/ReactionButton.tsx:34 | the total is the sum of the six counters |
| ReactionButton.TopReactionOfIsTop | src/components/ReactionButton.tsx:37-45 | the search finds k exactly when k's count is positive and maximal and every earlier kind's count is smaller; it finds nothing exactly when no count is positive |
| ReactionButton.TopIsUnique | src/components/ReactionButton.tsx:37-45 | at most one kind is the top reaction |
| ReactionButton.SearchPrefix | src/components/ReactionButton.tsx:40-45 | after the first n kinds, `maxCount` is the largest count seen (or 0) and the leader is the earliest kind with it |
| ReactionButton.TopReaction | src/components/ReactionButton.tsx:37-45 | the loop ends with the top reaction as defined above and `maxCount` the largest count, or 0 |
| ReactionButton.TotalAndTop | src/components/ReactionButton.tsx:34-45 | a positive total always has a top reaction; with non-negative counts, the converse holds too |
| ReactionButton.ButtonFace | src/components/ReactionButton.tsx:56-65 | the badge shows the total exactly when it is positive; the icon is the selected kind's emoji, else the top reaction's emoji when the total is positive, else the smile icon |
| ReactionButton.FaceWithoutSelection | src/components/ReactionButton.tsx:56-62 | with no selection and non-negative counts, the smile icon shows exactly when every count is 0, and otherwise the top reaction's emoji |

## Left out

- Storage as JSON text is not modelled. `localStorage` is three maps and a list. The stored `anonPosts` list is kept separately only where it is read: it is the `stored` argument of the initial load. Every write leaves it equal to `globalPosts`. Date rehydration on load is not modelled either.
- Ledger keys are pairs (user, post), not the concatenated strings `vote_<user>_<post>` and `reaction_<user>_<post>`. Two different pairs whose concatenations coincide therefore never collide in the model.
- `crypto.randomUUID()` becomes the parameter `id`. `PostStore.AddPost`, `AddPostKeepsValid` and `DeleteUndoesAdd` require it to differ from every existing post id.
- `new Date()` and `Date.now()` become the parameters `now` and `loadedAt`.
- The listener list, `notifyListeners`, and the React `useState`/`useEffect` plumbing are not modelled. Each hook instance's own `posts` copy is not modelled. That copy can lag behind the shared list, for example when an instance's load finds the list already filled and skips `setPosts`.
- Each hook instance has its own `lastPostTime`; the model has one.
- `isLoading` is not modelled: it becomes false right after the first load and plays no part in any check.
- The authentication context (`useAuth`, login, logout, admin check) is not modelled. The user is an `Option<UserId>`, and `isAuthenticated` is `user.Some?`.
- Toast titles and texts, the focus call, `handleKeyDown` and the markup are not modelled. The outcome of a submit is the `Notice` datatype, and the countdown shows as `CooldownRemaining`.
- `Object.values`/`Object.entries` are taken to visit the reaction record in its creation order: like, love, haha, wow, sad, angry. Records read back from storage keep that order.
- Posts.AfterRestore: the hook keeps the previous user's `lastPostTime` when the new user has no stored time, as the code does. The model does not reset it on a change of user.
- Posts.PostStore.AddPost: the thrown error is the `RateLimited` outcome carrying the number of seconds; the message text is not modelled.
