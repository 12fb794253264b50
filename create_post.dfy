/**
 * The post composer of src/components/CreatePost.tsx: the checks `handleSubmit` makes before
 * it calls `addPost`, what it does with the result, and when the submit button is disabled.
 */
module CreatePost {
  import opened Wrappers
  import opened Posts

  const MaxChars: int := 280

  // ---------------------------------------------------------------------------------------
  // String.prototype.trim
  // ---------------------------------------------------------------------------------------

  /** The characters `trim()` strips: ECMAScript white space and line terminators. */
  predicate IsTrimmable(c: char)
  {
    || c == '\t' || c == '\n' || c == '\U{000B}' || c == '\U{000C}' || c == '\r' || c == ' '
    || c == '\U{00A0}' || c == '\U{1680}' || '\U{2000}' <= c <= '\U{200A}'
    || c == '\U{2028}' || c == '\U{2029}' || c == '\U{202F}' || c == '\U{205F}'
    || c == '\U{3000}' || c == '\U{FEFF}'
  }

  /** The content counts as empty: nothing but trimmable characters. */
  predicate IsBlank(s: string)
  {
    forall i :: 0 <= i < |s| ==> IsTrimmable(s[i])
  }

  /** Strips leading trimmable characters: the result is the suffix that starts at the first other character. */
  function TrimStart(s: string): (r: string)
    ensures |r| <= |s| && r == s[|s| - |r|..]
    ensures forall i :: 0 <= i < |s| - |r| ==> IsTrimmable(s[i])
    ensures r != [] ==> !IsTrimmable(r[0])
    decreases |s|
  {
    if s != [] && IsTrimmable(s[0]) then TrimStart(s[1..]) else s
  }

  /** Strips trailing trimmable characters: the result is the prefix that ends at the last other character. */
  function TrimEnd(s: string): (r: string)
    ensures |r| <= |s| && r == s[..|r|]
    ensures forall i :: |r| <= i < |s| ==> IsTrimmable(s[i])
    ensures r != [] ==> !IsTrimmable(r[|r| - 1])
    decreases |s|
  {
    if s != [] && IsTrimmable(s[|s| - 1]) then TrimEnd(s[..|s| - 1]) else s
  }

  /** `s.trim()` */
  function Trim(s: string): string
  {
    TrimEnd(TrimStart(s))
  }

  /** `!content.trim()` holds exactly for blank content, whitespace-only content included. */
  lemma TrimEmptyIffBlank(s: string)
    ensures Trim(s) == [] <==> IsBlank(s)
  {
    var t := TrimStart(s);
    if t != [] {
      assert !IsTrimmable(t[0]);
      assert TrimEnd(t) != [];
      assert s[|s| - |t|] == t[0];
    } else {
      assert IsBlank(s);
    }
  }

  // ---------------------------------------------------------------------------------------
  // String.prototype.length
  // ---------------------------------------------------------------------------------------

  /** A character outside the Basic Multilingual Plane, which UTF-16 stores as a surrogate pair. */
  predicate IsAstral(c: char)
  {
    c >= '\U{10000}'
  }

  /** `s.length`: the number of UTF-16 code units, two for each astral character and one for any other. */
  function Utf16Length(s: string): (n: nat)
    ensures |s| <= n <= 2 * |s|
    ensures n == |s| <==> forall i :: 0 <= i < |s| ==> !IsAstral(s[i])
    ensures n == 2 * |s| <==> forall i :: 0 <= i < |s| ==> IsAstral(s[i])
    decreases |s|
  {
    if s == [] then 0
    else (if IsAstral(s[0]) then 2 else 1) + Utf16Length(s[1..])
  }

  /** Lengths of concatenated strings add up. */
  lemma {:induction false} Utf16LengthAppend(a: string, b: string)
    ensures Utf16Length(a + b) == Utf16Length(a) + Utf16Length(b)
    decreases |a|
  {
    if a != [] {
      assert (a + b)[1..] == a[1..] + b;
      Utf16LengthAppend(a[1..], b);
    } else {
      assert a + b == b;
    }
  }

  /** 141 copies of U+1F600 are 141 characters but 282 code units. */
  lemma EmojiRunLength()
    ensures |seq(141, _ => '\U{1F600}')| == 141
    ensures Utf16Length(seq(141, _ => '\U{1F600}')) == 282
  {
    var s := seq(141, _ => '\U{1F600}');
    assert forall i :: 0 <= i < |s| ==> IsAstral(s[i]);
  }

  // ---------------------------------------------------------------------------------------
  // The guard chain of handleSubmit (lines 21-46)
  // ---------------------------------------------------------------------------------------

  datatype Rejection = NotLoggedIn | EmptyPost | TooLong

  /** The first failing check, in the order authentication, emptiness, length; `None` lets the post through. */
  function SubmitGate(authenticated: bool, content: string): (r: Option<Rejection>)
    ensures r.None? <==> authenticated && !IsBlank(content) && Utf16Length(content) <= MaxChars
    ensures !authenticated ==> r == Some(NotLoggedIn)
    ensures authenticated && IsBlank(content) ==> r == Some(EmptyPost)
    ensures r == Some(TooLong) <==> authenticated && !IsBlank(content) && Utf16Length(content) > MaxChars
  {
    TrimEmptyIffBlank(content);
    if !authenticated then Some(NotLoggedIn)
    else if Trim(content) == [] then Some(EmptyPost)
    else if Utf16Length(content) > MaxChars then Some(TooLong)
    else None
  }

  /**
   * The length limit counts UTF-16 code units, surrounding white space included: 280 pass,
   * 281 are too long, 141 emoji outside the Basic Multilingual Plane are too long, and the
   * empty string is refused as empty.
   */
  lemma LengthBoundary(content: string)
    ensures SubmitGate(true, []) == Some(EmptyPost)
    ensures !IsBlank(content) && Utf16Length(content) == MaxChars ==> SubmitGate(true, content).None?
    ensures !IsBlank(content) && Utf16Length(content) == MaxChars + 1 ==> SubmitGate(true, content) == Some(TooLong)
    ensures SubmitGate(true, seq(141, _ => '\U{1F600}')) == Some(TooLong)
  {
    EmojiRunLength();
    var s := seq(141, _ => '\U{1F600}');
    assert !IsTrimmable(s[0]);
  }

  // ---------------------------------------------------------------------------------------
  // Disabled controls (lines 87 and 100-106)
  // ---------------------------------------------------------------------------------------

  /** The submit button's `disabled` expression. */
  function SubmitDisabled(authenticated: bool, isSubmitting: bool, content: string, cooldownRemaining: int): (r: bool)
    ensures !r <==> SubmitGate(authenticated, content).None? && !isSubmitting && cooldownRemaining <= 0
  {
    TrimEmptyIffBlank(content);
    !authenticated || isSubmitting || Trim(content) == [] || Utf16Length(content) > MaxChars || cooldownRemaining > 0
  }

  /** The text area's `disabled` expression; whenever it holds, the button is disabled too. */
  function TextareaDisabled(authenticated: bool, cooldownRemaining: int): (r: bool)
    ensures !authenticated ==> r
    ensures cooldownRemaining > 0 ==> r
    ensures forall submitting, content :: r ==> SubmitDisabled(authenticated, submitting, content, cooldownRemaining)
  {
    !authenticated || cooldownRemaining > 0
  }

  /**
   * A click on an enabled button, at the time it was rendered or later, passes every check and
   * `addPost` accepts the post.
   */
  lemma EnabledSubmitIsAccepted(s: StoreState, user: Option<UserId>, content: string, shownAt: int, now: int, id: PostId)
    requires !SubmitDisabled(user.Some?, false, content, Countdown(s.lastPostTime, shownAt))
    requires shownAt <= now
    ensures SubmitGate(user.Some?, content).None?
    ensures AfterAddPost(s, user, content, id, now).1 == Created(NewPost(id, user.value, content, now))
  {
    CountdownZeroAllowsLaterPost(s.lastPostTime, shownAt, now);
  }

  // ---------------------------------------------------------------------------------------
  // handleSubmit (lines 20-67)
  // ---------------------------------------------------------------------------------------

  /** The toast shown at the end of a submit. */
  datatype Notice = Rejected(reason: Rejection) | Published | CouldNotPost(retryAfterSeconds: int)

  /** The composer's state (`content`, `isSubmitting`) and the store its `usePosts` hook reaches. */
  class Composer {
    var content: string
    var isSubmitting: bool
    const store: PostStore

    constructor (store: PostStore)
      ensures this.store == store && content == [] && !isSubmitting
    {
      this.store := store;
      content := [];
      isSubmitting := false;
    }

    /**
     * A rejected submit changes nothing; an accepted one calls `addPost` once, clears the
     * content only when the post was published, and always ends with `isSubmitting` false.
     */
    method HandleSubmit(user: Option<UserId>, id: PostId, now: int) returns (notice: Notice)
      requires forall j :: 0 <= j < |store.posts| ==> store.posts[j].id != id
      modifies this, store
      ensures SubmitGate(user.Some?, old(content)).Some? ==>
        && notice == Rejected(SubmitGate(user.Some?, old(content)).value)
        && content == old(content) && isSubmitting == old(isSubmitting)
        && store.State() == old(store.State())
      ensures SubmitGate(user.Some?, old(content)).None? ==>
        var (after, outcome) := AfterAddPost(old(store.State()), user, old(content), id, now);
        && store.State() == after && !isSubmitting
        && (outcome.RateLimited? ==> notice == CouldNotPost(outcome.retryAfterSeconds) && content == old(content))
        && (outcome.Created? ==> notice == Published && content == [])
        && !outcome.Ignored?
    {
      if user.None? {
        return Rejected(NotLoggedIn);
      }
      TrimEmptyIffBlank(content);
      if Trim(content) == [] {
        return Rejected(EmptyPost);
      }
      if Utf16Length(content) > MaxChars {
        return Rejected(TooLong);
      }
      isSubmitting := true;
      var outcome := store.AddPost(user, content, id, now);
      if outcome.RateLimited? {
        notice := CouldNotPost(outcome.retryAfterSeconds);
      } else {
        content := [];
        notice := Published;
      }
      isSubmitting := false;
    }
  }
}
