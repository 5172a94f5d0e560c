/** Materialising a post's comment forest: each raw comment of the client
    library becomes a record with its depth and its kept replies, down to an
    optional depth limit; the top-level listing is cut at a count of kept
    comments. */
module CommentTree {
  import opened Wrappers
  import opened Text
  import opened ErrorHandler
  import Retry

  /** A comment as the client library delivers it. `MoreComments` is the
      placeholder for replies not loaded. `author` is None for a deleted
      account, `body` is None when the object has no body attribute.
      `failAt` = Some(k) says that expanding the replies raises once k of
      them have been handled (k = 0: the expansion itself raises). */
  datatype RawComment =
    | MoreComments
    | RawNode(id: string, author: Option<string>, body: Option<string>, createdUtc: real,
              score: int, isSubmitter: bool, stickied: bool, parentId: string,
              permalink: string, replies: seq<RawComment>, failAt: Option<nat>)

  /** The record produced for a kept comment. */
  datatype Comment = Comment(id: string, author: string, body: string, createdUtc: real,
                             score: int, isSubmitter: bool, stickied: bool, parentId: string,
                             permalink: string, depth: int, replies: seq<Comment>)

  /** A placeholder, a comment without a body or a comment whose author is gone. */
  predicate Skipped(c: RawComment) {
    c.MoreComments? || c.body.None? || c.author.None?
  }

  /** Replies are expanded at this depth. */
  predicate DepthAllows(depth: int, maxDepth: Option<int>) {
    maxDepth.None? || depth < maxDepth.value
  }

  /** How many replies are handled before the expansion stops. */
  function Handled(c: RawComment): (k: nat)
    requires c.RawNode?
    ensures k <= |c.replies|
    ensures c.failAt.None? ==> k == |c.replies|
    ensures c.failAt.Some? && c.failAt.value < |c.replies| ==> k == c.failAt.value
    ensures c.failAt.Some? && c.failAt.value >= |c.replies| ==> k == |c.replies|
  {
    if c.failAt.Some? && c.failAt.value < |c.replies| then c.failAt.value else |c.replies|
  }

  /** The record of a kept comment, before its replies are added. */
  function Record(c: RawComment, depth: int): (t: Comment)
    requires !Skipped(c)
    ensures t.id == c.id && t.depth == depth && t.replies == []
    ensures t.permalink == "https://www.reddit.com" + c.permalink
  {
    Comment(c.id, c.author.value, c.body.value, c.createdUtc, c.score, c.isSubmitter,
            c.stickied, c.parentId, "https://www.reddit.com" + c.permalink, depth, [])
  }

  /** What processing `c` at `depth` yields. */
  function Process(c: RawComment, depth: int, maxDepth: Option<int>): (r: Option<Comment>)
    ensures r.None? <==> Skipped(c)
    ensures r.Some? ==> r.value.id == c.id && r.value.depth == depth
    ensures r.Some? && !DepthAllows(depth, maxDepth) ==> r.value.replies == []
    decreases c, 1
  {
    if Skipped(c) then None
    else if !DepthAllows(depth, maxDepth) then Some(Record(c, depth))
    else Some(Record(c, depth).(replies := ProcessReplies(c, depth + 1, maxDepth, Handled(c))))
  }

  /** The kept results of the first `n` replies of `c`, processed at `depth`, in order. */
  function ProcessReplies(c: RawComment, depth: int, maxDepth: Option<int>, n: nat): (rs: seq<Comment>)
    requires c.RawNode? && n <= |c.replies|
    ensures |rs| <= n
    decreases c, 0, n
  {
    if n == 0 then []
    else
      var prefix := ProcessReplies(c, depth, maxDepth, n - 1);
      match Process(c.replies[n - 1], depth, maxDepth)
      case None => prefix
      case Some(t) => prefix + [t]
  }

  /** `_process_comment`: the record of `c` with its replies processed
      recursively; an exception while expanding ends the expansion and keeps
      what was appended. */
  method ProcessComment(c: RawComment, depth: int, maxDepth: Option<int>) returns (r: Option<Comment>)
    ensures r == Process(c, depth, maxDepth)
    decreases c
  {
    if c.MoreComments? || c.body.None? || c.author.None? {
      return None;
    }
    var data := Record(c, depth);
    if maxDepth.Some? && depth >= maxDepth.value {
      return Some(data);
    }
    var replies: seq<Comment> := [];
    var i := 0;
    while i < |c.replies|
      invariant i <= Handled(c)
      invariant replies == ProcessReplies(c, depth + 1, maxDepth, i)
    {
      if c.failAt == Some(i) {
        break;
      }
      var child := ProcessComment(c.replies[i], depth + 1, maxDepth);
      if child.Some? {
        replies := replies + [child.value];
      }
      i := i + 1;
    }
    return Some(data.(replies := replies));
  }

  // ---------------------------------------------------------------------
  // Properties of one node

  function Ids(ts: seq<Comment>): (ids: seq<string>)
    ensures |ids| == |ts|
    ensures forall i :: 0 <= i < |ts| ==> ids[i] == ts[i].id
  {
    seq(|ts|, i requires 0 <= i < |ts| => ts[i].id)
  }

  /** The ids of the raw comments that are not skipped, in order. */
  function KeptIds(cs: seq<RawComment>): seq<string> {
    if cs == [] then []
    else KeptIds(cs[..|cs| - 1]) + (if Skipped(cs[|cs| - 1]) then [] else [cs[|cs| - 1].id])
  }

  /** The kept replies are exactly the handled replies that are not skipped,
      in their original order. */
  lemma {:induction false} RepliesInOrder(c: RawComment, depth: int, maxDepth: Option<int>, n: nat)
    requires c.RawNode? && n <= |c.replies|
    ensures Ids(ProcessReplies(c, depth, maxDepth, n)) == KeptIds(c.replies[..n])
  {
    if n > 0 {
      RepliesInOrder(c, depth, maxDepth, n - 1);
      assert c.replies[..n][..n - 1] == c.replies[..n - 1];
    }
  }

  /** A kept node's replies: empty at the depth limit, otherwise the non-skipped
      replies handled before any failure, in order. */
  lemma KeptReplies(c: RawComment, depth: int, maxDepth: Option<int>)
    requires !Skipped(c)
    ensures var t := Process(c, depth, maxDepth).value;
      && (!DepthAllows(depth, maxDepth) ==> t.replies == [])
      && (DepthAllows(depth, maxDepth) ==> Ids(t.replies) == KeptIds(c.replies[..Handled(c)]))
  {
    if DepthAllows(depth, maxDepth) {
      RepliesInOrder(c, depth + 1, maxDepth, Handled(c));
    }
  }

  /** A failure after k replies gives the same node as a comment that only had
      those k replies: what was collected before the exception is kept. */
  lemma {:induction false} FailureKeepsPrefix(c: RawComment, depth: int, maxDepth: Option<int>, k: nat)
    requires c.RawNode? && c.failAt == Some(k) && k <= |c.replies|
    ensures Process(c, depth, maxDepth) == Process(c.(replies := c.replies[..k], failAt := None), depth, maxDepth)
  {
    var d := c.(replies := c.replies[..k], failAt := None);
    if !Skipped(c) && DepthAllows(depth, maxDepth) {
      SamePrefixSameReplies(c, d, depth + 1, maxDepth, k);
    }
  }

  lemma {:induction false} SamePrefixSameReplies(c: RawComment, d: RawComment, depth: int, maxDepth: Option<int>, n: nat)
    requires c.RawNode? && d.RawNode? && n <= |c.replies| && n <= |d.replies|
    requires c.replies[..n] == d.replies[..n]
    ensures ProcessReplies(c, depth, maxDepth, n) == ProcessReplies(d, depth, maxDepth, n)
  {
    if n > 0 {
      assert c.replies[..n - 1] == c.replies[..n][..n - 1];
      assert d.replies[..n - 1] == d.replies[..n][..n - 1];
      assert c.replies[n - 1] == c.replies[..n][n - 1];
      assert d.replies[n - 1] == d.replies[..n][n - 1];
      SamePrefixSameReplies(c, d, depth, maxDepth, n - 1);
    }
  }

  /** The shape of a produced tree: every reply sits one level below its
      parent, and a node at or past the depth limit has no replies. */
  predicate TreeShape(t: Comment, maxDepth: Option<int>) {
    && (!DepthAllows(t.depth, maxDepth) ==> t.replies == [])
    && forall r :: r in t.replies ==> r.depth == t.depth + 1 && TreeShape(r, maxDepth)
  }

  /** Every node below the limit depth is at most the limit. */
  predicate DepthsAtMost(t: Comment, bound: int) {
    t.depth <= bound && forall r :: r in t.replies ==> DepthsAtMost(r, bound)
  }

  lemma {:induction false} ProcessShape(c: RawComment, depth: int, maxDepth: Option<int>)
    requires !Skipped(c)
    ensures TreeShape(Process(c, depth, maxDepth).value, maxDepth)
    decreases c, 1
  {
    if DepthAllows(depth, maxDepth) {
      RepliesShape(c, depth + 1, maxDepth, Handled(c));
    }
  }

  lemma {:induction false} RepliesShape(c: RawComment, depth: int, maxDepth: Option<int>, n: nat)
    requires c.RawNode? && n <= |c.replies|
    ensures forall r :: r in ProcessReplies(c, depth, maxDepth, n) ==> r.depth == depth && TreeShape(r, maxDepth)
    decreases c, 0, n
  {
    if n > 0 {
      RepliesShape(c, depth, maxDepth, n - 1);
      if !Skipped(c.replies[n - 1]) {
        ProcessShape(c.replies[n - 1], depth, maxDepth);
      }
    }
  }

  /** In a well-shaped tree that starts at or below the limit, no node is
      deeper than the limit. */
  lemma {:induction false} ShapeBoundsDepth(t: Comment, m: int)
    requires TreeShape(t, Some(m)) && t.depth <= m
    ensures DepthsAtMost(t, m)
    decreases t
  {
    forall r | r in t.replies
      ensures DepthsAtMost(r, m)
    {
      ShapeBoundsDepth(r, m);
    }
  }

  /** With a depth limit m, processing from depth 0 never records a depth above m. */
  lemma DepthLimitRespected(c: RawComment, m: int)
    requires !Skipped(c) && m >= 0
    ensures DepthsAtMost(Process(c, 0, Some(m)).value, m)
  {
    ProcessShape(c, 0, Some(m));
    ShapeBoundsDepth(Process(c, 0, Some(m)).value, m);
  }

  // ---------------------------------------------------------------------
  // The top-level listing

  const ValidPrawSorts: seq<string> := ["best", "top", "new", "controversial", "old", "q&a"]

  /** The sort sent to the library: 'score' is asked for as 'top', anything
      unknown as 'best', letter case ignored. */
  function PrawSort(sortOrder: string): (s: string)
    ensures s in ValidPrawSorts
    ensures Lower(sortOrder) == "score" ==> s == "top"
    ensures Lower(sortOrder) in ValidPrawSorts ==> s == Lower(sortOrder)
    ensures Lower(sortOrder) != "score" && Lower(sortOrder) !in ValidPrawSorts ==> s == "best"
  {
    var requested := if Lower(sortOrder) == "score" then "top" else Lower(sortOrder);
    if requested in ValidPrawSorts then requested else "best"
  }

  /** The listing size asked of the library: twice the wanted count, or 20
      when the count is zero. */
  function FetchLimit(num: int): int {
    if num != 0 then num * 2 else 20
  }

  /** Python's `s[:n]`. */
  function SlicePrefix<T>(s: seq<T>, n: int): (r: seq<T>)
    ensures n >= |s| ==> r == s
    ensures 0 <= n <= |s| ==> r == s[..n]
    ensures n < 0 ==> r == s[..if |s| + n < 0 then 0 else |s| + n]
  {
    if n >= |s| then s
    else if n >= 0 then s[..n]
    else if |s| + n < 0 then []
    else s[..|s| + n]
  }

  /** At most `n` elements from the front (none when `n` is not positive). */
  function Take<T>(s: seq<T>, n: int): (r: seq<T>)
    ensures |r| <= |s| && r == s[..|r|]
    ensures |r| == if n <= 0 then 0 else if n < |s| then n else |s|
  {
    if n <= 0 then [] else if n < |s| then s[..n] else s
  }

  /** The kept top-level comments of a listing, each processed at depth 0. */
  function Materialise(items: seq<RawComment>, maxDepth: Option<int>): seq<Comment> {
    if items == [] then []
    else
      Materialise(items[..|items| - 1], maxDepth)
        + match Process(items[|items| - 1], 0, maxDepth) case None => [] case Some(t) => [t]
  }

  lemma {:induction false} MaterialiseAppend(a: seq<RawComment>, b: seq<RawComment>, maxDepth: Option<int>)
    ensures Materialise(a + b, maxDepth) == Materialise(a, maxDepth) + Materialise(b, maxDepth)
    decreases |b|
  {
    if b == [] {
      assert a + b == a;
    } else {
      var b' := b[..|b| - 1];
      assert (a + b)[..|a + b| - 1] == a + b';
      assert (a + b)[|a + b| - 1] == b[|b| - 1];
      MaterialiseAppend(a, b', maxDepth);
    }
  }

  /** How a failed listing surfaces from the comment fetch. */
  function ListingError(postId: string, e: Error): (r: Error)
    ensures r.cause == Some(e) && r.status == None
    ensures r.cls == Extractor(Authentication) <==> IsPrawException(e.cls) && Retry.MentionsAuthFailure(e)
    ensures r.cls == Extractor(Authentication) || r.cls == Extractor(CommentRetrieval)
    ensures !IsPrawException(e.cls) ==> Contains(r.message, e.message)
  {
    if IsPrawException(e.cls) then
      if Retry.MentionsAuthFailure(e) then
        Error(Extractor(Authentication),
              "Authentication error fetching comments for post " + postId + ".", None, Some(e))
      else if Contains(e.message, "404") || Contains(Lower(e.message), "not found") then
        Error(Extractor(CommentRetrieval),
              "Post " + postId + " comments not found or post became inaccessible (404).", None, Some(e))
      else
        Error(Extractor(CommentRetrieval),
              "Failed to fetch comments for post " + postId + " due to API error: " + e.message, None, Some(e))
    else
      var text := "An unexpected error occurred while fetching comments for post " + postId + ": ";
      ContainsAt(text + e.message, e.message, |text|);
      Error(Extractor(CommentRetrieval), text + e.message, None, Some(e))
  }

  /** The library's comment listing for a sort and a limit, or the error it raises. */
  type Listing = (string, int) -> Result<seq<RawComment>, Error>

  /** What one call of `fetch_comments_data` yields. */
  function FetchComments(postId: string, sortOrder: string, num: int, maxDepth: Option<int>,
                         listing: Listing): Result<seq<Comment>, Error>
  {
    match listing(PrawSort(sortOrder), FetchLimit(num))
    case Failure(e) => Failure(ListingError(postId, e))
    case Success(items) => Success(Take(Materialise(items, maxDepth), num))
  }

  /** `fetch_comments_data` (one attempt, without the retry decorator): walk
      the listing, keep processed comments, stop once `num` are kept. */
  method FetchCommentsData(postId: string, sortOrder: string, num: int, maxDepth: Option<int>,
                           listing: Listing)
    returns (r: Result<seq<Comment>, Error>)
    ensures r == FetchComments(postId, sortOrder, num, maxDepth, listing)
  {
    var sort := Lower(sortOrder);
    if sort == "score" {
      sort := "top";
    }
    if sort !in ValidPrawSorts {
      sort := "best";
    }
    assert sort == PrawSort(sortOrder);
    var limit := if num != 0 then num * 2 else 20;
    var fetched := listing(sort, limit);
    if fetched.Failure? {
      return Failure(ListingError(postId, fetched.error));
    }
    var items := fetched.value;
    var comments: seq<Comment> := [];
    var count := 0;
    var i := 0;
    while i < |items|
      invariant 0 <= i <= |items|
      invariant comments == Materialise(items[..i], maxDepth)
      invariant count == |comments|
      invariant count <= if num > 0 then num else 0
    {
      if count >= num {
        break;
      }
      assert items[..i + 1][..i] == items[..i];
      var data := ProcessComment(items[i], 0, maxDepth);
      if data.Some? {
        comments := comments + [data.value];
        count := count + 1;
      }
      i := i + 1;
    }
    LoopStopsAtNum(items, i, num, maxDepth);
    if Lower(sortOrder) == "score" {
      // the sort sent was 'top', so the list is only cut to `num`
      comments := SlicePrefix(comments, num);
    }
    return Success(comments);
  }

  /** Where the walk stops, after the whole listing or on reaching `num`
      kept comments, what it kept is the first `num` kept comments. */
  lemma LoopStopsAtNum(items: seq<RawComment>, i: nat, num: int, maxDepth: Option<int>)
    requires i <= |items|
    requires |Materialise(items[..i], maxDepth)| <= if num > 0 then num else 0
    requires i < |items| ==> |Materialise(items[..i], maxDepth)| >= num
    ensures Take(Materialise(items, maxDepth), num) == Materialise(items[..i], maxDepth)
    ensures SlicePrefix(Materialise(items[..i], maxDepth), num) == Materialise(items[..i], maxDepth)
  {
    MaterialiseAppend(items[..i], items[i..], maxDepth);
    assert items[..i] + items[i..] == items;
  }

  /** At most `num` top-level comments come back, they are the first kept
      comments of the listing in its order, each at depth 0 and well shaped;
      placeholders and skipped comments do not count. */
  lemma FetchedComments(postId: string, sortOrder: string, num: int, maxDepth: Option<int>, listing: Listing)
    requires listing(PrawSort(sortOrder), FetchLimit(num)).Success?
    ensures var items := listing(PrawSort(sortOrder), FetchLimit(num)).value;
            var r := FetchComments(postId, sortOrder, num, maxDepth, listing).value;
      && |r| == (if num <= 0 then 0 else if num < |KeptIds(items)| then num else |KeptIds(items)|)
      && Ids(r) == KeptIds(items)[..|r|]
      && forall t :: t in r ==> t.depth == 0 && TreeShape(t, maxDepth)
  {
    var items := listing(PrawSort(sortOrder), FetchLimit(num)).value;
    MaterialisedIds(items, maxDepth);
    MaterialisedShape(items, maxDepth);
    var all := Materialise(items, maxDepth);
    var r := Take(all, num);
    assert Ids(r) == Ids(all)[..|r|];
  }

  lemma {:induction false} MaterialisedIds(items: seq<RawComment>, maxDepth: Option<int>)
    ensures Ids(Materialise(items, maxDepth)) == KeptIds(items)
  {
    if items != [] {
      MaterialisedIds(items[..|items| - 1], maxDepth);
    }
  }

  lemma {:induction false} MaterialisedShape(items: seq<RawComment>, maxDepth: Option<int>)
    ensures forall t :: t in Materialise(items, maxDepth) ==> t.depth == 0 && TreeShape(t, maxDepth)
  {
    if items != [] {
      MaterialisedShape(items[..|items| - 1], maxDepth);
      if !Skipped(items[|items| - 1]) {
        ProcessShape(items[|items| - 1], 0, maxDepth);
      }
    }
  }

  /** With a depth limit of 0 every top-level comment comes back without replies. */
  lemma DepthZeroHasNoReplies(postId: string, sortOrder: string, num: int, listing: Listing)
    requires listing(PrawSort(sortOrder), FetchLimit(num)).Success?
    ensures forall t :: t in FetchComments(postId, sortOrder, num, Some(0), listing).value ==> t.replies == []
  {
    FetchedComments(postId, sortOrder, num, Some(0), listing);
  }

  /** `fetch_comments_data` as wrapped by the retry decorator: attempt `i`
      sees listing `listings(i)`. Whatever error finally leaves the wrapper is
      an authentication or a comment-retrieval error. */
  function FetchAttempt(postId: string, sortOrder: string, num: int, maxDepth: Option<int>,
                        listing: Listing): Retry.Attempt<seq<Comment>>
  {
    match FetchComments(postId, sortOrder, num, maxDepth, listing)
    case Success(v) => Retry.Returns(v)
    case Failure(e) => Retry.Raises(e)
  }

  /** The attempts seen by the retry wrapper. */
  function FetchAttempts(postId: string, sortOrder: string, num: int, maxDepth: Option<int>,
                         listings: nat -> Listing): nat -> Retry.Attempt<seq<Comment>>
  {
    (i: nat) => FetchAttempt(postId, sortOrder, num, maxDepth, listings(i))
  }

  /** An attempt raises only authentication or comment-retrieval errors. */
  lemma AttemptErrors(postId: string, sortOrder: string, num: int, maxDepth: Option<int>, listing: Listing)
    ensures var a := FetchAttempt(postId, sortOrder, num, maxDepth, listing);
      a.Raises? ==> a.error.cls == Extractor(Authentication) || a.error.cls == Extractor(CommentRetrieval)
  {
  }

  lemma RetriedFetchErrors(postId: string, sortOrder: string, num: int, maxDepth: Option<int>,
                           listings: nat -> Listing, rand: nat -> real)
    ensures var r := Retry.RunAll(Retry.DefaultPolicy, Retry.FetchComments,
                                  FetchAttempts(postId, sortOrder, num, maxDepth, listings), rand);
      r.result.Failure? ==>
        r.result.error.cls == Extractor(Authentication) || r.result.error.cls == Extractor(CommentRetrieval)
  {
    var call := FetchAttempts(postId, sortOrder, num, maxDepth, listings);
    Retry.RunShape(Retry.DefaultPolicy, Retry.FetchComments, call, rand, 0, Retry.DefaultPolicy.baseDelay);
    var r := Retry.RunAll(Retry.DefaultPolicy, Retry.FetchComments, call, rand);
    if r.result.Failure? {
      var k := r.attempts - 1;
      AttemptErrors(postId, sortOrder, num, maxDepth, listings(k));
      assert call(k) == FetchAttempt(postId, sortOrder, num, maxDepth, listings(k));
    }
  }
}
