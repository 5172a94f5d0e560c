/** Which media URLs the extractor offers for download: the direct links among
    a post's media items, the direct Reddit image links written in comment
    bodies at any depth, and the list a chosen download scope yields. */
module RedditExtractor {
  import opened Wrappers
  import opened Text
  import opened UrlParse

  // ---------------------------------------------------------------------
  // Lists without repeats

  predicate NoDuplicates<T(==)>(s: seq<T>) {
    forall i, j :: 0 <= i < j < |s| ==> s[i] != s[j]
  }

  /** Index of the first occurrence of `x` in `s`. */
  function FirstIndex<T(==)>(s: seq<T>, x: T): (k: nat)
    requires x in s
    ensures k < |s| && s[k] == x && x !in s[..k]
  {
    if s[0] == x then 0
    else
      var k := 1 + FirstIndex(s[1..], x);
      assert s[..k] == [s[0]] + s[1..][..k - 1];
      k
  }

  /** `acc` extended by the elements of `xs` it does not hold yet, each
      appended once, in the order of `xs`: the loop that appends an item
      when it is not already in the list. */
  function AppendNew<T(==)>(acc: seq<T>, xs: seq<T>): (r: seq<T>)
    ensures |acc| <= |r| && r[..|acc|] == acc
    decreases |xs|
  {
    if xs == [] then acc
    else
      var p := AppendNew(acc, xs[..|xs| - 1]);
      var x := xs[|xs| - 1];
      if x in p then p else p + [x]
  }

  /** The result holds exactly what `acc` and `xs` hold. */
  lemma {:induction false} AppendNewMembers<T>(acc: seq<T>, xs: seq<T>)
    ensures forall x :: x in AppendNew(acc, xs) <==> x in acc || x in xs
    decreases |xs|
  {
    if xs != [] {
      AppendNewMembers(acc, xs[..|xs| - 1]);
      assert xs == xs[..|xs| - 1] + [xs[|xs| - 1]];
    }
  }

  /** Nothing is appended twice, so a list without repeats stays so. */
  lemma {:induction false} AppendNewNoDuplicates<T>(acc: seq<T>, xs: seq<T>)
    requires NoDuplicates(acc)
    ensures NoDuplicates(AppendNew(acc, xs))
    decreases |xs|
  {
    if xs != [] {
      AppendNewNoDuplicates(acc, xs[..|xs| - 1]);
    }
  }

  /** Every appended element comes from `xs` and was not in `acc`. */
  lemma {:induction false} AppendedAreNew<T>(acc: seq<T>, xs: seq<T>)
    ensures forall a :: |acc| <= a < |AppendNew(acc, xs)| ==>
      AppendNew(acc, xs)[a] !in acc && AppendNew(acc, xs)[a] in xs
    decreases |xs|
  {
    if xs != [] {
      var ys := xs[..|xs| - 1];
      var x := xs[|xs| - 1];
      assert xs == ys + [x];
      var p := AppendNew(acc, ys);
      AppendedAreNew(acc, ys);
      assert forall a :: |acc| <= a < |p| ==> p[a] !in acc && p[a] in ys;
      AppendNewMembers(acc, ys);
      var r := AppendNew(acc, xs);
      assert r == if x in p then p else p + [x];
      forall a | |acc| <= a < |r|
        ensures r[a] !in acc && r[a] in xs
      {
        if a < |p| {
          assert r[a] == p[a];
          assert p[a] !in acc && p[a] in ys;
        } else {
          assert r[a] == x;
        }
      }
    }
  }

  /** Appended elements keep the order of their first occurrences in `xs`. */
  lemma {:induction false} AppendNewOrder<T>(acc: seq<T>, xs: seq<T>, a: nat, b: nat)
    requires |acc| <= a < b < |AppendNew(acc, xs)|
    ensures AppendNew(acc, xs)[a] in xs && AppendNew(acc, xs)[b] in xs
    ensures FirstIndex(xs, AppendNew(acc, xs)[a]) < FirstIndex(xs, AppendNew(acc, xs)[b])
    decreases |xs|
  {
    var ys := xs[..|xs| - 1];
    var x := xs[|xs| - 1];
    var p := AppendNew(acc, ys);
    var r := AppendNew(acc, xs);
    AppendedAreNew(acc, xs);
    AppendedAreNew(acc, ys);
    AppendNewMembers(acc, ys);
    if b < |p| {
      AppendNewOrder(acc, ys, a, b);
      FirstIndexPrefix(xs, ys, r[a]);
      FirstIndexPrefix(xs, ys, r[b]);
    } else {
      assert r[b] == x && x !in ys;
      assert r[a] == p[a] && p[a] in ys;
      FirstIndexPrefix(xs, ys, r[a]);
      FirstIndexLast(xs, ys, x);
    }
  }

  /** An element of a prefix has its first occurrence there. */
  lemma FirstIndexPrefix<T>(xs: seq<T>, ys: seq<T>, x: T)
    requires |ys| <= |xs| && ys == xs[..|ys|] && x in ys
    ensures x in xs && FirstIndex(xs, x) == FirstIndex(ys, x)
  {
    var k := FirstIndex(ys, x);
    assert xs[k] == x;
    assert xs[..k] == ys[..k];
  }

  /** The last element, absent before, first occurs at the end. */
  lemma FirstIndexLast<T>(xs: seq<T>, ys: seq<T>, x: T)
    requires xs == ys + [x] && x !in ys
    ensures FirstIndex(xs, x) == |ys|
  {
    assert xs[..|ys|] == ys;
  }

  // ---------------------------------------------------------------------
  // Media URLs of the post

  /** A field of a JSON-like dictionary: missing, a string, or a value of
      another type. */
  datatype Value = Missing | Str(s: string) | NotAString

  /** An entry of a post's media list: a dictionary with its 'url', 'type'
      and 'fallback_url' fields, or any other value. */
  datatype MediaItem =
    | NotADict
    | MediaDict(url: Value, itemType: Value, fallbackUrl: Value)

  /** A field holding a non-empty string (what `x and isinstance(x, str)`
      accepts). */
  predicate IsUsable(v: Value) {
    v.Str? && v.s != []
  }

  /** The URL before any query: `url.split('?')[0]`. */
  function PathPart(url: string): (p: string)
    ensures StartsWith(url, p) && '?' !in p
  {
    BeforeFirst(url, '?')
  }

  predicate IsDirectVideo(url: string) {
    EndsWith(PathPart(url), ".mp4") || EndsWith(PathPart(url), ".gif")
  }

  predicate IsDirectMedia(url: string) {
    || EndsWith(PathPart(url), ".jpg")
    || EndsWith(PathPart(url), ".jpeg")
    || EndsWith(PathPart(url), ".png")
    || EndsWith(PathPart(url), ".gif")
    || EndsWith(PathPart(url), ".mp4")
  }

  predicate IsYoutube(url: string) {
    Contains(url, "youtube.com/watch") || Contains(url, "youtu.be/")
  }

  /** The URL an entry contributes, if any. A Reddit video contributes its
      primary URL when that is a direct MP4 or GIF, else its fallback URL
      under the same test; any other entry contributes its URL when that is
      a direct media link and not a YouTube page. */
  function Candidate(item: MediaItem): (r: Option<string>)
    ensures r.Some? ==> r.value != [] && IsDirectMedia(r.value)
  {
    if item.NotADict? then None
    else if item.itemType == Str("reddit_video") then
      if IsUsable(item.url) && IsDirectVideo(item.url.s) then Some(item.url.s)
      else if IsUsable(item.fallbackUrl) && IsDirectVideo(item.fallbackUrl.s) then Some(item.fallbackUrl.s)
      else None
    else if IsUsable(item.url) && !IsYoutube(item.url.s) && IsDirectMedia(item.url.s) then Some(item.url.s)
    else None
  }

  /** The contributed URLs of the entries, in order, repeats included. */
  function Candidates(items: seq<MediaItem>): (cs: seq<string>)
    ensures |cs| <= |items|
  {
    if items == [] then []
    else
      var prefix := Candidates(items[..|items| - 1]);
      match Candidate(items[|items| - 1])
      case None => prefix
      case Some(u) => prefix + [u]
  }

  /** `_get_post_media_urls`: `mediaInfo` is None when the post data is
      empty or its 'media_info' is not a list. */
  method PostMediaUrls(mediaInfo: Option<seq<MediaItem>>) returns (urls: seq<string>)
    ensures mediaInfo.None? ==> urls == []
    ensures mediaInfo.Some? ==> urls == AppendNew([], Candidates(mediaInfo.value))
  {
    urls := [];
    if mediaInfo.None? {
      return;
    }
    var items := mediaInfo.value;
    for i := 0 to |items|
      invariant urls == AppendNew([], Candidates(items[..i]))
    {
      assert items[..i + 1][..i] == items[..i];
      var item := items[i];
      var urlToAdd: Option<string> := None;
      if item.NotADict? {
        continue;
      }
      if item.itemType == Str("reddit_video") {
        if IsUsable(item.url) && IsDirectVideo(item.url.s) {
          urlToAdd := Some(item.url.s);
        } else if IsUsable(item.fallbackUrl) && IsDirectVideo(item.fallbackUrl.s) {
          urlToAdd := Some(item.fallbackUrl.s);
        }
      } else if IsUsable(item.url) {
        var isYoutube := IsYoutube(item.url.s);
        var isDirect := IsDirectMedia(item.url.s);
        if !isYoutube && isDirect {
          urlToAdd := Some(item.url.s);
        }
      }
      assert urlToAdd == Candidate(item);
      if urlToAdd.Some? && urlToAdd.value != [] && urlToAdd.value !in urls {
        urls := urls + [urlToAdd.value];
      }
    }
    assert items[..|items|] == items;
  }

  /** The rules for one entry: a Reddit video contributes only a direct MP4
      or GIF, its primary URL whenever that qualifies and its fallback URL
      only otherwise; any other entry contributes nothing but its own URL,
      never a YouTube page; an entry that is not a dictionary contributes
      nothing. */
  lemma CandidateRules(item: MediaItem)
    ensures item.NotADict? ==> Candidate(item).None?
    ensures item.MediaDict? && item.itemType == Str("reddit_video") && Candidate(item).Some? ==>
      IsDirectVideo(Candidate(item).value)
      && (item.url == Str(Candidate(item).value) || item.fallbackUrl == Str(Candidate(item).value))
    ensures item.MediaDict? && item.itemType == Str("reddit_video")
            && IsUsable(item.url) && IsDirectVideo(item.url.s) ==>
      Candidate(item) == Some(item.url.s)
    ensures item.MediaDict? && item.itemType == Str("reddit_video")
            && !(IsUsable(item.url) && IsDirectVideo(item.url.s)) ==>
      (Candidate(item).Some? <==> IsUsable(item.fallbackUrl) && IsDirectVideo(item.fallbackUrl.s))
    ensures item.MediaDict? && item.itemType != Str("reddit_video") ==>
      (Candidate(item).Some? <==> IsUsable(item.url) && !IsYoutube(item.url.s) && IsDirectMedia(item.url.s))
    ensures item.MediaDict? && item.itemType != Str("reddit_video") && Candidate(item).Some? ==>
      item.url == Str(Candidate(item).value) && !IsYoutube(Candidate(item).value)
  {
  }

  /** A URL is among the candidates exactly when some entry contributes it. */
  lemma {:induction false} CandidatesMembers(items: seq<MediaItem>, u: string)
    ensures u in Candidates(items) <==> exists i :: 0 <= i < |items| && Candidate(items[i]) == Some(u)
    decreases |items|
  {
    if items != [] {
      var init := items[..|items| - 1];
      CandidatesMembers(init, u);
      if exists i :: 0 <= i < |init| && Candidate(init[i]) == Some(u) {
        var i :| 0 <= i < |init| && Candidate(init[i]) == Some(u);
        assert items[i] == init[i];
      }
      if exists i :: 0 <= i < |items| && Candidate(items[i]) == Some(u) {
        var i :| 0 <= i < |items| && Candidate(items[i]) == Some(u);
        if i < |init| {
          assert init[i] == items[i];
        }
      }
    }
  }

  /** Every candidate is a direct media link. */
  lemma {:induction false} CandidatesDirect(items: seq<MediaItem>)
    ensures forall u :: u in Candidates(items) ==> u != [] && IsDirectMedia(u)
    decreases |items|
  {
    if items != [] {
      CandidatesDirect(items[..|items| - 1]);
    }
  }

  /** The post's URL list: no URL twice, exactly the URLs some entry
      contributes, each a direct media link, and in the order in which
      they first appear. */
  lemma PostUrlsProperties(items: seq<MediaItem>)
    ensures var r := AppendNew([], Candidates(items));
      && NoDuplicates(r)
      && (forall u :: u in r <==> exists i :: 0 <= i < |items| && Candidate(items[i]) == Some(u))
      && (forall u :: u in r ==> u != [] && IsDirectMedia(u))
  {
    var cs := Candidates(items);
    AppendNewNoDuplicates([], cs);
    AppendNewMembers([], cs);
    CandidatesDirect(items);
    forall u
      ensures u in AppendNew([], cs) <==> exists i :: 0 <= i < |items| && Candidate(items[i]) == Some(u)
    {
      CandidatesMembers(items, u);
    }
  }

  /** URLs of the post's list stand in the order of their first
      contribution. */
  lemma PostUrlsOrder(items: seq<MediaItem>, a: nat, b: nat)
    requires a < b < |AppendNew([], Candidates(items))|
    ensures AppendNew([], Candidates(items))[a] in Candidates(items)
    ensures AppendNew([], Candidates(items))[b] in Candidates(items)
    ensures FirstIndex(Candidates(items), AppendNew([], Candidates(items))[a])
          < FirstIndex(Candidates(items), AppendNew([], Candidates(items))[b])
  {
    AppendNewOrder([], Candidates(items), a, b);
  }

  // ---------------------------------------------------------------------
  // Media URLs written in comments

  /** An entry of the comment list: a dictionary with its 'body' and its
      'replies', or any other value. A 'replies' field that is missing or not
      a list is scanned as no replies, so it is the empty sequence here. */
  datatype CommentValue =
    | OtherValue
    | CommentDict(body: Value, replies: seq<CommentValue>)

  const PreviewPrefix: string := "https://preview.redd.it/"
  const ImagePrefix: string := "https://i.redd.it/"

  /** A URL path naming a JPEG, PNG or GIF image. */
  predicate HasImageExtension(path: string) {
    || EndsWith(path, ".jpeg")
    || EndsWith(path, ".jpg")
    || EndsWith(path, ".png")
    || EndsWith(path, ".gif")
  }

  /** A word of a comment that is collected: it starts with one of the two
      Reddit media prefixes, holds "://", and the path urllib finds in it
      names an image (a word urllib refuses is skipped). */
  predicate IsCommentMediaUrl(w: string) {
    && (StartsWith(w, PreviewPrefix) || StartsWith(w, ImagePrefix))
    && Contains(w, "://")
    && UrlPath(w).Some?
    && HasImageExtension(UrlPath(w).value)
  }

  /** The collected words among `ws`. */
  function Collected(ws: seq<string>): set<string> {
    if ws == [] then {}
    else
      var last := ws[|ws| - 1];
      Collected(ws[..|ws| - 1]) + (if IsCommentMediaUrl(last) then {last} else {})
  }

  /** The collected words of one body; a body that is not a string gives none. */
  function BodyUrls(body: Value): set<string> {
    if body.Str? then Collected(Words(body.s)) else {}
  }

  /** The URLs collected from a comment list, replies at every depth included;
      entries that are not dictionaries are skipped. */
  function UrlsInList(cs: seq<CommentValue>): set<string>
    decreases cs
  {
    if cs == [] then {}
    else UrlsInList(cs[..|cs| - 1]) + UrlsInComment(cs[|cs| - 1])
  }

  /** The URLs collected from one entry and its replies. */
  function UrlsInComment(c: CommentValue): set<string>
    decreases c
  {
    if c.OtherValue? then {}
    else BodyUrls(c.body) + UrlsInList(c.replies)
  }

  /** The collector behind `_get_comment_media_urls`: the set the nested
      function adds to. */
  class UrlCollector {
    var found: set<string>

    constructor ()
      ensures found == {}
    {
      found := {};
    }

    /** The inner loop of `find_urls_in_comment_list`: adds the collected
        words among the words of one body. */
    method ScanWords(words: seq<string>)
      modifies this
      ensures found == old(found) + Collected(words)
    {
      for j := 0 to |words|
        invariant found == old(found) + Collected(words[..j])
      {
        assert words[..j + 1][..j] == words[..j];
        var word := words[j];
        if (StartsWith(word, PreviewPrefix) || StartsWith(word, ImagePrefix)) && Contains(word, "://") {
          var path := UrlPath(word);
          if path.Some? && HasImageExtension(path.value) {
            found := found + {word};
          }
        }
      }
      assert words[..|words|] == words;
    }

    /** `find_urls_in_comment_list`: adds the media URLs of every body in
        `comments` and, recursively, in their replies. */
    method FindUrlsInCommentList(comments: seq<CommentValue>)
      modifies this
      ensures found == old(found) + UrlsInList(comments)
      decreases comments
    {
      for i := 0 to |comments|
        invariant found == old(found) + UrlsInList(comments[..i])
      {
        assert comments[..i + 1][..i] == comments[..i];
        var comment := comments[i];
        if comment.CommentDict? && comment.body.Str? {
          var words := Words(comment.body.s);
          ScanWords(words);
        }
        if comment.CommentDict? {
          FindUrlsInCommentList(comment.replies);
        }
      }
      assert comments[..|comments|] == comments;
    }
  }

  /** The elements of a set in some order, each once (`list(s)`). */
  method ListOfSet(s: set<string>) returns (r: seq<string>)
    ensures NoDuplicates(r)
    ensures forall u :: u in r <==> u in s
  {
    r := [];
    var rest := s;
    while rest != {}
      invariant rest <= s
      invariant NoDuplicates(r)
      invariant forall u :: u in r <==> u in s && u !in rest
      decreases rest
    {
      var u :| u in rest;
      r := r + [u];
      rest := rest - {u};
    }
  }

  /** `_get_comment_media_urls`: `comments` is None when the comment data is
      not a list. The order of the result is unspecified. */
  method CommentMediaUrls(comments: Option<seq<CommentValue>>) returns (urls: seq<string>)
    ensures NoDuplicates(urls)
    ensures forall u :: u in urls <==> comments.Some? && u in UrlsInList(comments.value)
  {
    var collector := new UrlCollector();
    if comments.Some? {
      collector.FindUrlsInCommentList(comments.value);
    }
    urls := ListOfSet(collector.found);
  }

  /** A word is collected exactly when it is among the words and passes the test. */
  lemma {:induction false} CollectedMembers(ws: seq<string>, u: string)
    ensures u in Collected(ws) <==> u in ws && IsCommentMediaUrl(u)
    decreases |ws|
  {
    if ws != [] {
      CollectedMembers(ws[..|ws| - 1], u);
      assert ws == ws[..|ws| - 1] + [ws[|ws| - 1]];
    }
  }

  lemma PrefixSchemes()
    ensures PreviewPrefix[5..8] == "://" && ImagePrefix[5..8] == "://"
    ensures |PreviewPrefix| >= 8 && |ImagePrefix| >= 8
  {
  }

  /** The test for "://" never rejects a word that starts with one of the
      two prefixes. */
  lemma PrefixHasScheme(w: string)
    requires StartsWith(w, PreviewPrefix) || StartsWith(w, ImagePrefix)
    ensures Contains(w, "://")
  {
    PrefixSchemes();
    if StartsWith(w, PreviewPrefix) {
      assert w[5..8] == w[..|PreviewPrefix|][5..8];
    } else {
      assert w[5..8] == w[..|ImagePrefix|][5..8];
    }
    ContainsAt(w, "://", 5);
  }

  /** Every collected URL is a whole word of some body (no whitespace in it)
      that passes the test. */
  lemma {:induction false} ListUrlsAreWords(cs: seq<CommentValue>)
    ensures forall u :: u in UrlsInList(cs) ==> IsWord(u) && IsCommentMediaUrl(u)
    decreases cs
  {
    if cs != [] {
      ListUrlsAreWords(cs[..|cs| - 1]);
      CommentUrlsAreWords(cs[|cs| - 1]);
    }
  }

  lemma {:induction false} CommentUrlsAreWords(c: CommentValue)
    ensures forall u :: u in UrlsInComment(c) ==> IsWord(u) && IsCommentMediaUrl(u)
    decreases c
  {
    if c.CommentDict? {
      ListUrlsAreWords(c.replies);
      if c.body.Str? {
        var ws := Words(c.body.s);
        WordsAreWords(c.body.s);
        forall u | u in Collected(ws)
          ensures IsWord(u) && IsCommentMediaUrl(u)
        {
          CollectedMembers(ws, u);
          var i :| 0 <= i < |ws| && ws[i] == u;
        }
      }
    }
  }

  /** What an entry collects is collected from the list that holds it. */
  lemma {:induction false} EntryInList(cs: seq<CommentValue>, i: nat)
    requires i < |cs|
    ensures UrlsInComment(cs[i]) <= UrlsInList(cs)
    decreases |cs|
  {
    if i < |cs| - 1 {
      EntryInList(cs[..|cs| - 1], i);
    }
  }

  /** Replies are scanned at every depth: what the `k`-th reply of the
      `i`-th entry collects is collected from the list. */
  lemma ReplyInList(cs: seq<CommentValue>, i: nat, k: nat)
    requires i < |cs| && cs[i].CommentDict? && k < |cs[i].replies|
    ensures UrlsInComment(cs[i].replies[k]) <= UrlsInList(cs)
  {
    EntryInList(cs, i);
    EntryInList(cs[i].replies, k);
  }

  /** A body that starts with a collectable word collects it. */
  lemma FirstWordCollected(w: string, rest: string)
    requires IsWord(w) && IsCommentMediaUrl(w)
    ensures w in BodyUrls(Str(w + " " + rest))
  {
    WordsAfterWord(w, rest);
    CollectedMembers(Words(w + " " + rest), w);
  }

  lemma ImageHost()
    ensures ImagePrefix == "https://" + "i.redd.it" + "/"
    ensures forall c :: c in "i.redd.it" ==> !EndsNetloc(c) && c != '[' && c != ']'
  {
  }

  lemma PreviewHost()
    ensures PreviewPrefix == "https://" + "preview.redd.it" + "/"
    ensures forall c :: c in "preview.redd.it" ==> !EndsNetloc(c) && c != '[' && c != ']'
  {
  }

  /** The path urllib finds in "<scheme>://<host>/<name><q>" is "/<name>". */
  lemma HostPath(host: string, name: string, q: string)
    requires forall c :: c in host ==> !EndsNetloc(c) && c != '[' && c != ']'
    requires '/' !in name && '?' !in name && '#' !in name && ';' !in name
    requires q == [] || q[0] == '?' || q[0] == '#'
    ensures UrlPath("https://" + host + "/" + name + q) == Some("/" + name)
  {
    var p := "/" + name;
    assert "https://" + host + "/" + name + q == "https://" + host + p + q;
    assert p[0] == '/';
    assert '?' !in p && '#' !in p && ';' !in p;
    HttpsPath(host, p, q);
  }

  /** The path urllib finds in "https://i.redd.it/<name><q>" is "/<name>". */
  lemma ImagePath(name: string, q: string)
    requires '/' !in name && '?' !in name && '#' !in name && ';' !in name
    requires q == [] || q[0] == '?' || q[0] == '#'
    ensures UrlPath(ImagePrefix + name + q) == Some("/" + name)
  {
    ImageHost();
    HostPath("i.redd.it", name, q);
  }

  /** The path urllib finds in "https://preview.redd.it/<name><q>" is "/<name>". */
  lemma PreviewPath(name: string, q: string)
    requires '/' !in name && '?' !in name && '#' !in name && ';' !in name
    requires q == [] || q[0] == '?' || q[0] == '#'
    ensures UrlPath(PreviewPrefix + name + q) == Some("/" + name)
  {
    PreviewHost();
    HostPath("preview.redd.it", name, q);
  }

  /** A suffix of `name` is a suffix of anything ending with `name`. */
  lemma SuffixOfTail(a: string, name: string, e: string)
    requires EndsWith(name, e)
    ensures EndsWith(a + name, e)
  {
    assert (a + name)[|a + name| - |e|..] == name[|name| - |e|..];
  }

  /** "https://i.redd.it/<name><q>" is collected, query and fragment kept,
      when `name` ends with an image extension. */
  lemma ImageWordCollected(name: string, q: string)
    requires HasImageExtension(name)
    requires '/' !in name && '?' !in name && '#' !in name && ';' !in name
    requires q == [] || q[0] == '?' || q[0] == '#'
    ensures IsCommentMediaUrl(ImagePrefix + name + q)
  {
    ImagePath(name, q);
    assert StartsWith(ImagePrefix + name + q, ImagePrefix) by {
      assert (ImagePrefix + name + q)[..|ImagePrefix|] == ImagePrefix;
    }
    PrefixHasScheme(ImagePrefix + name + q);
    if EndsWith(name, ".jpeg") { SuffixOfTail("/", name, ".jpeg"); }
    if EndsWith(name, ".jpg") { SuffixOfTail("/", name, ".jpg"); }
    if EndsWith(name, ".png") { SuffixOfTail("/", name, ".png"); }
    if EndsWith(name, ".gif") { SuffixOfTail("/", name, ".gif"); }
  }

  /** A path without '.' has no image extension. */
  lemma NoDotNoImage(p: string)
    requires '.' !in p
    ensures !HasImageExtension(p)
  {
    if |p| >= 4 {
      assert p[|p| - 4] in p;
      assert p[|p| - 4..][0] == p[|p| - 4];
    }
    if |p| >= 5 {
      assert p[|p| - 5] in p;
      assert p[|p| - 5..][0] == p[|p| - 5];
    }
  }

  /** "https://preview.redd.it/<name><q>" is not collected when the path
      holds no '.', whatever format the query names. */
  lemma ExtensionlessPreviewSkipped(name: string, q: string)
    requires '.' !in name && '/' !in name && '?' !in name && '#' !in name && ';' !in name
    requires q == [] || q[0] == '?' || q[0] == '#'
    ensures !IsCommentMediaUrl(PreviewPrefix + name + q)
  {
    PreviewPath(name, q);
    assert '.' !in "/" + name;
    NoDotNoImage("/" + name);
  }

  // ---------------------------------------------------------------------
  // An entry that is not a dictionary

  /** The scan as written: after the body test, the replies are read with
      `comment.get`, which raises AttributeError for an entry that is not a
      dictionary, and the error leaves `_get_comment_media_urls`. None
      stands for that error. */
  function UrlsInListAsWritten(cs: seq<CommentValue>): Option<set<string>>
    decreases cs
  {
    if cs == [] then Some({})
    else
      match UrlsInListAsWritten(cs[..|cs| - 1])
      case None => None
      case Some(before) =>
        match UrlsInCommentAsWritten(cs[|cs| - 1])
        case None => None
        case Some(here) => Some(before + here)
  }

  function UrlsInCommentAsWritten(c: CommentValue): Option<set<string>>
    decreases c
  {
    if c.OtherValue? then None
    else
      match UrlsInListAsWritten(c.replies)
      case None => None
      case Some(below) => Some(BodyUrls(c.body) + below)
  }

  /** A comment list holding a single entry that is not a dictionary raises
      as written, where the evident intent, skipping the entry as the body
      test does, collects nothing. */
  lemma NonDictEntryRaises()
    ensures UrlsInListAsWritten([OtherValue]).None?
    ensures UrlsInList([OtherValue]) == {}
  {
    assert [OtherValue][..0] == [];
  }

  /** Every entry at every depth is a dictionary. */
  predicate AllDicts(cs: seq<CommentValue>)
    decreases cs
  {
    forall i :: 0 <= i < |cs| ==> cs[i].CommentDict? && AllDicts(cs[i].replies)
  }

  /** On lists of dictionaries, the scan as written and the corrected scan agree. */
  lemma {:induction false} AsWrittenAgrees(cs: seq<CommentValue>)
    requires AllDicts(cs)
    ensures UrlsInListAsWritten(cs) == Some(UrlsInList(cs))
    decreases cs
  {
    if cs != [] {
      var init := cs[..|cs| - 1];
      assert AllDicts(init) by {
        forall i | 0 <= i < |init|
          ensures init[i].CommentDict? && AllDicts(init[i].replies)
        {
          assert init[i] == cs[i];
        }
      }
      AsWrittenAgrees(init);
      CommentAsWrittenAgrees(cs[|cs| - 1]);
    }
  }

  lemma {:induction false} CommentAsWrittenAgrees(c: CommentValue)
    requires c.CommentDict? && AllDicts(c.replies)
    ensures UrlsInCommentAsWritten(c) == Some(UrlsInComment(c))
    decreases c
  {
    AsWrittenAgrees(c.replies);
  }

  // ---------------------------------------------------------------------
  // The download scope

  /** The URLs to download for the chosen scope: the post's list, the
      comments' list, or the post's list followed by the comment URLs it
      does not hold yet; any other answer gives none. */
  method UrlsToDownload(scope: string, postUrls: seq<string>, commentUrls: seq<string>)
    returns (urls: seq<string>)
    ensures scope == "post" ==> urls == postUrls
    ensures scope == "comments" ==> urls == commentUrls
    ensures scope == "both" ==> urls == AppendNew(postUrls, commentUrls)
    ensures scope != "post" && scope != "comments" && scope != "both" ==> urls == []
  {
    urls := [];
    if scope == "post" {
      urls := urls + postUrls;
    } else if scope == "comments" {
      urls := urls + commentUrls;
    } else if scope == "both" {
      urls := urls + postUrls;
      for i := 0 to |commentUrls|
        invariant urls == AppendNew(postUrls, commentUrls[..i])
      {
        assert commentUrls[..i + 1][..i] == commentUrls[..i];
        var url := commentUrls[i];
        if url !in urls {
          urls := urls + [url];
        }
      }
      assert commentUrls[..|commentUrls|] == commentUrls;
    }
  }

  /** Scope 'both': the post's URLs come first and unchanged, every URL of
      either list is there, and none twice when the post's list has no
      repeats. */
  lemma BothScope(postUrls: seq<string>, commentUrls: seq<string>)
    requires NoDuplicates(postUrls)
    ensures var r := AppendNew(postUrls, commentUrls);
      && r[..|postUrls|] == postUrls
      && NoDuplicates(r)
      && forall u :: u in r <==> u in postUrls || u in commentUrls
  {
    AppendNewNoDuplicates(postUrls, commentUrls);
    AppendNewMembers(postUrls, commentUrls);
  }

  /** Scope 'both' with no URL shared: the post's list followed by the
      comments' list. */
  lemma {:induction false} DisjointBothScope(postUrls: seq<string>, commentUrls: seq<string>)
    requires NoDuplicates(commentUrls)
    requires forall u :: u in commentUrls ==> u !in postUrls
    ensures AppendNew(postUrls, commentUrls) == postUrls + commentUrls
    decreases |commentUrls|
  {
    if commentUrls != [] {
      var init := commentUrls[..|commentUrls| - 1];
      var last := commentUrls[|commentUrls| - 1];
      assert NoDuplicates(init);
      DisjointBothScope(postUrls, init);
      assert last !in init by {
        forall k | 0 <= k < |init|
          ensures init[k] != last
        {
          assert init[k] == commentUrls[k];
        }
      }
      assert commentUrls == init + [last];
    }
  }
}
