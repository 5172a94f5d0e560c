/** Recognising Reddit post URLs and extracting the post ID from them. The
    three anchored patterns of the validator are written out as recognisers
    that also return the ID segment they read; the extractor is modelled as
    written, as two leftmost searches over the whole URL. */
module UrlProcessor {
  import opened Wrappers
  import opened Text

  predicate NoSpace(s: string) {
    forall i :: 0 <= i < |s| ==> !IsSpace(s[i])
  }

  /** Length of the longest prefix of word characters. */
  function WordRun(s: string): (k: nat)
    ensures k <= |s|
    ensures forall i :: 0 <= i < k ==> IsWordChar(s[i])
    ensures k < |s| ==> !IsWordChar(s[k])
  {
    if s != [] && IsWordChar(s[0]) then 1 + WordRun(s[1..]) else 0
  }

  predicate AllWordChars(s: string) {
    forall i :: 0 <= i < |s| ==> IsWordChar(s[i])
  }

  /** The word run of a word followed by a non-word character is the word. */
  lemma {:induction false} WordRunOf(w: string, rest: string)
    requires AllWordChars(w)
    requires rest == [] || !IsWordChar(rest[0])
    ensures WordRun(w + rest) == |w|
  {
    if w != [] {
      assert (w + rest)[1..] == w[1..] + rest;
      WordRunOf(w[1..], rest);
    }
  }

  /** What may follow the ID of a long URL: path segments, an optional
      slash, an optional query and an optional fragment, none containing
      whitespace. Together these are exactly the whitespace-free texts that
      are empty or start with '/', '?' or '#'. */
  predicate PathTail(t: string) {
    NoSpace(t) && (t == [] || t[0] == '/' || t[0] == '?' || t[0] == '#')
  }

  /** What may follow the ID of a short URL: an optional slash, then an
      optional query and an optional fragment, without whitespace. */
  predicate ShortTail(t: string) {
    && NoSpace(t)
    && (|| t == []
        || t[0] == '?'
        || t[0] == '#'
        || (t[0] == '/' && (|t| == 1 || t[1] == '?' || t[1] == '#')))
  }

  /** `<sub>/comments/<id><tail>` after "/r/": the ID when it matches. */
  function PostPathId(p: string): (r: Option<string>)
    ensures r.Some? ==> r.value != [] && AllWordChars(r.value)
  {
    var k := WordRun(p);
    if k > 0 && StartsWith(p[k..], "/comments/") then
      var q := p[k + 10..];
      var j := WordRun(q);
      if j > 0 && PathTail(q[j..]) then Some(q[..j]) else None
    else None
  }

  /** `<id><tail>` after "redd.it/": the ID when it matches. */
  function ShortPathId(p: string): (r: Option<string>)
    ensures r.Some? ==> r.value != [] && AllWordChars(r.value)
  {
    var k := WordRun(p);
    if k > 0 && ShortTail(p[k..]) then Some(p[..k]) else None
  }

  /** The text after "http://" or "https://". */
  function AfterScheme(url: string): (r: Option<string>)
    ensures r.Some? ==> |r.value| <= |url| && r.value == url[|url| - |r.value|..]
  {
    if StartsWith(url, "https://") then Some(url[8..])
    else if StartsWith(url, "http://") then Some(url[7..])
    else None
  }

  /** The standard pattern: http or https, an optional "www.", "reddit.com/r/". */
  function StandardMatch(url: string): (r: Option<string>)
    ensures r.Some? ==> r.value != [] && AllWordChars(r.value)
  {
    match AfterScheme(url)
    case None => None
    case Some(rest) =>
      if StartsWith(rest, "www.reddit.com/r/") then PostPathId(rest[17..])
      else if StartsWith(rest, "reddit.com/r/") then PostPathId(rest[13..])
      else None
  }

  /** The old-site pattern: http or https, then "old.reddit.com/r/". */
  function OldMatch(url: string): (r: Option<string>)
    ensures r.Some? ==> r.value != [] && AllWordChars(r.value)
  {
    match AfterScheme(url)
    case None => None
    case Some(rest) =>
      if StartsWith(rest, "old.reddit.com/r/") then PostPathId(rest[17..]) else None
  }

  /** The short pattern: http or https, an optional "www.", "redd.it/". */
  function ShortMatch(url: string): (r: Option<string>)
    ensures r.Some? ==> r.value != [] && AllWordChars(r.value)
  {
    match AfterScheme(url)
    case None => None
    case Some(rest) =>
      if StartsWith(rest, "www.redd.it/") then ShortPathId(rest[12..])
      else if StartsWith(rest, "redd.it/") then ShortPathId(rest[8..])
      else None
  }

  /** The ID read by the first of the three patterns that matches all of `s`. */
  function PatternId(s: string): (r: Option<string>)
    ensures r.Some? ==> r.value != [] && AllWordChars(r.value)
  {
    if StandardMatch(s).Some? then StandardMatch(s)
    else if OldMatch(s).Some? then OldMatch(s)
    else ShortMatch(s)
  }

  /** An anchored match of the three patterns; the end anchor also matches
      just before a final newline. */
  function AnchoredId(url: string): (r: Option<string>)
    ensures r.Some? ==> r.value != [] && AllWordChars(r.value)
  {
    if PatternId(url).Some? then PatternId(url)
    else if |url| > 0 && url[|url| - 1] == '\n' then PatternId(url[..|url| - 1])
    else None
  }

  /** `validate_reddit_url`. */
  predicate ValidateRedditUrl(url: string) {
    AnchoredId(url).Some?
  }

  // ---------------------------------------------------------------------
  // Extraction as written: two leftmost searches

  /** The ID run may end here: at '/', at the end, or before a final newline. */
  predicate IdEnds(url: string, e: nat, allowQuery: bool)
    requires e <= |url|
  {
    e == |url| || url[e] == '/' || (allowQuery && url[e] == '?') || (e == |url| - 1 && url[e] == '\n')
  }

  /** The marker, a word run and an allowed end, tried at position i. */
  function IdAt(url: string, marker: string, allowQuery: bool, i: nat): (r: Option<string>)
    requires i <= |url|
    ensures r.Some? ==> r.value != [] && AllWordChars(r.value)
    ensures r.Some? ==> StartsWith(url[i..], marker + r.value)
  {
    if StartsWith(url[i..], marker) then
      var start := i + |marker|;
      var j := WordRun(url[start..]);
      if j > 0 && IdEnds(url, start + j, allowQuery) then
        assert url[i..][..|marker| + j] == marker + url[start..start + j];
        assert url[start..start + j] == url[start..][..j];
        Some(url[start..start + j])
      else None
    else None
  }

  /** `re.search`: the leftmost position from i on where the pattern matches. */
  function Search(url: string, marker: string, allowQuery: bool, i: nat): (r: Option<string>)
    requires i <= |url|
    ensures r.Some? ==> r.value != [] && AllWordChars(r.value)
    ensures r.Some? ==> Contains(url, marker + r.value)
    decreases |url| - i
  {
    var here := IdAt(url, marker, allowQuery, i);
    if here.Some? then
      ContainsAt(url, marker + here.value, i);
      here
    else if i == |url| then None
    else Search(url, marker, allowQuery, i + 1)
  }

  /** The search finds nothing exactly when the pattern matches nowhere from
      i on, and otherwise gives what the pattern reads at the first position
      where it matches. */
  lemma {:induction false} SearchLeftmost(url: string, marker: string, allowQuery: bool, i: nat)
    requires i <= |url|
    ensures var r := Search(url, marker, allowQuery, i);
      && (r.None? <==> forall p :: i <= p <= |url| ==> IdAt(url, marker, allowQuery, p).None?)
      && (r.Some? ==> exists p :: FirstMatch(url, marker, allowQuery, i, p) && r == IdAt(url, marker, allowQuery, p))
    decreases |url| - i
  {
    var r := Search(url, marker, allowQuery, i);
    if IdAt(url, marker, allowQuery, i).Some? {
      assert FirstMatch(url, marker, allowQuery, i, i);
    } else if i < |url| {
      SearchLeftmost(url, marker, allowQuery, i + 1);
      if r.Some? {
        var p :| FirstMatch(url, marker, allowQuery, i + 1, p) && r == IdAt(url, marker, allowQuery, p);
        assert FirstMatch(url, marker, allowQuery, i, p);
      }
    }
  }

  /** The pattern matches at p, and at no position from i up to p. */
  predicate FirstMatch(url: string, marker: string, allowQuery: bool, i: nat, p: nat)
    requires i <= |url|
  {
    && i <= p <= |url| && IdAt(url, marker, allowQuery, p).Some?
    && forall k :: i <= k < p ==> IdAt(url, marker, allowQuery, k).None?
  }

  /** There is only one first match, so `Search` gives the ID the pattern
      reads at it. */
  lemma SearchFirstMatch(url: string, marker: string, allowQuery: bool, i: nat, p: nat)
    requires i <= |url| && FirstMatch(url, marker, allowQuery, i, p)
    ensures Search(url, marker, allowQuery, i) == IdAt(url, marker, allowQuery, p)
  {
    SearchLeftmost(url, marker, allowQuery, i);
    var r := Search(url, marker, allowQuery, i);
    assert IdAt(url, marker, allowQuery, p).Some?;
    assert r.Some?;
    var q: nat :| FirstMatch(url, marker, allowQuery, i, q) && r == IdAt(url, marker, allowQuery, q);
    assert q == p;
  }

  /** `extract_post_id` as written. */
  function ExtractPostId(url: string): (r: Option<string>)
    ensures !ValidateRedditUrl(url) ==> r.None?
    ensures r.Some? ==> r.value != [] && AllWordChars(r.value)
    ensures r.Some? ==> Contains(url, "/comments/" + r.value) || Contains(url, "redd.it/" + r.value)
  {
    if !ValidateRedditUrl(url) then None
    else
      var standard := Search(url, "/comments/", false, 0);
      if standard.Some? then standard
      else Search(url, "redd.it/", true, 0)
  }

  // ---------------------------------------------------------------------
  // Searching

  /** Positions without the marker are passed over. */
  lemma {:induction false} SearchSkips(url: string, marker: string, allowQuery: bool, i: nat, k: nat)
    requires i <= k <= |url|
    requires forall p :: i <= p < k ==> !StartsWith(url[p..], marker)
    ensures Search(url, marker, allowQuery, i) == Search(url, marker, allowQuery, k)
    decreases k - i
  {
    if i < k {
      SearchSkips(url, marker, allowQuery, i + 1, k);
    }
  }

  /** A marker found at some position is contained in the URL. */
  lemma StartsAtContains(url: string, marker: string, p: nat)
    requires p <= |url|
    ensures StartsWith(url[p..], marker) ==> Contains(url, marker)
  {
    if StartsWith(url[p..], marker) {
      ContainsInfix(url[..p], url[p..], [], marker);
      assert url[..p] + url[p..] + [] == url;
    }
  }

  /** A URL without the marker gives nothing. */
  lemma NoMarkerNoId(url: string, marker: string, allowQuery: bool)
    requires marker != [] && !Contains(url, marker)
    ensures Search(url, marker, allowQuery, 0) == None
  {
    forall p | 0 <= p < |url|
      ensures !StartsWith(url[p..], marker)
    {
      StartsAtContains(url, marker, p);
    }
    SearchSkips(url, marker, allowQuery, 0, |url|);
  }

  /** A URL that starts with a scheme continues after it. */
  lemma SchemeOf(url: string, scheme: string)
    requires IsScheme(scheme) && StartsWith(url, scheme)
    ensures AfterScheme(url) == Some(url[|scheme|..])
  {
    if scheme == "http://" {
      assert url[4] == ':';
    }
  }

  /** The host part of a long URL, up to "/r/". */
  function LongLead(scheme: string, host: string): string {
    scheme + host + "/r/"
  }

  predicate IsScheme(scheme: string) {
    scheme == "http://" || scheme == "https://"
  }

  predicate IsLongHost(host: string) {
    host == "www.reddit.com" || host == "reddit.com" || host == "old.reddit.com"
  }

  /** The scheme without its two slashes. */
  function SchemeName(scheme: string): (a: string)
    requires IsScheme(scheme)
    ensures scheme == a + "//" && '/' !in a
  {
    if scheme == "https://" then "https:" else "http:"
  }

  /** In the lead of a long URL no '/' is followed by 'c', except possibly
      the last one. */
  lemma LeadHasNoSlashC(scheme: string, host: string, p: nat)
    requires IsScheme(scheme) && IsLongHost(host) && p + 1 < |LongLead(scheme, host)|
    ensures !(LongLead(scheme, host)[p] == '/' && LongLead(scheme, host)[p + 1] == 'c')
  {
    var a := SchemeName(scheme);
    var lead := LongLead(scheme, host);
    assert lead == a + "//" + host + "/r/";
    assert '/' !in host && host[0] != 'c';
    if p < |a| {
      assert lead[p] == a[p];
      assert a[p] in a;
    } else if p == |a| {
      assert lead[p + 1] == '/';
    } else if p == |a| + 1 {
      assert lead[p + 1] == host[0];
    } else if p < |a| + 2 + |host| {
      assert lead[p] == host[p - |a| - 2];
      assert host[p - |a| - 2] in host;
    } else if p == |a| + 2 + |host| {
      assert lead[p + 1] == 'r';
    } else {
      assert lead[p] == 'r';
    }
  }

  /** A "/comments/" right after a slash is read from a maximal word only when
      that word is "comments" and a slash follows it. */
  lemma SlashWordMarker(w: string, r: string)
    requires AllWordChars(w) && (r == [] || !IsWordChar(r[0]))
    ensures StartsWith("/" + w + r, "/comments/") ==> w == "comments" && r != [] && r[0] == '/'
  {
    var s := "/" + w + r;
    if StartsWith(s, "/comments/") {
      var t := w + r;
      assert s[1..] == t;
      assert s[..10] == "/comments/";
      assert t[..9] == s[..10][1..];
      assert t == "comments" + t[8..];
      WordRunOf(w, r);
      WordRunOf("comments", t[8..]);
      assert w == t[..8];
    }
  }

  /** A position holding no slash starts no "/comments/". */
  lemma NoSlashNoMarker(url: string, p: nat)
    requires p < |url| && url[p] != '/'
    ensures !StartsWith(url[p..], "/comments/")
  {
  }

  /** No "/comments/" starts inside a word. */
  lemma WordNoMarker(url: string, j: nat, w: string, p: nat)
    requires j <= p < j + |w| <= |url| && url[j..j + |w|] == w && AllWordChars(w)
    ensures !StartsWith(url[p..], "/comments/")
  {
    assert url[p] == w[p - j];
  }

  /** No "/comments/" starts inside a tail that holds none. */
  lemma TailNoMarker(url: string, j: nat, tail: string, p: nat)
    requires j <= p <= |url| && url[j..] == tail && !Contains(tail, "/comments/")
    ensures !StartsWith(url[p..], "/comments/")
  {
    assert url[p..] == tail[p - j..];
    StartsAtContains(tail, "/comments/", p - j);
  }

  /** No "/comments/" starts at a position from i up to k. */
  predicate Clear(url: string, i: nat, k: nat)
    requires i <= k <= |url|
  {
    forall p :: i <= p < k ==> !StartsWith(url[p..], "/comments/")
  }

  lemma ClearJoin(url: string, i: nat, j: nat, k: nat)
    requires i <= j <= k <= |url| && Clear(url, i, j) && Clear(url, j, k)
    ensures Clear(url, i, k)
  {
  }

  /** The search passes over a stretch where no "/comments/" starts. */
  lemma SkipClear(url: string, allowQuery: bool, i: nat, k: nat)
    requires i <= k <= |url| && Clear(url, i, k)
    ensures Search(url, "/comments/", allowQuery, i) == Search(url, "/comments/", allowQuery, k)
  {
    SearchSkips(url, "/comments/", allowQuery, i, k);
  }

  /** No "/comments/" starts inside a word. */
  lemma ClearWord(url: string, j: nat, w: string)
    requires j + |w| <= |url| && url[j..j + |w|] == w && AllWordChars(w)
    ensures Clear(url, j, j + |w|)
  {
    forall p | j <= p < j + |w|
      ensures !StartsWith(url[p..], "/comments/")
    {
      WordNoMarker(url, j, w, p);
    }
  }

  /** No "/comments/" starts inside text without a slash. */
  lemma ClearNoSlash(url: string, j: nat, t: string)
    requires j + |t| <= |url| && url[j..j + |t|] == t && '/' !in t
    ensures Clear(url, j, j + |t|)
  {
    forall p | j <= p < j + |t|
      ensures !StartsWith(url[p..], "/comments/")
    {
      assert url[p] == t[p - j];
      assert t[p - j] in t;
    }
  }

  /** No "/comments/" starts in a tail that holds none. */
  lemma ClearTail(url: string, j: nat)
    requires j <= |url| && !Contains(url[j..], "/comments/")
    ensures Clear(url, j, |url|)
  {
    forall p | j <= p < |url|
      ensures !StartsWith(url[p..], "/comments/")
    {
      TailNoMarker(url, j, url[j..], p);
    }
  }

  /** No "/comments/" starts at a slash followed by a maximal word, unless
      that word is "comments" and a slash follows it. */
  lemma ClearSlashWord(url: string, j: nat, w: string, r: string)
    requires j < |url| && url[j..] == "/" + w + r
    requires AllWordChars(w) && (r == [] || !IsWordChar(r[0]))
    requires w != "comments" || r == [] || r[0] != '/'
    ensures Clear(url, j, j + 1)
  {
    SlashWordMarker(w, r);
  }

  /** No "/comments/" starts in the lead of a long URL before its last slash. */
  lemma ClearLongLead(url: string, scheme: string, host: string)
    requires IsScheme(scheme) && IsLongHost(host) && StartsWith(url, LongLead(scheme, host))
    ensures Clear(url, 0, |LongLead(scheme, host)| - 1)
  {
    var lead := LongLead(scheme, host);
    assert url[..|lead|] == lead;
    forall p | 0 <= p < |lead| - 1
      ensures !StartsWith(url[p..], "/comments/")
    {
      LeadHasNoSlashC(scheme, host, p);
      assert url[p] == url[..|lead|][p] && url[p + 1] == url[..|lead|][p + 1];
    }
  }

  /** No "/comments/" starts in the lead of a short URL before its slash. */
  lemma ClearShortLead(url: string, scheme: string, host: string)
    requires IsScheme(scheme) && IsShortHost(host) && StartsWith(url, (scheme + host) + "/")
    ensures Clear(url, 0, |scheme + host|)
  {
    var lead := (scheme + host) + "/";
    assert url[..|lead|] == lead;
    forall p | 0 <= p < |scheme + host|
      ensures !StartsWith(url[p..], "/comments/")
    {
      ShortLeadNoSlashC(scheme, host, p);
      assert url[p] == url[..|lead|][p] && url[p + 1] == url[..|lead|][p + 1];
    }
  }

  /** The long URL built from its parts. */
  function LongUrl(scheme: string, host: string, sub: string, id: string, tail: string): string {
    LongLead(scheme, host) + sub + "/comments/" + id + tail
  }

  /** The path after "/r/" of a long URL gives back its ID. */
  lemma PostPathOf(sub: string, id: string, tail: string)
    requires sub != [] && AllWordChars(sub) && id != [] && AllWordChars(id) && PathTail(tail)
    ensures PostPathId(sub + "/comments/" + id + tail) == Some(id)
  {
    var q := id + tail;
    var p := sub + ("/comments/" + q);
    assert sub + "/comments/" + id + tail == p;
    WordRunOf(sub, "/comments/" + q);
    assert p[|sub|..] == "/comments/" + q;
    assert StartsWith(p[|sub|..], "/comments/");
    assert p[|sub| + 10..] == q;
    WordRunOf(id, tail);
    assert q[..|id|] == id && q[|id|..] == tail;
  }

  /** After "https://www.reddit.com/r/" the standard pattern reads the path. */
  lemma WwwSite(url: string, scheme: string, p: string)
    requires IsScheme(scheme) && url == scheme + "www.reddit.com/r/" + p
    ensures StandardMatch(url) == PostPathId(p)
  {
    SchemeOf(url, scheme);
    assert url[|scheme|..] == "www.reddit.com/r/" + p;
    LongRest("www.reddit.com/r/", p);
  }

  /** A host lead followed by a path starts with the lead and continues
      with the path. */
  lemma LongRest(lead: string, p: string)
    ensures StartsWith(lead + p, lead) && (lead + p)[|lead|..] == p
  {
  }

  /** After "https://reddit.com/r/" the standard pattern reads the path. */
  lemma BareSite(url: string, scheme: string, p: string)
    requires IsScheme(scheme) && url == scheme + "reddit.com/r/" + p
    ensures StandardMatch(url) == PostPathId(p)
  {
    SchemeOf(url, scheme);
    var rest := url[|scheme|..];
    assert rest == "reddit.com/r/" + p;
    BareRest(p);
  }

  lemma BareRest(p: string)
    ensures var rest := "reddit.com/r/" + p;
      !StartsWith(rest, "www.reddit.com/r/") && StartsWith(rest, "reddit.com/r/") && rest[13..] == p
  {
    assert ("reddit.com/r/" + p)[0] == 'r';
  }

  /** After "https://old.reddit.com/r/" only the old-site pattern matches. */
  lemma OldSite(url: string, scheme: string, p: string)
    requires IsScheme(scheme) && url == scheme + "old.reddit.com/r/" + p
    ensures StandardMatch(url) == None && OldMatch(url) == PostPathId(p)
  {
    SchemeOf(url, scheme);
    var rest := url[|scheme|..];
    assert rest == "old.reddit.com/r/" + p;
    OldRest(p);
  }

  lemma OldRest(p: string)
    ensures var rest := "old.reddit.com/r/" + p;
      && !StartsWith(rest, "www.reddit.com/r/") && !StartsWith(rest, "reddit.com/r/")
      && StartsWith(rest, "old.reddit.com/r/") && rest[17..] == p
  {
    assert ("old.reddit.com/r/" + p)[0] == 'o';
  }

  /** A long URL is valid, and the validator reads back the ID it was built with. */
  lemma LongUrlParses(scheme: string, host: string, sub: string, id: string, tail: string)
    requires IsScheme(scheme) && IsLongHost(host)
    requires sub != [] && AllWordChars(sub) && id != [] && AllWordChars(id) && PathTail(tail)
    ensures AnchoredId(LongUrl(scheme, host, sub, id, tail)) == Some(id)
  {
    var url := LongUrl(scheme, host, sub, id, tail);
    var p := sub + "/comments/" + id + tail;
    PostPathOf(sub, id, tail);
    LongUrlSplit(scheme, host, sub, id, tail);
    if host == "www.reddit.com" {
      LiteralLead(scheme, host, "www.reddit.com/r/", p);
      WwwSite(url, scheme, p);
    } else if host == "reddit.com" {
      LiteralLead(scheme, host, "reddit.com/r/", p);
      BareSite(url, scheme, p);
    } else {
      LiteralLead(scheme, host, "old.reddit.com/r/", p);
      OldSite(url, scheme, p);
    }
    FirstPattern(url, id);
  }

  lemma LiteralLead(scheme: string, host: string, lead: string, p: string)
    requires host + "/r/" == lead
    ensures scheme + (host + "/r/") + p == scheme + lead + p
  {
  }

  lemma LongUrlSplit(scheme: string, host: string, sub: string, id: string, tail: string)
    ensures LongUrl(scheme, host, sub, id, tail) == scheme + (host + "/r/") + (sub + "/comments/" + id + tail)
  {
  }

  /** The validator reads the ID of the first pattern that matches. */
  lemma FirstPattern(url: string, id: string)
    requires StandardMatch(url) == Some(id) || (StandardMatch(url) == None && OldMatch(url) == Some(id))
    ensures AnchoredId(url) == Some(id)
  {
  }

  /** What may follow the ID for the extractor's search to stop there. */
  predicate TailEnds(tail: string, allowQuery: bool) {
    tail == [] || tail[0] == '/' || (allowQuery && tail[0] == '?') || tail == "\n"
  }

  /** The marker followed by a maximal word yields that word exactly when
      an allowed end follows it. */
  lemma IdAtMarker(url: string, marker: string, allowQuery: bool, k: nat, id: string, tail: string)
    requires k <= |url| && url[k..] == marker + id + tail
    requires id != [] && AllWordChars(id) && (tail == [] || !IsWordChar(tail[0]))
    ensures IdAt(url, marker, allowQuery, k) == if TailEnds(tail, allowQuery) then Some(id) else None
  {
    var start := k + |marker|;
    assert url[k..][..|marker|] == marker;
    assert url[start..] == id + tail;
    WordRunOf(id, tail);
    var e := start + |id|;
    assert url[start..e] == id;
    assert url[e..] == tail;
    assert IdEnds(url, e, allowQuery) == TailEnds(tail, allowQuery);
  }

  /** The lead of a long URL ends with a slash. */
  lemma LeadSlash(scheme: string, host: string) returns (j: nat)
    ensures j + 1 == |LongLead(scheme, host)| && LongLead(scheme, host)[j] == '/'
  {
    j := |LongLead(scheme, host)| - 1;
  }

  /** The search for "/comments/" in a long URL passes over the lead and the
      subreddit and arrives at the marker before the ID. */
  lemma LongSkip(scheme: string, host: string, sub: string, id: string, tail: string) returns (k: nat)
    requires IsScheme(scheme) && IsLongHost(host)
    requires AllWordChars(sub) && sub != "comments"
    ensures var url := LongUrl(scheme, host, sub, id, tail);
      && k <= |url| && url[k..] == "/comments/" + id + tail
      && Search(url, "/comments/", false, 0) == Search(url, "/comments/", false, k)
  {
    var url := LongUrl(scheme, host, sub, id, tail);
    var lead := LongLead(scheme, host);
    var rest := "/comments/" + id + tail;
    var j := LeadSlash(scheme, host);
    assert url == lead + sub + rest;
    ClearLongLead(url, scheme, host);
    assert url[j..] == [lead[j]] + sub + rest;
    ClearSlashWord(url, j, sub, rest);
    assert url[j + 1..j + 1 + |sub|] == sub;
    ClearWord(url, j + 1, sub);
    k := |lead| + |sub|;
    ClearJoin(url, 0, j, j + 1);
    ClearJoin(url, 0, j + 1, k);
    SkipClear(url, false, 0, k);
  }

  /** The extractor as written reads the ID of a long URL back, provided the
      subreddit is not itself called "comments" and the ID is followed by
      '/' or nothing. */
  lemma LongUrlRoundTrip(scheme: string, host: string, sub: string, id: string, tail: string)
    requires IsScheme(scheme) && IsLongHost(host)
    requires sub != [] && AllWordChars(sub) && sub != "comments"
    requires id != [] && AllWordChars(id) && PathTail(tail) && (tail == [] || tail[0] == '/')
    ensures var url := LongUrl(scheme, host, sub, id, tail);
      ValidateRedditUrl(url) && ExtractPostId(url) == Some(id)
  {
    var url := LongUrl(scheme, host, sub, id, tail);
    LongUrlParses(scheme, host, sub, id, tail);
    var k := LongSkip(scheme, host, sub, id, tail);
    IdAtMarker(url, "/comments/", false, k, id, tail);
  }

  // ---------------------------------------------------------------------
  // Short URLs

  predicate IsShortHost(host: string) {
    host == "www.redd.it" || host == "redd.it"
  }

  function ShortUrl(scheme: string, host: string, id: string, tail: string): string {
    scheme + host + "/" + id + tail
  }

  /** After "https://www.redd.it/" only the short pattern matches. */
  lemma WwwShortSite(url: string, scheme: string, p: string)
    requires IsScheme(scheme) && url == scheme + "www.redd.it/" + p
    ensures StandardMatch(url) == None && OldMatch(url) == None && ShortMatch(url) == ShortPathId(p)
  {
    SchemeOf(url, scheme);
    var rest := url[|scheme|..];
    assert rest == "www.redd.it/" + p;
    WwwShortRest(p);
  }

  lemma WwwShortRest(p: string)
    ensures var rest := "www.redd.it/" + p;
      && !StartsWith(rest, "www.reddit.com/r/") && !StartsWith(rest, "reddit.com/r/")
      && !StartsWith(rest, "old.reddit.com/r/")
      && StartsWith(rest, "www.redd.it/") && rest[12..] == p
  {
    var rest := "www.redd.it/" + p;
    assert rest[0] == 'w' && rest[8] == '.';
  }

  /** After "https://redd.it/" only the short pattern matches. */
  lemma BareShortSite(url: string, scheme: string, p: string)
    requires IsScheme(scheme) && url == scheme + "redd.it/" + p
    ensures StandardMatch(url) == None && OldMatch(url) == None && ShortMatch(url) == ShortPathId(p)
  {
    SchemeOf(url, scheme);
    var rest := url[|scheme|..];
    assert rest == "redd.it/" + p;
    BareShortRest(p);
  }

  lemma BareShortRest(p: string)
    ensures var rest := "redd.it/" + p;
      && !StartsWith(rest, "www.reddit.com/r/") && !StartsWith(rest, "reddit.com/r/")
      && !StartsWith(rest, "old.reddit.com/r/") && !StartsWith(rest, "www.redd.it/")
      && StartsWith(rest, "redd.it/") && rest[8..] == p
  {
    var rest := "redd.it/" + p;
    assert rest[0] == 'r' && rest[4] == '.';
  }

  /** The path after "redd.it/" gives back its ID. */
  lemma ShortPathOf(id: string, tail: string)
    requires id != [] && AllWordChars(id) && ShortTail(tail)
    ensures ShortPathId(id + tail) == Some(id)
  {
    WordRunOf(id, tail);
    assert (id + tail)[..|id|] == id && (id + tail)[|id|..] == tail;
  }

  lemma ShortUrlSplit(scheme: string, host: string, id: string, tail: string)
    ensures ShortUrl(scheme, host, id, tail) == scheme + (host + "/") + (id + tail)
  {
  }

  lemma LiteralShortLead(scheme: string, host: string, lead: string, p: string)
    requires host + "/" == lead
    ensures scheme + (host + "/") + p == scheme + lead + p
  {
  }

  /** The validator falls through to the short pattern. */
  lemma ThirdPattern(url: string, id: string)
    requires StandardMatch(url) == None && OldMatch(url) == None && ShortMatch(url) == Some(id)
    ensures AnchoredId(url) == Some(id)
  {
  }

  /** A short URL is valid and the validator reads its ID back. */
  lemma ShortUrlParses(scheme: string, host: string, id: string, tail: string)
    requires IsScheme(scheme) && IsShortHost(host)
    requires id != [] && AllWordChars(id) && ShortTail(tail)
    ensures AnchoredId(ShortUrl(scheme, host, id, tail)) == Some(id)
  {
    var url := ShortUrl(scheme, host, id, tail);
    var p := id + tail;
    ShortPathOf(id, tail);
    ShortUrlSplit(scheme, host, id, tail);
    if host == "www.redd.it" {
      LiteralShortLead(scheme, host, "www.redd.it/", p);
      WwwShortSite(url, scheme, p);
    } else {
      LiteralShortLead(scheme, host, "redd.it/", p);
      BareShortSite(url, scheme, p);
    }
    ThirdPattern(url, id);
  }

  /** What comes before "redd.it" in a short URL holds no 'r'. */
  lemma ShortFront(scheme: string, host: string) returns (front: string)
    requires IsScheme(scheme) && IsShortHost(host)
    ensures scheme + host == front + "redd.it" && 'r' !in front
  {
    var www := if host == "www.redd.it" then "www." else "";
    assert host == www + "redd.it";
    front := scheme + www;
    assert 'r' !in scheme && 'r' !in www;
  }

  /** The search for "redd.it/" in a short URL passes over the scheme and
      any "www." and arrives at the host. */
  lemma ShortSkip(scheme: string, host: string, id: string, tail: string) returns (k: nat)
    requires IsScheme(scheme) && IsShortHost(host)
    ensures var url := ShortUrl(scheme, host, id, tail);
      && k <= |url| && url[k..] == "redd.it/" + id + tail
      && Search(url, "redd.it/", true, 0) == Search(url, "redd.it/", true, k)
  {
    var url := ShortUrl(scheme, host, id, tail);
    var front := ShortFront(scheme, host);
    k := |front|;
    assert url == front + ("redd.it/" + id + tail);
    forall p | 0 <= p < k
      ensures !StartsWith(url[p..], "redd.it/")
    {
      assert url[p] == front[p];
      assert front[p] in front;
    }
    SearchSkips(url, "redd.it/", true, 0, k);
  }

  /** In the part of a short URL before the ID, no '/' is followed by 'c'. */
  lemma ShortLeadNoSlashC(scheme: string, host: string, p: nat)
    requires IsScheme(scheme) && IsShortHost(host) && p < |scheme + host|
    ensures !(((scheme + host) + "/")[p] == '/' && ((scheme + host) + "/")[p + 1] == 'c')
  {
    var a := SchemeName(scheme);
    var lead := (scheme + host) + "/";
    assert lead == a + "//" + host + "/";
    assert '/' !in host && host[0] != 'c';
    if p < |a| {
      assert lead[p] == a[p];
      assert a[p] in a;
    } else if p == |a| {
      assert lead[p + 1] == '/';
    } else if p == |a| + 1 {
      assert lead[p + 1] == host[0];
    } else {
      assert lead[p] == host[p - |a| - 2];
      assert host[p - |a| - 2] in host;
    }
  }

  /** No "/comments/" occurs in a short URL whose tail holds none, unless
      the ID is "comments" and a slash follows it. */
  lemma ShortNoCommentsMarker(scheme: string, host: string, id: string, tail: string)
    requires IsScheme(scheme) && IsShortHost(host) && AllWordChars(id)
    requires (tail == [] || !IsWordChar(tail[0])) && !Contains(tail, "/comments/")
    requires id != "comments" || tail == [] || tail[0] != '/'
    ensures Search(ShortUrl(scheme, host, id, tail), "/comments/", false, 0) == None
  {
    var url := ShortUrl(scheme, host, id, tail);
    var j := ShortParts(scheme, host, id, tail);
    ClearShortLead(url, scheme, host);
    ClearSlashWord(url, j, id, tail);
    ClearWord(url, j + 1, id);
    ClearTail(url, j + 1 + |id|);
    ClearJoin(url, 0, j, j + 1);
    ClearJoin(url, 0, j + 1, j + 1 + |id|);
    ClearJoin(url, 0, j + 1 + |id|, |url|);
    SkipClear(url, false, 0, |url|);
  }

  /** The parts of a short URL from the slash before the ID on. */
  lemma ShortParts(scheme: string, host: string, id: string, tail: string) returns (j: nat)
    ensures var url := ShortUrl(scheme, host, id, tail);
      && j == |scheme + host| && StartsWith(url, (scheme + host) + "/")
      && j < |url| && url[j..] == "/" + id + tail
      && url[j + 1..j + 1 + |id|] == id && url[j + 1 + |id|..] == tail
  {
    j := |scheme + host|;
    var url := ShortUrl(scheme, host, id, tail);
    assert url == (scheme + host) + ("/" + id + tail);
  }

  /** The extractor as written reads the ID of a short URL back when the ID
      is followed by '/', '?' or nothing and no "/comments/" comes after it. */
  lemma ShortUrlRoundTrip(scheme: string, host: string, id: string, tail: string)
    requires IsScheme(scheme) && IsShortHost(host)
    requires id != [] && AllWordChars(id) && ShortTail(tail) && (tail == [] || tail[0] == '/' || tail[0] == '?')
    requires !Contains(tail, "/comments/") && (id != "comments" || tail == [] || tail[0] != '/')
    ensures var url := ShortUrl(scheme, host, id, tail);
      ValidateRedditUrl(url) && ExtractPostId(url) == Some(id)
  {
    var url := ShortUrl(scheme, host, id, tail);
    ShortUrlParses(scheme, host, id, tail);
    ShortNoCommentsMarker(scheme, host, id, tail);
    var k := ShortSkip(scheme, host, id, tail);
    IdAtMarker(url, "redd.it/", true, k, id, tail);
  }

  /** The extractor reads the ID of a sample long URL, given by its parts. */
  lemma SampleLongId()
    ensures ExtractPostId(LongUrl("https://", "www.reddit.com", "learnpython", "123abc", "/my_python_post/"))
         == Some("123abc")
  {
    var tail := "/my_python_post/";
    assert NoSpace(tail) && AllWordChars("learnpython") && AllWordChars("123abc");
    LongUrlRoundTrip("https://", "www.reddit.com", "learnpython", "123abc", tail);
  }

  /** The extractor reads the ID of a sample short URL. */
  lemma SampleShortId()
    ensures ExtractPostId("https://redd.it/123xyz") == Some("123xyz")
  {
    assert AllWordChars("123xyz");
    assert !Contains("", "/comments/");
    ShortUrlRoundTrip("https://", "redd.it", "123xyz", "");
    SampleShortUrl();
  }

  lemma SampleShortUrl()
    ensures ShortUrl("https://", "redd.it", "123xyz", "") == "https://redd.it/123xyz"
  {
  }

  // ---------------------------------------------------------------------
  // What the validator rejects

  /** The path after "/r/" holds "/comments/" followed by the ID it gives. */
  lemma PostPathMarker(p: string)
    ensures PostPathId(p).Some? ==> Contains(p, "/comments/" + PostPathId(p).value)
  {
    if PostPathId(p).Some? {
      var k := WordRun(p);
      var id := PostPathId(p).value;
      assert p[k..k + 10] == "/comments/";
      assert p[k + 10..k + 10 + |id|] == id;
      assert p[k..k + 10 + |id|] == "/comments/" + id;
      ContainsAt(p, "/comments/" + id, k);
    }
  }

  /** The path after "redd.it/" starts with the ID it gives. */
  lemma ShortPathPrefix(p: string)
    ensures ShortPathId(p).Some? ==> StartsWith(p, ShortPathId(p).value)
  {
  }

  /** What a suffix contains, the whole contains. */
  lemma SuffixContains(s: string, i: nat, sub: string)
    requires i <= |s|
    ensures Contains(s[i..], sub) ==> Contains(s, sub)
  {
    if Contains(s[i..], sub) {
      ContainsInfix(s[..i], s[i..], [], sub);
      assert s[..i] + s[i..] + [] == s;
    }
  }

  /** After the scheme, the standard and old-site patterns need "/comments/"
      before the ID they read. */
  lemma LongRestMarker(rest: string)
    ensures ((StartsWith(rest, "www.reddit.com/r/") || StartsWith(rest, "old.reddit.com/r/"))
             && PostPathId(rest[17..]).Some?)
            ==> Contains(rest, "/comments/" + PostPathId(rest[17..]).value)
    ensures (StartsWith(rest, "reddit.com/r/") && PostPathId(rest[13..]).Some?)
            ==> Contains(rest, "/comments/" + PostPathId(rest[13..]).value)
  {
    if 17 <= |rest| && PostPathId(rest[17..]).Some? {
      PostPathMarker(rest[17..]);
      SuffixContains(rest, 17, "/comments/" + PostPathId(rest[17..]).value);
    }
    if 13 <= |rest| && PostPathId(rest[13..]).Some? {
      PostPathMarker(rest[13..]);
      SuffixContains(rest, 13, "/comments/" + PostPathId(rest[13..]).value);
    }
  }

  /** Two adjacent pieces of a text occur in it together. */
  lemma AdjacentContains(s: string, m: nat, n: nat, a: string, b: string)
    requires m <= n <= |s| && s[m..n] == a && StartsWith(s[n..], b)
    ensures Contains(s, a + b)
  {
    assert s[n..n + |b|] == s[n..][..|b|];
    assert s[m..n + |b|] == s[m..n] + s[n..n + |b|];
    ContainsAt(s, a + b, m);
  }

  /** After the scheme, the short pattern needs "redd.it/" before its ID. */
  lemma ShortRestMarker(rest: string, n: nat, id: string)
    requires (n == 12 && StartsWith(rest, "www.redd.it/")) || (n == 8 && StartsWith(rest, "redd.it/"))
    requires StartsWith(rest[n..], id)
    ensures Contains(rest, "redd.it/" + id)
  {
    assert rest[n - 8..n] == "redd.it/";
    AdjacentContains(rest, n - 8, n, "redd.it/", id);
  }

  /** The ID the three patterns read follows "/comments/" or "redd.it/". */
  lemma MatchMarker(url: string)
    ensures StandardMatch(url).Some? ==> Contains(url, "/comments/" + StandardMatch(url).value)
    ensures OldMatch(url).Some? ==> Contains(url, "/comments/" + OldMatch(url).value)
    ensures ShortMatch(url).Some? ==> Contains(url, "redd.it/" + ShortMatch(url).value)
  {
    match AfterScheme(url)
    case None =>
    case Some(rest) =>
      var i := |url| - |rest|;
      LongRestMarker(rest);
      if StandardMatch(url).Some? {
        SuffixContains(url, i, "/comments/" + StandardMatch(url).value);
      }
      if OldMatch(url).Some? {
        SuffixContains(url, i, "/comments/" + OldMatch(url).value);
      }
      if ShortMatch(url).Some? {
        var id := ShortMatch(url).value;
        if StartsWith(rest, "www.redd.it/") {
          ShortPathPrefix(rest[12..]);
          ShortRestMarker(rest, 12, id);
        } else {
          ShortPathPrefix(rest[8..]);
          ShortRestMarker(rest, 8, id);
        }
        SuffixContains(url, i, "redd.it/" + id);
      }
  }

  /** What a prefix contains, the whole contains. */
  lemma PrefixContains(s: string, i: nat, sub: string)
    requires i <= |s|
    ensures Contains(s[..i], sub) ==> Contains(s, sub)
  {
    if Contains(s[..i], sub) {
      ContainsInfix([], s[..i], s[i..], sub);
      assert [] + s[..i] + s[i..] == s;
    }
  }

  /** The ID the patterns read follows "/comments/" or "redd.it/". */
  lemma PatternMarker(s: string)
    ensures PatternId(s).Some? ==>
      Contains(s, "/comments/" + PatternId(s).value) || Contains(s, "redd.it/" + PatternId(s).value)
  {
    MatchMarker(s);
  }

  /** The ID the validator reads occurs in the URL after "/comments/" or
      "redd.it/". */
  lemma ParsedHasId(url: string)
    ensures AnchoredId(url).Some? ==>
      Contains(url, "/comments/" + AnchoredId(url).value) || Contains(url, "redd.it/" + AnchoredId(url).value)
  {
    PatternMarker(url);
    if |url| > 0 && PatternId(url).None? && AnchoredId(url).Some? {
      var id := AnchoredId(url).value;
      PatternMarker(url[..|url| - 1]);
      PrefixContains(url, |url| - 1, "/comments/" + id);
      PrefixContains(url, |url| - 1, "redd.it/" + id);
    }
  }

  /** What contains `a + b` contains `a`. */
  lemma ContainsHead(s: string, a: string, b: string)
    requires Contains(s, a + b)
    ensures Contains(s, a)
  {
    var i := ContainsWitness(s, a + b);
    assert s[i..i + |a|] == (a + b)[..|a|];
    ContainsAt(s, a, i);
  }

  /** A valid URL holds "/comments/" or "redd.it/": a host other than
      Reddit's, or a subreddit page, is rejected. */
  lemma ValidHasMarker(url: string)
    ensures ValidateRedditUrl(url) ==> Contains(url, "/comments/") || Contains(url, "redd.it/")
  {
    ParsedHasId(url);
    if ValidateRedditUrl(url) {
      var id := AnchoredId(url).value;
      if Contains(url, "/comments/" + id) {
        ContainsHead(url, "/comments/", id);
      } else {
        ContainsHead(url, "redd.it/", id);
      }
    }
  }

  /** A short URL without an ID is rejected. */
  lemma ShortUrlWithoutId(scheme: string, host: string)
    requires IsScheme(scheme) && IsShortHost(host)
    ensures !ValidateRedditUrl(ShortUrl(scheme, host, "", ""))
  {
    var url := ShortUrl(scheme, host, "", "");
    ShortUrlSplit(scheme, host, "", "");
    if host == "www.redd.it" {
      LiteralShortLead(scheme, host, "www.redd.it/", "");
      WwwShortSite(url, scheme, "");
    } else {
      LiteralShortLead(scheme, host, "redd.it/", "");
      BareShortSite(url, scheme, "");
    }
    assert url[|url| - 1] == '/';
  }

  // ---------------------------------------------------------------------
  // What a valid URL looks like

  /** `url` is a long post URL: a scheme, one of the three long hosts, "/r/",
      a subreddit, "/comments/", the ID and a tail the pattern allows. */
  predicate IsLongForm(url: string, scheme: string, host: string, sub: string, id: string, tail: string) {
    && IsScheme(scheme) && IsLongHost(host)
    && sub != [] && AllWordChars(sub) && id != [] && AllWordChars(id) && PathTail(tail)
    && url == LongUrl(scheme, host, sub, id, tail)
  }

  /** `url` is a short post URL: a scheme, one of the two short hosts, "/",
      the ID and a tail the pattern allows. */
  predicate IsShortForm(url: string, scheme: string, host: string, id: string, tail: string) {
    && IsScheme(scheme) && IsShortHost(host)
    && id != [] && AllWordChars(id) && ShortTail(tail)
    && url == ShortUrl(scheme, host, id, tail)
  }

  /** The path after "/r/" that gives an ID is a subreddit, the marker, that
      ID and a tail the pattern allows. */
  lemma PostPathParts(p: string) returns (sub: string, tail: string)
    requires PostPathId(p).Some?
    ensures sub != [] && AllWordChars(sub) && PathTail(tail)
    ensures p == sub + "/comments/" + PostPathId(p).value + tail
  {
    var k := WordRun(p);
    var q := p[k + 10..];
    var j := WordRun(q);
    sub := p[..k];
    tail := q[j..];
    assert p[k..k + 10] == p[k..][..10] == "/comments/";
    assert p == p[..k] + p[k..k + 10] + q[..j] + q[j..];
  }

  /** The path after "redd.it/" that gives an ID is that ID and a tail the
      pattern allows. */
  lemma ShortPathParts(p: string) returns (tail: string)
    requires ShortPathId(p).Some?
    ensures ShortTail(tail) && p == ShortPathId(p).value + tail
  {
    var k := WordRun(p);
    tail := p[k..];
    assert p == p[..k] + p[k..];
  }

  /** The scheme a URL starts with, when the patterns see one. */
  lemma SchemeParts(url: string) returns (scheme: string)
    requires AfterScheme(url).Some?
    ensures IsScheme(scheme) && url == scheme + AfterScheme(url).value
  {
    scheme := if StartsWith(url, "https://") then "https://" else "http://";
    assert url == url[..|scheme|] + url[|scheme|..];
  }

  /** The host and the path of a URL the standard pattern matches. */
  lemma StandardHost(s: string, rest: string) returns (host: string, p: string)
    requires AfterScheme(s) == Some(rest) && StandardMatch(s).Some?
    ensures IsLongHost(host) && rest == (host + "/r/") + p && PostPathId(p) == StandardMatch(s)
  {
    if StartsWith(rest, "www.reddit.com/r/") {
      host, p := "www.reddit.com", rest[17..];
      HostLeads();
    } else {
      host, p := "reddit.com", rest[13..];
      HostLeads();
    }
    LeadSplit(rest, host + "/r/");
  }

  /** A text that starts with a prefix is that prefix and the rest. */
  lemma LeadSplit(s: string, prefix: string)
    requires StartsWith(s, prefix)
    ensures s == prefix + s[|prefix|..]
  {
    assert s[..|prefix|] == prefix;
  }

  lemma HostLeads()
    ensures "www.reddit.com" + "/r/" == "www.reddit.com/r/"
    ensures "reddit.com" + "/r/" == "reddit.com/r/"
  {
  }

  /** The host and the path of a URL the old-site pattern matches. */
  lemma OldHost(s: string, rest: string) returns (host: string, p: string)
    requires AfterScheme(s) == Some(rest) && OldMatch(s).Some?
    ensures IsLongHost(host) && rest == (host + "/r/") + p && PostPathId(p) == OldMatch(s)
  {
    host, p := "old.reddit.com", rest[17..];
    assert rest == rest[..17] + p;
  }

  /** The host and the path of a URL the short pattern matches. */
  lemma ShortHost(s: string, rest: string) returns (host: string, p: string)
    requires AfterScheme(s) == Some(rest) && ShortMatch(s).Some?
    ensures IsShortHost(host) && rest == (host + "/") + p && ShortPathId(p) == ShortMatch(s)
  {
    if StartsWith(rest, "www.redd.it/") {
      host, p := "www.redd.it", rest[12..];
    } else {
      host, p := "redd.it", rest[8..];
    }
    assert rest == rest[..|host + "/"|] + p;
  }

  lemma LongJoin(s: string, scheme: string, host: string, rest: string, p: string, sub: string, id: string, tail: string)
    requires s == scheme + rest && rest == (host + "/r/") + p && p == sub + "/comments/" + id + tail
    ensures s == LongUrl(scheme, host, sub, id, tail)
  {
  }

  lemma ShortJoin(s: string, scheme: string, host: string, rest: string, p: string, id: string, tail: string)
    requires s == scheme + rest && rest == (host + "/") + p && p == id + tail
    ensures s == ShortUrl(scheme, host, id, tail)
  {
  }

  /** Whatever one of the three patterns matches is a long URL or a short URL
      carrying the ID the patterns read. */
  lemma PatternForm(s: string) returns (scheme: string, host: string, sub: string, tail: string)
    requires PatternId(s).Some?
    ensures || IsLongForm(s, scheme, host, sub, PatternId(s).value, tail)
            || IsShortForm(s, scheme, host, PatternId(s).value, tail)
  {
    var id := PatternId(s).value;
    var rest := AfterScheme(s).value;
    scheme := SchemeParts(s);
    var p;
    if StandardMatch(s).Some? || OldMatch(s).Some? {
      if StandardMatch(s).Some? {
        host, p := StandardHost(s, rest);
      } else {
        host, p := OldHost(s, rest);
      }
      sub, tail := PostPathParts(p);
      LongJoin(s, scheme, host, rest, p, sub, id, tail);
    } else {
      host, p := ShortHost(s, rest);
      tail := ShortPathParts(p);
      sub := [];
      ShortJoin(s, scheme, host, rest, p, id, tail);
    }
  }

  /** The converse of LongUrlParses and ShortUrlParses: a valid URL is a long
      or a short URL carrying the ID the validator reads, possibly followed by
      one final newline, which the end anchor lets through. */
  lemma ValidForms(url: string) returns (body: string, scheme: string, host: string, sub: string, id: string, tail: string)
    requires ValidateRedditUrl(url)
    ensures AnchoredId(url) == Some(id) && (url == body || url == body + "\n")
    ensures IsLongForm(body, scheme, host, sub, id, tail) || IsShortForm(body, scheme, host, id, tail)
  {
    body := PatternBody(url);
    id := PatternId(body).value;
    scheme, host, sub, tail := PatternForm(body);
  }

  /** The text the patterns matched: the URL, or the URL without its final newline. */
  lemma PatternBody(url: string) returns (body: string)
    requires ValidateRedditUrl(url)
    ensures PatternId(body).Some? && AnchoredId(url) == PatternId(body)
    ensures url == body || url == body + "\n"
  {
    if PatternId(url).Some? {
      body := url;
    } else {
      assert |url| > 0 && url[|url| - 1] == '\n';
      body := url[..|url| - 1];
      assert AnchoredId(url) == PatternId(body);
      FinalNewline(url);
    }
  }

  lemma FinalNewline(url: string)
    requires |url| > 0 && url[|url| - 1] == '\n'
    ensures url == url[..|url| - 1] + "\n"
  {
  }

  /** A long or short URL does not end with whitespace, so the first pattern
      that matches it reads its ID. */
  lemma FormPattern(url: string, scheme: string, host: string, sub: string, id: string, tail: string)
    requires IsLongForm(url, scheme, host, sub, id, tail) || IsShortForm(url, scheme, host, id, tail)
    ensures PatternId(url) == Some(id)
  {
    if IsLongForm(url, scheme, host, sub, id, tail) {
      LongUrlParses(scheme, host, sub, id, tail);
      NoSpaceEnd(url, LongLead(scheme, host) + sub + "/comments/", id, tail);
    } else {
      ShortUrlParses(scheme, host, id, tail);
      NoSpaceEnd(url, scheme + host + "/", id, tail);
    }
    AnchoredPattern(url, id);
  }

  /** A URL ending in an ID and a tail without whitespace does not end with
      whitespace. */
  lemma NoSpaceEnd(url: string, front: string, id: string, tail: string)
    requires url == front + id + tail && id != [] && AllWordChars(id) && NoSpace(tail)
    ensures url != [] && !IsSpace(url[|url| - 1])
  {
    if tail == [] {
      assert url[|url| - 1] == id[|id| - 1];
    } else {
      assert url[|url| - 1] == tail[|tail| - 1];
    }
  }

  /** Without a final newline the validator reads the first pattern. */
  lemma AnchoredPattern(url: string, id: string)
    requires AnchoredId(url) == Some(id) && url != [] && !IsSpace(url[|url| - 1])
    ensures PatternId(url) == Some(id)
  {
  }

  /** The end anchor also matches before one final newline: a long or short
      URL followed by "\n" is valid too. */
  lemma NewlineForms(url: string, scheme: string, host: string, sub: string, id: string, tail: string)
    requires IsLongForm(url, scheme, host, sub, id, tail) || IsShortForm(url, scheme, host, id, tail)
    ensures ValidateRedditUrl(url) && ValidateRedditUrl(url + "\n")
  {
    FormPattern(url, scheme, host, sub, id, tail);
    assert (url + "\n")[..|url|] == url;
  }

  /** Two texts that each start with a name holding no slash, followed by a
      slash or nothing, start with the same name. */
  lemma SameFirstName(a: string, x: string, b: string, y: string)
    requires '/' !in a && '/' !in b && a + x == b + y
    requires x == [] || x[0] == '/'
    requires y != [] && y[0] == '/'
    ensures a == b
  {
    var u := a + x;
    assert u[|b|] == '/';
    assert x != [] ==> u[|a|] == '/';
    assert forall k :: 0 <= k < |a| ==> u[k] == a[k];
    assert forall k :: 0 <= k < |b| ==> u[k] == b[k];
    assert a == u[..|a|] && b == u[..|b|];
  }

  /** The two schemes cannot both start one text. */
  lemma SameScheme(s1: string, x: string, s2: string, y: string)
    requires IsScheme(s1) && IsScheme(s2) && s1 + x == s2 + y
    ensures s1 == s2 && x == y
  {
    assert (s1 + x)[4] == s1[4] && (s2 + y)[4] == s2[4];
    assert x == (s1 + x)[|s1|..] && y == (s2 + y)[|s2|..];
  }

  /** A valid URL names one of Reddit's five hosts, right after the scheme and
      before a slash. */
  lemma ValidHost(url: string) returns (scheme: string, host: string, after: string)
    requires ValidateRedditUrl(url)
    ensures IsScheme(scheme) && (IsLongHost(host) || IsShortHost(host))
    ensures after != [] && after[0] == '/' && url == scheme + (host + after)
  {
    var body, sub, id, tail;
    body, scheme, host, sub, id, tail := ValidForms(url);
    var nl := url[|body|..];
    assert url == body + nl;
    if IsLongForm(body, scheme, host, sub, id, tail) {
      after := LongAfterHost(url, scheme, host, sub, id, tail, nl);
    } else {
      after := ShortAfterHost(url, scheme, host, id, tail, nl);
    }
  }

  /** A URL whose host is none of Reddit's five hosts is invalid, whatever
      path follows it. */
  lemma ForeignHostInvalid(scheme: string, host: string, rest: string)
    requires IsScheme(scheme) && '/' !in host && !IsLongHost(host) && !IsShortHost(host)
    requires rest == [] || rest[0] == '/'
    ensures !ValidateRedditUrl(scheme + host + rest)
  {
    var url := scheme + host + rest;
    if ValidateRedditUrl(url) {
      var scheme', host', after := ValidHost(url);
      SameHost(url, scheme, host, rest, scheme', host', after);
    }
  }

  /** The host of a URL is fixed by the text: a URL that starts with a scheme
      and a host and continues with a slash or nothing, and also with a scheme,
      one of Reddit's hosts and a slash, names that host. */
  lemma SameHost(url: string, scheme: string, host: string, rest: string, scheme': string, host': string, after: string)
    requires IsScheme(scheme) && '/' !in host && (rest == [] || rest[0] == '/') && url == scheme + host + rest
    requires IsScheme(scheme') && (IsLongHost(host') || IsShortHost(host'))
    requires after != [] && after[0] == '/' && url == scheme' + (host' + after)
    ensures host == host'
  {
    HostNoSlash(host');
    SameScheme(scheme, host + rest, scheme', host' + after);
    SameFirstName(host, rest, host', after);
  }

  /** What follows the host of a long URL starts with a slash. */
  lemma LongAfterHost(url: string, scheme: string, host: string, sub: string, id: string, tail: string, nl: string)
    returns (after: string)
    requires url == LongUrl(scheme, host, sub, id, tail) + nl
    ensures after != [] && after[0] == '/' && url == scheme + (host + after)
  {
    after := "/r/" + sub + "/comments/" + id + tail + nl;
  }

  /** What follows the host of a short URL starts with a slash. */
  lemma ShortAfterHost(url: string, scheme: string, host: string, id: string, tail: string, nl: string)
    returns (after: string)
    requires url == ShortUrl(scheme, host, id, tail) + nl
    ensures after != [] && after[0] == '/' && url == scheme + (host + after)
  {
    after := "/" + id + tail + nl;
  }

  /** None of Reddit's hosts holds a slash. */
  lemma HostNoSlash(host: string)
    requires IsLongHost(host) || IsShortHost(host)
    ensures '/' !in host
  {
  }

  /** The concrete case: a post path under another host is rejected. */
  lemma ForeignHostExample()
    ensures !ValidateRedditUrl("https://example.com/r/x/comments/abc")
  {
    ForeignHostInvalid("https://", "example.com", "/r/x/comments/abc");
    ForeignExampleUrl();
  }

  /** The test URL "https://www.google.com" is rejected. */
  lemma NotRedditInvalid()
    ensures !ValidateRedditUrl("https://www.google.com")
  {
    ForeignHostInvalid("https://", "www.google.com", "");
    GoogleUrl();
  }

  lemma GoogleUrl()
    ensures "https://" + "www.google.com" + "" == "https://www.google.com"
  {
    assert "https://" + "www.google.com" + "" == "https://" + "www.google.com";
  }

  lemma ForeignExampleUrl()
    ensures "https://" + "example.com" + "/r/x/comments/abc" == "https://example.com/r/x/comments/abc"
  {
  }

  // ---------------------------------------------------------------------
  // A valid URL the extractor gives no ID for

  /** Past the marker before the ID, no "/comments/" starts again when a
      query or fragment that does not hold one follows the ID. */
  lemma AfterIdSkip(url: string, k: nat, id: string, tail: string)
    requires k <= |url| && url[k..] == "/comments/" + id + tail
    requires id != [] && AllWordChars(id)
    requires tail != [] && (tail[0] == '?' || tail[0] == '#') && !Contains(tail, "/comments/")
    ensures Search(url, "/comments/", false, k + 1) == None
  {
    AfterIdClear(url, k, id, tail);
    SkipClear(url, false, k + 1, |url|);
  }

  /** No "/comments/" starts after the marker before an ID followed by a
      query or a fragment that holds none. */
  lemma AfterIdClear(url: string, k: nat, id: string, tail: string)
    requires k <= |url| && url[k..] == "/comments/" + id + tail
    requires id != [] && AllWordChars(id)
    requires tail != [] && (tail[0] == '?' || tail[0] == '#') && !Contains(tail, "/comments/")
    ensures k + 1 <= |url| && Clear(url, k + 1, |url|)
  {
    CommentsParts(url, k, id, tail);
    ClearWord(url, k + 1, "comments");
    ClearSlashWord(url, k + 9, id, tail);
    ClearWord(url, k + 10, id);
    ClearTail(url, k + 10 + |id|);
    ClearJoin(url, k + 1, k + 9, k + 10);
    ClearJoin(url, k + 1, k + 10, k + 10 + |id|);
    ClearJoin(url, k + 1, k + 10 + |id|, |url|);
  }

  /** The parts of the text after the marker before the ID. */
  lemma CommentsParts(url: string, k: nat, id: string, tail: string)
    requires k <= |url| && url[k..] == "/comments/" + id + tail
    ensures AllWordChars("comments") && k + 10 <= |url| && url[k + 1..k + 9] == "comments"
    ensures url[k + 9..] == "/" + id + tail
    ensures url[k + 10..k + 10 + |id|] == id && url[k + 10 + |id|..] == tail
  {
    assert url[k + 1..k + 9] == url[k..][1..9];
    assert url[k..][1..9] == "comments";
  }

  /** A long URL whose ID is followed by a query or a fragment is valid, yet
      the extractor as written gives no ID for it unless "redd.it/" occurs. */
  lemma ValidWithoutId(scheme: string, host: string, sub: string, id: string, tail: string)
    requires IsScheme(scheme) && IsLongHost(host)
    requires sub != [] && AllWordChars(sub) && sub != "comments" && id != [] && AllWordChars(id)
    requires NoSpace(tail) && tail != [] && (tail[0] == '?' || tail[0] == '#')
    requires !Contains(tail, "/comments/") && !Contains(LongUrl(scheme, host, sub, id, tail), "redd.it/")
    ensures var url := LongUrl(scheme, host, sub, id, tail);
      ValidateRedditUrl(url) && ExtractPostId(url) == None
  {
    var url := LongUrl(scheme, host, sub, id, tail);
    LongUrlParses(scheme, host, sub, id, tail);
    var k := LongSkip(scheme, host, sub, id, tail);
    IdAtMarker(url, "/comments/", false, k, id, tail);
    AfterIdSkip(url, k, id, tail);
    NoMarkerNoId(url, "redd.it/", true);
  }

  // ---------------------------------------------------------------------
  // The ID the validator reads

  /** The ID at the position the validated pattern gives it, which is what
      the extractor's two searches evidently aim at. */
  function ParsedPostId(url: string): (r: Option<string>)
    ensures r.Some? <==> ValidateRedditUrl(url)
    ensures r.Some? ==> r.value != [] && AllWordChars(r.value)
    ensures r.Some? ==> Contains(url, "/comments/" + r.value) || Contains(url, "redd.it/" + r.value)
  {
    ParsedHasId(url);
    AnchoredId(url)
  }

  /** Every well-formed long or short URL gives back its own ID. */
  lemma ParsedPostIdRoundTrip(scheme: string, host: string, sub: string, id: string, tail: string)
    requires IsScheme(scheme) && id != [] && AllWordChars(id)
    ensures (IsLongHost(host) && sub != [] && AllWordChars(sub) && PathTail(tail))
            ==> ParsedPostId(LongUrl(scheme, host, sub, id, tail)) == Some(id)
    ensures (IsShortHost(host) && ShortTail(tail))
            ==> ParsedPostId(ShortUrl(scheme, host, id, tail)) == Some(id)
  {
    if IsLongHost(host) && sub != [] && AllWordChars(sub) && PathTail(tail) {
      LongUrlParses(scheme, host, sub, id, tail);
    }
    if IsShortHost(host) && ShortTail(tail) {
      ShortUrlParses(scheme, host, id, tail);
    }
  }

  /** In a long URL whose subreddit is "comments", the search for
      "/comments/" stops at the slash before the subreddit. */
  lemma CommentsSubSkip(scheme: string, host: string, id: string, tail: string) returns (k: nat)
    requires IsScheme(scheme) && IsLongHost(host)
    ensures var url := LongUrl(scheme, host, "comments", id, tail);
      && k <= |url| && url[k..] == "/comments/" + "comments" + ("/" + id + tail)
      && Search(url, "/comments/", false, 0) == Search(url, "/comments/", false, k)
  {
    var url := LongUrl(scheme, host, "comments", id, tail);
    var lead := LongLead(scheme, host);
    k := LeadSlash(scheme, host);
    assert url == lead + ("comments" + "/comments/" + id + tail);
    ClearLongLead(url, scheme, host);
    SkipClear(url, false, 0, k);
    assert url[k..] == [lead[k]] + ("comments" + "/comments/" + id + tail);
    CommentsTwice(id, tail);
  }

  lemma CommentsTwice(id: string, tail: string)
    ensures ['/'] + ("comments" + "/comments/" + id + tail) == "/comments/" + "comments" + ("/" + id + tail)
  {
  }

  /** A subreddit named "comments" makes the extractor as written return the
      subreddit name instead of the post ID. */
  lemma SubredditNamedComments(scheme: string, host: string, id: string, tail: string)
    requires IsScheme(scheme) && IsLongHost(host)
    requires id != [] && AllWordChars(id) && PathTail(tail) && (tail == [] || tail[0] == '/')
    ensures var url := LongUrl(scheme, host, "comments", id, tail);
      ExtractPostId(url) == Some("comments") && ParsedPostId(url) == Some(id)
  {
    var url := LongUrl(scheme, host, "comments", id, tail);
    LongUrlParses(scheme, host, "comments", id, tail);
    var k := CommentsSubSkip(scheme, host, id, tail);
    IdAtMarker(url, "/comments/", false, k, "comments", "/" + id + tail);
  }

  /** The concrete case: "comments" is read where "abc" was meant. */
  lemma SubredditNamedCommentsExample()
    ensures var url := "https://www.reddit.com/r/comments/comments/abc/";
      ExtractPostId(url) == Some("comments") && ParsedPostId(url) == Some("abc")
  {
    SubredditNamedComments("https://", "www.reddit.com", "abc", "/");
    CommentsExampleUrl();
  }

  lemma CommentsExampleUrl()
    ensures LongUrl("https://", "www.reddit.com", "comments", "abc", "/")
         == "https://www.reddit.com/r/comments/comments/abc/"
  {
  }

  /** In a short URL whose query holds "/comments/", the search for it
      passes over everything before the query's slash. */
  lemma QuerySkip(scheme: string, host: string, id: string, q: string, w: string, rest: string) returns (k: nat)
    requires IsScheme(scheme) && IsShortHost(host) && AllWordChars(id)
    requires q != [] && q[0] == '?' && '/' !in q
    ensures var url := ShortUrl(scheme, host, id, q + "/comments/" + w + rest);
      && k <= |url| && url[k..] == "/comments/" + w + rest
      && Search(url, "/comments/", false, 0) == Search(url, "/comments/", false, k)
  {
    var tail := q + "/comments/" + w + rest;
    var url := ShortUrl(scheme, host, id, tail);
    var j := ShortParts(scheme, host, id, tail);
    var i := j + 1 + |id|;
    k := i + |q|;
    assert url[i..] == q + ("/comments/" + w + rest);
    assert url[i..k] == url[i..][..|q|] && url[k..] == url[i..][|q|..];
    ClearShortLead(url, scheme, host);
    ClearSlashWord(url, j, id, tail);
    ClearWord(url, j + 1, id);
    ClearNoSlash(url, i, q);
    ClearJoin(url, 0, j, j + 1);
    ClearJoin(url, 0, j + 1, i);
    ClearJoin(url, 0, i, k);
    SkipClear(url, false, 0, k);
  }

  /** A short URL whose query holds "/comments/<word>" makes the extractor as
      written return that word instead of the post ID. */
  lemma ShortUrlWithCommentsQuery(scheme: string, host: string, id: string, q: string, w: string, rest: string)
    requires IsScheme(scheme) && IsShortHost(host) && id != [] && AllWordChars(id)
    requires q != [] && q[0] == '?' && '/' !in q
    requires w != [] && AllWordChars(w) && (rest == [] || rest[0] == '/')
    requires NoSpace(q + "/comments/" + w + rest)
    ensures var url := ShortUrl(scheme, host, id, q + "/comments/" + w + rest);
      ExtractPostId(url) == Some(w) && ParsedPostId(url) == Some(id)
  {
    var tail := q + "/comments/" + w + rest;
    var url := ShortUrl(scheme, host, id, tail);
    ShortUrlParses(scheme, host, id, tail);
    var k := QuerySkip(scheme, host, id, q, w, rest);
    IdAtMarker(url, "/comments/", false, k, w, rest);
  }

  /** The concrete case: "zzz" from the query is read where "abc" was meant. */
  lemma ShortUrlWithCommentsQueryExample()
    ensures var url := "https://redd.it/abc?x=/comments/zzz";
      ExtractPostId(url) == Some("zzz") && ParsedPostId(url) == Some("abc")
  {
    ShortUrlWithCommentsQuery("https://", "redd.it", "abc", "?x=", "zzz", "");
    QueryExampleUrl();
  }

  lemma QueryExampleUrl()
    ensures ShortUrl("https://", "redd.it", "abc", "?x=" + "/comments/" + "zzz" + "")
         == "https://redd.it/abc?x=/comments/zzz"
  {
  }
}
