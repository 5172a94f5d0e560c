/** The parts of urllib's `urlparse` that the extractor relies on: where the
    path of a URL starts and ends. Scheme, network location, query, fragment
    and `;params` are split off as urllib does. */
module UrlParse {
  import opened Wrappers
  import opened Text

  predicate IsAsciiLetter(c: char) {
    ('a' <= c <= 'z') || ('A' <= c <= 'Z')
  }

  /** Characters urllib accepts in a scheme. */
  predicate IsSchemeChar(c: char) {
    IsAsciiLetter(c) || IsDigit(c) || c == '+' || c == '-' || c == '.'
  }

  predicate EndsNetloc(c: char) {
    c == '/' || c == '?' || c == '#'
  }

  /** The schemes for which urllib splits `;params` off the path. */
  const UsesParams: seq<string> :=
    ["", "ftp", "hdl", "prospero", "http", "imap", "https", "shttp", "rtsp",
     "rtsps", "rtspu", "sip", "sips", "mms", "sftp", "tel"]

  /** Splits a scheme off: the text before the first ':' when it is non-empty,
      starts with a letter and holds only scheme characters. */
  function SplitScheme(url: string): (r: (string, string))
    ensures r.0 == [] ==> r.1 == url
    ensures r.0 != [] ==> |r.0| + 1 + |r.1| == |url| && r.1 == url[|r.0| + 1..]
  {
    var i := IndexOf(url, ':');
    if 0 < i < |url| && IsAsciiLetter(url[0]) && forall j :: 0 <= j < i ==> IsSchemeChar(url[j])
    then (Lower(url[..i]), url[i + 1..])
    else ([], url)
  }

  /** Splits a network location off: after a leading "//", up to the first
      '/', '?' or '#'. */
  function SplitNetloc(rest: string): (r: (string, string))
    ensures |r.1| <= |rest| && r.1 == rest[|rest| - |r.1|..]
    ensures r.1 != [] && r.0 != [] ==> EndsNetloc(r.1[0])
  {
    if StartsWith(rest, "//") then
      var k := FirstWhere(rest[2..], EndsNetloc);
      (rest[2..2 + k], rest[2 + k..])
    else ([], rest)
  }

  /** urllib refuses a network location with a '[' and no ']' or the other way round. */
  predicate BadBrackets(netloc: string) {
    ('[' in netloc) != (']' in netloc)
  }

  /** Drops `;params` from the last path segment, as urllib does for the
      schemes in `UsesParams`. */
  function SplitParams(path: string): (r: string)
    ensures StartsWith(path, r)
  {
    if ';' !in path then path
    else
      var s := AfterLast(path, '/');
      if s > 0 then
        var k := IndexOf(path[s..], ';');
        path[..s + k]
      else path[..IndexOf(path, ';')]
  }

  /** The path component of `urlparse(url)`, or None where urllib raises. */
  function UrlPath(url: string): (r: Option<string>)
    ensures r.Some? ==> '?' !in r.value && '#' !in r.value
  {
    var (scheme, rest) := SplitScheme(url);
    var (netloc, tail) := SplitNetloc(rest);
    if BadBrackets(netloc) then None
    else
      var path := BeforeFirst(BeforeFirst(tail, '#'), '?');
      assert '#' !in path by {
        assert StartsWith(BeforeFirst(tail, '#'), path);
      }
      if scheme in UsesParams then Some(SplitParams(path)) else Some(path)
  }

  /** "https:" is split off as the scheme. */
  lemma HttpsScheme(rest: string)
    ensures SplitScheme("https:" + rest) == ("https", rest)
  {
    var url := "https:" + rest;
    assert url[5] == ':';
    assert IndexOf(url, ':') == 5 by {
      assert url[..5] == "https";
    }
    assert url[..5] == "https";
    assert Lower("https") == "https";
    assert url[6..] == rest;
  }

  /** After "//", the host runs up to the first '/', '?' or '#'. */
  lemma HostSplit(host: string, tail: string)
    requires forall c :: c in host ==> !EndsNetloc(c)
    requires tail == [] || EndsNetloc(tail[0])
    ensures SplitNetloc("//" + host + tail) == (host, tail)
  {
    var rest := "//" + host + tail;
    assert rest[2..] == host + tail;
    forall j | 0 <= j < |host|
      ensures !EndsNetloc((host + tail)[j])
    {
      assert (host + tail)[j] == host[j] && host[j] in host;
    }
    if tail != [] {
      assert (host + tail)[|host|] == tail[0];
    }
    var k := FirstWhere(host + tail, EndsNetloc);
    assert k == |host|;
    assert rest[2..2 + k] == host;
    assert rest[2 + k..] == tail;
  }

  /** Query and fragment are cut off a path that holds neither '?' nor '#'. */
  lemma QueryCut(path: string, q: string)
    requires '?' !in path && '#' !in path
    requires q == [] || q[0] == '?' || q[0] == '#'
    ensures BeforeFirst(BeforeFirst(path + q, '#'), '?') == path
  {
    var a := BeforeFirst(path + q, '#');
    assert forall j :: 0 <= j < |path| ==> (path + q)[j] == path[j] && path[j] in path;
    assert StartsWith(a, path);
    assert forall j :: 0 <= j < |path| ==> a[j] == path[j];
    if |a| > |path| {
      assert a[|path|] == q[0] == '?';
    }
  }

  /** The path of "https://<host><path><q>", where the path is empty or
      starts with '/' and `q` is empty or a query or fragment, is `path`. */
  lemma HttpsPath(host: string, path: string, q: string)
    requires forall c :: c in host ==> !EndsNetloc(c) && c != '[' && c != ']'
    requires path == [] || path[0] == '/'
    requires '?' !in path && '#' !in path && ';' !in path
    requires q == [] || q[0] == '?' || q[0] == '#'
    ensures UrlPath("https://" + host + path + q) == Some(path)
  {
    var url := "https://" + host + path + q;
    var rest := "//" + host + (path + q);
    assert url == "https:" + rest;
    HttpsScheme(rest);
    if path != [] {
      assert (path + q)[0] == path[0];
    } else {
      assert path + q == q;
    }
    HostSplit(host, path + q);
    QueryCut(path, q);
    assert "https" in UsesParams;
  }
}
