/** How the media downloader names the file it saves: the last component of
    the URL's path, made unique by the item's index, with unsafe characters
    replaced; a generated name when the URL has no last component. The
    request, the folder check and the file write are not part of this module:
    the response's content type is a parameter. */
module MediaDownloader {
  import opened Wrappers
  import opened Text
  import opened UrlParse

  /** `os.path.basename` of a POSIX path: what follows the last '/'. */
  function Basename(path: string): (r: string)
    ensures EndsWith(path, r) && '/' !in r
    ensures |r| < |path| ==> path[|path| - |r| - 1] == '/'
  {
    path[AfterLast(path, '/')..]
  }

  /** The file name a URL path gives: its last component, cut at the first
      '?'; none when that component is empty. */
  function PathFilename(path: string): (r: Option<string>)
    ensures r.Some? ==> '?' !in r.value && '/' !in r.value
    ensures r.Some? && '?' !in path ==> r.value != []
  {
    var name := Basename(path);
    if name == [] then None
    else
      assert '?' !in path ==> BeforeFirst(name, '?') != [] by {
        if '?' !in path {
          assert name[0] in path;
          assert BeforeFirst(name, '?')[0] == name[0];
        }
      }
      Some(BeforeFirst(name, '?'))
  }

  /** `get_filename_from_url`. */
  function GetFilenameFromUrl(url: string): (r: Option<string>)
    ensures r.Some? ==> r.value != [] && '?' !in r.value && '/' !in r.value
  {
    match UrlPath(url)
    case None => None
    case Some(path) => PathFilename(path)
  }

  /** The file name is the path's last component; there is none exactly
      when the path is empty or ends with '/'. A path that `urlparse` yields
      holds no '?'. */
  lemma FilenameIsLastComponent(path: string)
    requires '?' !in path
    ensures PathFilename(path).None? <==> path == [] || path[|path| - 1] == '/'
    ensures PathFilename(path).Some? ==>
      var f := PathFilename(path).value;
      EndsWith(path, f) && (|f| == |path| || path[|path| - |f| - 1] == '/')
  {
    var name := Basename(path);
    assert forall c :: c in name ==> c in path;
    if name != [] {
      assert BeforeFirst(name, '?') == name;
    }
  }

  /** A URL urllib refuses gives no file name. */
  lemma BadNetlocNoFilename(url: string)
    requires UrlPath(url).None?
    ensures GetFilenameFromUrl(url).None?
  {
  }

  // ---------------------------------------------------------------------
  // Base and extension

  /** Whether `name[from..to]` holds a character other than '.'. */
  predicate HasNonDot(name: string, from: nat, to: nat)
    requires from <= to <= |name|
  {
    exists j :: from <= j < to && name[j] != '.'
  }

  /** `os.path.splitext` on a POSIX path: the extension runs from the last
      '.' of the last component, provided a character other than '.' stands
      before it in that component; otherwise it is empty. */
  function SplitExt(name: string): (r: (string, string))
    ensures r.0 + r.1 == name
    ensures r.1 != [] ==> r.1[0] == '.' && '.' !in r.1[1..] && '/' !in r.1
    ensures r.1 != [] ==> r.0 != []
  {
    var s := AfterLast(name, '/');
    var d := AfterLast(name, '.');
    if d > s && HasNonDot(name, s, d - 1) then
      assert name[..d - 1] + name[d - 1..] == name;
      assert forall j :: d - 1 < j < |name| ==> name[j] != '.' && name[j] != '/';
      (name[..d - 1], name[d - 1..])
    else (name, [])
  }

  /** A name without a '.' (past its first character) has no extension. */
  lemma NoDotNoExtension(name: string)
    requires name != [] && '.' !in name[1..]
    ensures SplitExt(name) == (name, [])
  {
    forall j | 1 <= j < |name|
      ensures name[j] != '.'
    {
      assert name[j] == name[1..][j - 1];
    }
  }

  /** A name "<stem>.<ext>" with a stem of word characters splits at that dot. */
  lemma StemAndExtension(stem: string, ext: string)
    requires stem != [] && forall c :: c in stem ==> IsWordChar(c)
    requires '.' !in ext && '/' !in ext
    ensures SplitExt(stem + "." + ext) == (stem, "." + ext)
  {
    var name := stem + "." + ext;
    forall j | 0 <= j < |name|
      ensures name[j] != '/'
      ensures |stem| < j ==> name[j] != '.'
    {
      if j < |stem| {
        assert name[j] == stem[j] && stem[j] in stem;
      } else if |stem| < j {
        assert name[j] == ext[j - |stem| - 1];
      }
    }
    assert name[|stem|] == '.';
    var d := AfterLast(name, '.');
    assert d == |stem| + 1;
    assert name[0] == stem[0] && stem[0] in stem;
    assert HasNonDot(name, 0, d - 1);
    assert name[..d - 1] == stem;
    assert name[d - 1..] == "." + ext;
  }

  // ---------------------------------------------------------------------
  // Sanitising

  /** The characters a saved name may hold: ASCII letters and digits,
      underscore, hyphen, dot, parentheses and space. */
  predicate IsSafe(c: char) {
    IsAsciiLetter(c) || IsDigit(c) || c == '_' || c == '-' || c == '.' || c == '(' || c == ')' || c == ' '
  }

  predicate AllSafe(s: string) {
    forall i :: 0 <= i < |s| ==> IsSafe(s[i])
  }

  /** The space is the only whitespace character that is safe. */
  lemma SafeSpace(c: char)
    requires IsSafe(c) && IsSpace(c)
    ensures c == ' '
  {
  }

  lemma SafeMember(s: string, c: char)
    requires AllSafe(s) && c in s
    ensures IsSafe(c)
  {
    var i :| 0 <= i < |s| && s[i] == c;
  }

  /** Every unsafe character replaced by '_'. */
  function ReplaceUnsafe(name: string): (r: string)
    ensures |r| == |name| && AllSafe(r)
    ensures forall i :: 0 <= i < |name| && IsSafe(name[i]) ==> r[i] == name[i]
    ensures forall i :: 0 <= i < |name| && !IsSafe(name[i]) ==> r[i] == '_'
  {
    seq(|name|, i requires 0 <= i < |name| => if IsSafe(name[i]) then name[i] else '_')
  }

  /** The sanitised name: unsafe characters replaced, then stripped. */
  function SanitiseName(name: string): (r: string)
    ensures AllSafe(r)
    ensures r != [] ==> r[0] != ' ' && r[|r| - 1] != ' '
    ensures |r| <= |name|
  {
    var m := ReplaceUnsafe(name);
    var r := Strip(m);
    forall i | 0 <= i < |r|
      ensures IsSafe(r[i])
    {
      assert r[i] in r;
      SafeMember(m, r[i]);
    }
    r
  }

  /** Sanitising removes spaces at the two ends of the replaced name and
      nothing else. */
  lemma SanitiseOnlyOuter(name: string) returns (u1: string, u2: string)
    ensures ReplaceUnsafe(name) == u1 + SanitiseName(name) + u2
    ensures forall i :: 0 <= i < |u1| ==> u1[i] == ' '
    ensures forall i :: 0 <= i < |u2| ==> u2[i] == ' '
  {
    var m := ReplaceUnsafe(name);
    u1, u2 := StripSplit(m);
    forall i | 0 <= i < |u1|
      ensures u1[i] == ' '
    {
      assert u1[i] == m[i];
      SafeSpace(u1[i]);
    }
    forall i | 0 <= i < |u2|
      ensures u2[i] == ' '
    {
      assert u2[i] == m[|m| - |u2| + i];
      SafeSpace(u2[i]);
    }
  }

  /** A name that is safe and has no space at either end is left as it is. */
  lemma SafeNameKept(name: string)
    requires AllSafe(name)
    requires name == [] || (name[0] != ' ' && name[|name| - 1] != ' ')
    ensures SanitiseName(name) == name
  {
    assert ReplaceUnsafe(name) == name;
    if name != [] {
      if IsSpace(name[0]) { SafeSpace(name[0]); }
      if IsSpace(name[|name| - 1]) { SafeSpace(name[|name| - 1]); }
    }
    StripUnchanged(name);
  }

  /** Sanitising twice is sanitising once. */
  lemma SanitiseIdempotent(name: string)
    ensures SanitiseName(SanitiseName(name)) == SanitiseName(name)
  {
    SafeNameKept(SanitiseName(name));
  }

  // ---------------------------------------------------------------------
  // The name of the saved file

  /** The extension guessed from the response's content type: the first of
      JPEG, PNG, GIF and MP4 it mentions, else ".dat". */
  function ContentExtension(contentType: Option<string>): (ext: string)
    ensures ext in [".jpg", ".png", ".gif", ".mp4", ".dat"]
    ensures ext == ".dat" <==>
      (|| contentType.None?
       || (&& !Contains(contentType.value, "image/jpeg")
           && !Contains(contentType.value, "image/png")
           && !Contains(contentType.value, "image/gif")
           && !Contains(contentType.value, "video/mp4")))
    ensures ext == ".jpg" <==> contentType.Some? && Contains(contentType.value, "image/jpeg")
    ensures ext == ".png" <==>
      contentType.Some? && !Contains(contentType.value, "image/jpeg") && Contains(contentType.value, "image/png")
    ensures ext == ".gif" <==>
      (&& contentType.Some? && !Contains(contentType.value, "image/jpeg")
       && !Contains(contentType.value, "image/png") && Contains(contentType.value, "image/gif"))
    ensures ext == ".mp4" <==>
      (&& contentType.Some? && !Contains(contentType.value, "image/jpeg") && !Contains(contentType.value, "image/png")
       && !Contains(contentType.value, "image/gif") && Contains(contentType.value, "video/mp4"))
  {
    match contentType
    case None => ".dat"
    case Some(ct) =>
      if Contains(ct, "image/jpeg") then ".jpg"
      else if Contains(ct, "image/png") then ".png"
      else if Contains(ct, "image/gif") then ".gif"
      else if Contains(ct, "video/mp4") then ".mp4"
      else ".dat"
  }

  /** An empty content type is no hint. */
  lemma EmptyContentType(contentType: Option<string>)
    requires contentType.None? || contentType.value == []
    ensures ContentExtension(contentType) == ".dat"
  {
    if contentType.Some? {
      assert !StartsWith(contentType.value, "image/jpeg");
      assert !StartsWith(contentType.value, "image/png");
      assert !StartsWith(contentType.value, "image/gif");
      assert !StartsWith(contentType.value, "video/mp4");
    }
  }

  /** The name given when the URL has no file name. */
  function GeneratedName(index: int, ext: string): string {
    "media_item_" + IntToString(index) + ext
  }

  /** The name given when sanitising leaves nothing. */
  function DefaultName(index: int): string {
    "downloaded_media_" + IntToString(index) + ".dat"
  }

  /** The URL's file name with "_<index>" put before its extension. */
  function IndexedName(filename: string, index: int): (r: string)
    ensures var (base, ext) := SplitExt(filename);
      r == base + "_" + IntToString(index) + ext
  {
    var (base, ext) := SplitExt(filename);
    base + "_" + IntToString(index) + ext
  }

  /** The index is spliced into the file name itself: the name is cut at
      `k`, and what follows the cut is empty, or a '.' after a non-empty
      stem with no further '.' and no '/'. */
  lemma IndexedNameSplice(filename: string, index: int) returns (k: nat)
    ensures k <= |filename|
    ensures IndexedName(filename, index) == filename[..k] + "_" + IntToString(index) + filename[k..]
    ensures filename[k..] == [] || (0 < k && filename[k] == '.' && '.' !in filename[k + 1..] && '/' !in filename[k..])
  {
    var (base, ext) := SplitExt(filename);
    k := |base|;
    assert filename[..k] == base && filename[k..] == ext;
  }

  /** The characters of a decimal integer are safe. */
  lemma IntSafe(i: int)
    ensures AllSafe(IntToString(i))
  {
    var s := IntToString(i);
    forall k | 0 <= k < |s|
      ensures IsSafe(s[k])
    {
      assert s[k] in s;
    }
  }

  /** Safe texts joined stay safe. */
  lemma JoinSafe(a: string, b: string)
    requires AllSafe(a) && AllSafe(b)
    ensures AllSafe(a + b)
  {
    forall k | 0 <= k < |a + b|
      ensures IsSafe((a + b)[k])
    {
      if k >= |a| { assert (a + b)[k] == b[k - |a|]; }
    }
  }

  /** The sanitised name, or the default name when sanitising leaves
      nothing: never empty, safe, without a space at either end. */
  function SavedName(filename: string, index: int): (r: string)
    ensures r != [] && AllSafe(r)
    ensures r[0] != ' ' && r[|r| - 1] != ' '
    ensures SanitiseName(filename) != [] ==> r == SanitiseName(filename)
    ensures SanitiseName(filename) == [] ==> r == DefaultName(index)
  {
    var name := SanitiseName(filename);
    if name == [] then
      DefaultSafe(index);
      DefaultName(index)
    else name
  }

  /** The naming steps of `download_media_item` once the URL's file name is
      known (`found`, None when the URL has none): a generated name from the
      content type, or the file name with the index put before its
      extension; then unsafe characters replaced, and the default name when
      nothing is left. */
  method NameFile(found: Option<string>, contentType: Option<string>, index: int)
    returns (name: string)
    ensures name != [] && AllSafe(name)
    ensures name[0] != ' ' && name[|name| - 1] != ' '
    ensures found.None? ==> name == GeneratedName(index, ContentExtension(contentType))
    ensures found.Some? ==>
      var s := SanitiseName(if index > 0 then IndexedName(found.value, index) else found.value);
      name == if s == [] then DefaultName(index) else s
  {
    var filename: string;
    if found.None? {
      var extension := ".dat";
      if contentType.Some? && contentType.value != [] {
        extension := ContentExtension(contentType);
      } else {
        EmptyContentType(contentType);
      }
      assert extension == ContentExtension(contentType);
      filename := GeneratedName(index, extension);
      GeneratedSafe(index, extension);
    } else {
      filename := found.value;
      var (base, ext) := SplitExt(filename);
      if index > 0 {
        filename := base + "_" + IntToString(index) + ext;
      }
      assert filename == if index > 0 then IndexedName(found.value, index) else found.value;
    }
    name := SavedName(filename, index);
  }

  /** The name of the file a media item is saved under, as
      `download_media_item` derives it: None when the URL is missing or empty
      (the call returns False before any request). A missing URL stands for
      any value that is not a string. */
  method DownloadName(mediaUrl: Option<string>, contentType: Option<string>, index: int)
    returns (name: Option<string>)
    ensures name.None? <==> mediaUrl.None? || mediaUrl.value == []
    ensures name.Some? ==> name.value != [] && AllSafe(name.value)
    ensures name.Some? ==> name.value[0] != ' ' && name.value[|name.value| - 1] != ' '
    ensures name.Some? && GetFilenameFromUrl(mediaUrl.value).None? ==>
      name.value == GeneratedName(index, ContentExtension(contentType))
    ensures name.Some? && GetFilenameFromUrl(mediaUrl.value).Some? ==>
      var f := GetFilenameFromUrl(mediaUrl.value).value;
      var s := SanitiseName(if index > 0 then IndexedName(f, index) else f);
      name.value == if s == [] then DefaultName(index) else s
  {
    if mediaUrl.None? || mediaUrl.value == [] {
      return None;
    }
    var found := GetFilenameFromUrl(mediaUrl.value);
    var filename := NameFile(found, contentType, index);
    name := Some(filename);
  }

  /** A generated name is already safe, so sanitising keeps it. */
  lemma GeneratedSafe(index: int, ext: string)
    requires ext in [".jpg", ".png", ".gif", ".mp4", ".dat"]
    ensures SanitiseName(GeneratedName(index, ext)) == GeneratedName(index, ext)
  {
    assert AllSafe("media_item_");
    assert AllSafe(ext);
    IntSafe(index);
    JoinSafe("media_item_", IntToString(index));
    JoinSafe("media_item_" + IntToString(index), ext);
    SafeNameKept("media_item_" + IntToString(index) + ext);
  }

  /** The default name is safe and has no outer space. */
  lemma DefaultSafe(index: int)
    ensures AllSafe(DefaultName(index))
    ensures DefaultName(index)[0] != ' ' && DefaultName(index)[|DefaultName(index)| - 1] != ' '
  {
    assert AllSafe("downloaded_media_") && AllSafe(".dat");
    IntSafe(index);
    JoinSafe("downloaded_media_", IntToString(index));
    JoinSafe("downloaded_media_" + IntToString(index), ".dat");
  }

  // ---------------------------------------------------------------------
  // What the naming promises

  /** With index 0 (or below), a URL file name that is already safe is
      kept as it is. */
  lemma UnindexedNameKept(filename: string)
    requires filename != [] && AllSafe(filename)
    requires filename[0] != ' ' && filename[|filename| - 1] != ' '
    ensures SanitiseName(filename) == filename
  {
    SafeNameKept(filename);
  }

  /** With a positive index, a safe URL file name "<base><ext>" becomes
      "<base>_<index><ext>" and keeps both parts. */
  lemma IndexedNameKept(filename: string, index: int)
    requires index > 0
    requires filename != [] && AllSafe(filename)
    requires filename[0] != ' ' && filename[|filename| - 1] != ' '
    ensures var (base, ext) := SplitExt(filename);
      && base + ext == filename
      && SanitiseName(IndexedName(filename, index)) == base + "_" + IntToString(index) + ext
  {
    var (base, ext) := SplitExt(filename);
    var n := IndexedName(filename, index);
    assert AllSafe(base) && AllSafe(ext) by {
      assert forall k :: 0 <= k < |base| ==> base[k] == filename[k];
      assert forall k :: 0 <= k < |ext| ==> ext[k] == filename[|base| + k];
    }
    IntSafe(index);
    assert AllSafe("_");
    JoinSafe(base, "_");
    JoinSafe(base + "_", IntToString(index));
    JoinSafe(base + "_" + IntToString(index), ext);
    assert n[0] == filename[0] by {
      assert base != [] && base[0] == filename[0];
    }
    var digits := IntToString(index);
    assert digits[|digits| - 1] in digits;
    assert n[|n| - 1] != ' ' by {
      if ext != [] {
        assert n[|n| - 1] == ext[|ext| - 1] == filename[|filename| - 1];
      } else {
        assert n[|n| - 1] == digits[|digits| - 1];
      }
    }
    SafeNameKept(n);
  }

  /** The last component of "<dir>/<name>" is `name` when it holds no '/'. */
  lemma BasenameUnder(dir: string, name: string)
    requires '/' !in name
    ensures Basename(dir + "/" + name) == name
  {
    var p := dir + "/" + name;
    forall j | |dir| + 1 <= j < |p|
      ensures p[j] != '/'
    {
      assert p[j] == name[j - |dir| - 1] && name[j - |dir| - 1] in name;
    }
    assert p[|dir|] == '/';
    assert AfterLast(p, '/') == |dir| + 1;
    assert p[|dir| + 1..] == name;
  }

  /** "https://<host><dir>/<name><q>" is saved under `name`, whatever
      directories `dir` come before it and whatever query or fragment `q`
      follows. */
  lemma HttpsFilename(host: string, dir: string, name: string, q: string)
    requires forall c :: c in host ==> !EndsNetloc(c) && c != '[' && c != ']'
    requires dir == [] || dir[0] == '/'
    requires '?' !in dir && '#' !in dir && ';' !in dir
    requires name != [] && '/' !in name && '?' !in name && '#' !in name && ';' !in name
    requires q == [] || q[0] == '?' || q[0] == '#'
    ensures GetFilenameFromUrl("https://" + host + dir + "/" + name + q) == Some(name)
  {
    var p := dir + "/" + name;
    assert '?' !in p && '#' !in p && ';' !in p;
    assert p[0] == '/' by {
      if dir != [] { assert p[0] == dir[0]; }
    }
    assert "https://" + host + dir + "/" + name + q == "https://" + host + p + q;
    HttpsPath(host, p, q);
    BasenameUnder(dir, name);
    BeforeFirstAbsent(name, '?');
  }

  /** The sample host and image name hold no character that ends a host or a path. */
  lemma SampleParts()
    ensures forall c :: c in "i.redd.it" ==> !EndsNetloc(c) && c != '[' && c != ']'
    ensures '/' !in "someimage.jpg" && '?' !in "someimage.jpg" && '#' !in "someimage.jpg" && ';' !in "someimage.jpg"
  {
  }

  lemma SampleImageUrl()
    ensures "https://i.redd.it/someimage.jpg" == "https://" + "i.redd.it" + "" + "/" + "someimage.jpg" + ""
  {
  }

  /** "https://i.redd.it/someimage.jpg" is saved as "someimage.jpg" for
      index 0. */
  lemma SampleImageName()
    ensures GetFilenameFromUrl("https://i.redd.it/someimage.jpg") == Some("someimage.jpg")
  {
    SampleImageUrl();
    SampleParts();
    HttpsFilename("i.redd.it", "", "someimage.jpg", "");
  }

  /** For index 2 the same image is saved as "someimage_2.jpg". */
  lemma SampleIndexedName()
    ensures IndexedName("someimage.jpg", 2) == "someimage_2.jpg"
  {
    assert "someimage.jpg" == "someimage" + "." + "jpg";
    StemAndExtension("someimage", "jpg");
  }

  lemma QueryUrlParts()
    ensures forall c :: c in "example.com" ==> !EndsNetloc(c) && c != '[' && c != ']'
    ensures "/media" == [] || "/media"[0] == '/'
    ensures '?' !in "/media" && '#' !in "/media" && ';' !in "/media"
    ensures '/' !in "download" && '?' !in "download" && '#' !in "download" && ';' !in "download"
  {
  }

  lemma QueryUrl()
    ensures "https://example.com/media/download?id=123&type=image"
      == "https://" + "example.com" + "/media" + "/" + "download" + "?id=123&type=image"
  {
    assert "https://" + "example.com" == "https://example.com";
    assert "https://example.com" + "/media" == "https://example.com/media";
    assert "https://example.com/media" + "/" + "download" == "https://example.com/media/download";
  }

  /** "https://example.com/media/download?id=123&type=image" does have a file
      name, "download", so no name is generated from the content type. */
  lemma QueryUrlName()
    ensures GetFilenameFromUrl("https://example.com/media/download?id=123&type=image") == Some("download")
  {
    QueryUrl();
    QueryUrlParts();
    HttpsFilename("example.com", "/media", "download", "?id=123&type=image");
  }

  /** Without an extension, index 2 gives "download_2". */
  lemma QueryUrlIndexedName()
    ensures IndexedName("download", 2) == "download_2"
  {
    NoDotNoExtension("download");
  }
}
