/** The media classifier: a post's attachment metadata mapped onto a list of
    structured media items by priority-ordered rules (gallery, native video,
    preview image, image link, YouTube embed, external image fallback). An
    exception anywhere in the rules is swallowed and the list built so far is
    returned. */
module MediaInfo {
  import opened Wrappers
  import opened Text

  /** The 's' dictionary of a gallery entry. The other fields are None when
      the key is absent or null; `mp4` tells the two apart: None when the key
      is absent, Some(None) when it is present with a null value. */
  datatype GallerySource = GallerySource(u: Option<string>, x: Option<int>, y: Option<int>,
                                         mp4: Option<Option<string>>, gif: Option<string>)

  /** One value of `media_metadata`: not a dictionary (its `.get` raises), or
      a dictionary with its 'e', 's' and 'm' keys (None when absent or empty). */
  datatype MetadataEntry =
    | NotADict
    | Entry(e: Option<string>, s: Option<GallerySource>, m: Option<string>)

  /** `media['reddit_video']`. */
  datatype RedditVideo = RedditVideo(fallbackUrl: Option<string>, hlsUrl: Option<string>,
                                     dashUrl: Option<string>, duration: Option<int>,
                                     width: Option<int>, height: Option<int>, isGif: Option<bool>,
                                     transcodingStatus: Option<string>)

  /** The 'source' of a preview image. */
  datatype PreviewSource = PreviewSource(url: Option<string>, width: Option<int>, height: Option<int>)

  /** One preview image; `source` is None when the key is missing (indexing it raises). */
  datatype PreviewImage = PreviewImage(source: Option<PreviewSource>)

  datatype OEmbed = OEmbed(kind: Option<string>, providerName: Option<string>, url: Option<string>,
                           html: Option<string>, thumbnailUrl: Option<string>, title: Option<string>,
                           authorName: Option<string>)

  /** `secure_media`: without an 'oembed' key (or empty), with an 'oembed'
      value that is not a dictionary (its `.get` raises), or with one. */
  datatype SecureMedia = NoOEmbed | OEmbedNotDict | HasOEmbed(oembed: OEmbed)

  /** The attributes of a submission that the classifier reads.
      `isGallery` is None when the attribute does not exist; an empty
      `mediaMetadata` or `preview` stands for a missing or empty one;
      `media` is None unless it holds a 'reddit_video' entry. */
  datatype Submission = Submission(
    isGallery: Option<bool>,
    mediaMetadata: seq<(string, MetadataEntry)>,
    isVideo: bool,
    media: Option<RedditVideo>,
    preview: seq<PreviewImage>,
    domain: string,
    url: string,
    isSelf: bool,
    secureMedia: SecureMedia)

  datatype MediaItem =
    | GalleryImage(id: string, url: Option<string>, width: Option<int>, height: Option<int>, mimetype: Option<string>)
    | GalleryAnimated(id: string, url: Option<string>, width: Option<int>, height: Option<int>, mimetype: Option<string>)
    | RedditVideoItem(url: Option<string>, hlsUrl: Option<string>, dashUrl: Option<string>,
                      duration: Option<int>, width: Option<int>, height: Option<int>, isGif: Option<bool>,
                      transcodingStatus: Option<string>)
    | Image(url: Option<string>, width: Option<int>, height: Option<int>)
    | ImageLink(url: Option<string>, width: Option<int>, height: Option<int>, previewUrl: Option<string>)
    | YouTubeEmbed(url: Option<string>, html: Option<string>, thumbnailUrl: Option<string>,
                   title: Option<string>, authorName: Option<string>, providerName: Option<string>)
    | ExternalImageLink(url: Option<string>)

  predicate IsGalleryItem(m: MediaItem) {
    m.GalleryImage? || m.GalleryAnimated?
  }

  const ImageExtensions: seq<string> := [".jpg", ".jpeg", ".png", ".gif"]

  /** The lower-cased URL ends with a known image extension. */
  predicate HasImageExtension(url: string) {
    exists ext :: ext in ImageExtensions && EndsWith(Lower(url), ext)
  }

  /** The gallery item a metadata entry yields, if any: an Image entry with a
      source gives an image item, a Video entry with a source an animated one
      whose URL is the 'mp4' value when that key is present (even when it is
      null) and the 'gif' one otherwise. */
  function GalleryItem(id: string, e: MetadataEntry): (r: Option<MediaItem>)
    requires e.Entry?
    ensures r.Some? <==> e.s.Some? && (e.e == Some("Image") || e.e == Some("Video"))
    ensures r.Some? ==> IsGalleryItem(r.value) && r.value.id == id
    ensures r.Some? ==> (r.value.GalleryImage? <==> e.e == Some("Image"))
    ensures r.Some? ==> r.value.width == e.s.value.x && r.value.height == e.s.value.y && r.value.mimetype == e.m
    ensures r.Some? && r.value.GalleryImage? ==> r.value.url == e.s.value.u
    ensures r.Some? && r.value.GalleryAnimated? ==>
              r.value.url == (if e.s.value.mp4.Some? then e.s.value.mp4.value else e.s.value.gif)
  {
    if e.e == Some("Image") && e.s.Some? then
      Some(GalleryImage(id, e.s.value.u, e.s.value.x, e.s.value.y, e.m))
    else if e.e == Some("Video") && e.s.Some? then
      var url := if e.s.value.mp4.Some? then e.s.value.mp4.value else e.s.value.gif;
      Some(GalleryAnimated(id, url, e.s.value.x, e.s.value.y, e.m))
    else None
  }

  /** The gallery loop over a prefix of the metadata: the items appended, and
      whether an entry that is not a dictionary stopped it. */
  function GalleryScan(md: seq<(string, MetadataEntry)>): (r: (seq<MediaItem>, bool))
    ensures forall m :: m in r.0 ==> IsGalleryItem(m)
    ensures |r.0| <= |md|
  {
    if md == [] then ([], false)
    else
      var prev := GalleryScan(md[..|md| - 1]);
      var (id, e) := md[|md| - 1];
      if prev.1 then prev
      else if e.NotADict? then (prev.0, true)
      else match GalleryItem(id, e)
        case None => prev
        case Some(item) => (prev.0 + [item], false)
  }

  predicate GalleryRule(s: Submission) {
    s.isGallery == Some(true) && |s.mediaMetadata| > 0
  }

  predicate VideoRule(s: Submission) {
    s.isVideo && s.media.Some?
  }

  predicate PreviewRule(s: Submission) {
    |s.preview| > 0
  }

  function VideoItem(v: RedditVideo): MediaItem {
    RedditVideoItem(v.fallbackUrl, v.hlsUrl, v.dashUrl, v.duration, v.width, v.height, v.isGif, v.transcodingStatus)
  }

  function EmbedItem(o: OEmbed): MediaItem {
    YouTubeEmbed(o.url, o.html, o.thumbnailUrl, o.title, o.authorName, o.providerName)
  }

  predicate IsYouTube(o: OEmbed) {
    o.kind == Some("video") && o.providerName == Some("YouTube")
  }

  /** Rule 5 on the list built so far, as written: reading `is_gallery` on a
      post that lacks it raises, which ends classification. */
  function Fallback(s: Submission, acc: seq<MediaItem>): seq<MediaItem> {
    if acc != [] || s.isSelf || s.isVideo then acc
    else if s.isGallery.None? then acc
    else if s.isGallery.value then acc
    else if HasImageExtension(s.url) && s.domain != "i.redd.it" && s.domain != "v.redd.it" then
      [ExternalImageLink(Some(s.url))]
    else acc
  }

  /** Rules 4 and 5 on the list built so far. */
  function EmbedThenFallback(s: Submission, acc: seq<MediaItem>): seq<MediaItem> {
    match s.secureMedia
    case OEmbedNotDict => acc
    case HasOEmbed(o) => if IsYouTube(o) then acc + [EmbedItem(o)] else Fallback(s, acc)
    case NoOEmbed => Fallback(s, acc)
  }

  /** The whole classifier. */
  function Classify(s: Submission): seq<MediaItem> {
    if GalleryRule(s) then
      var (items, raised) := GalleryScan(s.mediaMetadata);
      if raised || items != [] then items else EmbedThenFallback(s, [])
    else if VideoRule(s) then
      [VideoItem(s.media.value)]
    else if PreviewRule(s) then
      var source := s.preview[0].source;
      if s.domain == "i.redd.it" || s.domain == "i.imgur.com" then
        if source.None? then [] else [Image(Some(s.url), source.value.width, source.value.height)]
      else if !s.isSelf && s.url != "" && !s.isVideo && HasImageExtension(s.url) && s.domain != "v.redd.it" then
        if source.None? then []
        else EmbedThenFallback(s, [ImageLink(Some(s.url), source.value.width, source.value.height, source.value.url)])
      else EmbedThenFallback(s, [])
    else EmbedThenFallback(s, [])
  }

  /** `any(lower.endswith(ext) for ext in image_extensions)`. */
  method EndsWithImageExtension(url: string) returns (b: bool)
    ensures b == HasImageExtension(url)
  {
    var lower := Lower(url);
    b := false;
    var k := 0;
    while k < |ImageExtensions| && !b
      invariant 0 <= k <= |ImageExtensions|
      invariant b <==> exists j :: 0 <= j < k && EndsWith(lower, ImageExtensions[j])
    {
      b := EndsWith(lower, ImageExtensions[k]);
      k := k + 1;
    }
    if !b {
      forall ext | ext in ImageExtensions
        ensures !EndsWith(lower, ext)
      {
        var j :| 0 <= j < |ImageExtensions| && ImageExtensions[j] == ext;
      }
    }
  }

  /** The gallery loop of `extract_media_info`: the items of the qualifying
      entries, and whether an entry that is not a dictionary raised. */
  method ScanGallery(md: seq<(string, MetadataEntry)>) returns (items: seq<MediaItem>, raised: bool)
    ensures (items, raised) == GalleryScan(md)
  {
    items := [];
    var i := 0;
    while i < |md|
      invariant 0 <= i <= |md|
      invariant GalleryScan(md[..i]) == (items, false)
    {
      assert md[..i + 1][..i] == md[..i];
      var (id, item) := md[i];
      if item.NotADict? {
        GalleryScanStops(md, i + 1);
        return items, true;
      }
      var g := GalleryItem(id, item);
      if g.Some? {
        items := items + [g.value];
      }
      i := i + 1;
    }
    assert md[..i] == md;
    raised := false;
  }

  /** `extract_media_info`: the rules in order on a growing list. */
  method ExtractMediaInfo(s: Submission) returns (media: seq<MediaItem>)
    ensures media == Classify(s)
  {
    media := [];
    if s.isGallery == Some(true) && |s.mediaMetadata| > 0 {
      var raised;
      media, raised := ScanGallery(s.mediaMetadata);
      if raised || media != [] {
        return;
      }
    } else if s.isVideo && s.media.Some? {
      media := media + [VideoItem(s.media.value)];
      return;
    } else if |s.preview| > 0 {
      if s.domain == "i.redd.it" || s.domain == "i.imgur.com" {
        if s.preview[0].source.None? {
          return;
        }
        var source := s.preview[0].source.value;
        media := media + [Image(Some(s.url), source.width, source.height)];
        return;
      } else if !s.isSelf && s.url != "" && !s.isVideo {
        var isImage := EndsWithImageExtension(s.url);
        if isImage && s.domain != "v.redd.it" {
          if s.preview[0].source.None? {
            return;
          }
          var source := s.preview[0].source.value;
          media := media + [ImageLink(Some(s.url), source.width, source.height, source.url)];
        }
      }
    }
    // rule 4
    if s.secureMedia.OEmbedNotDict? {
      return;
    }
    if s.secureMedia.HasOEmbed? && IsYouTube(s.secureMedia.oembed) {
      media := media + [EmbedItem(s.secureMedia.oembed)];
      return;
    }
    // rule 5
    if media == [] && !s.isSelf && !s.isVideo {
      if s.isGallery.None? {
        return;
      }
      if !s.isGallery.value {
        var isImage := EndsWithImageExtension(s.url);
        if isImage && s.domain != "i.redd.it" && s.domain != "v.redd.it" {
          media := media + [ExternalImageLink(Some(s.url))];
        }
      }
    }
  }

  /** Once the scan has stopped, later entries change nothing. */
  lemma {:induction false} GalleryScanStops(md: seq<(string, MetadataEntry)>, n: nat)
    requires 0 < n <= |md| && md[n - 1].1.NotADict?
    ensures GalleryScan(md).1 && GalleryScan(md).0 == GalleryScan(md[..n - 1]).0
    decreases |md|
  {
    if n < |md| {
      assert md[..|md| - 1][n - 1] == md[n - 1];
      GalleryScanStops(md[..|md| - 1], n);
      assert md[..|md| - 1][..n - 1] == md[..n - 1];
    } else {
      assert md[..|md| - 1] == md[..n - 1];
    }
  }

  // ---------------------------------------------------------------------
  // Properties of the classifier

  /** The ids of the metadata entries that yield a gallery item, in order. */
  function QualifyingIds(md: seq<(string, MetadataEntry)>): seq<string> {
    if md == [] then []
    else
      var (id, e) := md[|md| - 1];
      QualifyingIds(md[..|md| - 1])
        + (if e.Entry? && GalleryItem(id, e).Some? then [id] else [])
  }

  function GalleryIds(items: seq<MediaItem>): (ids: seq<string>)
    requires forall m :: m in items ==> IsGalleryItem(m)
    ensures |ids| == |items|
  {
    if items == [] then []
    else
      var last := items[|items| - 1];
      assert last in items && IsGalleryItem(last);
      GalleryIds(items[..|items| - 1]) + [last.id]
  }

  predicate AllDicts(md: seq<(string, MetadataEntry)>) {
    forall k :: 0 <= k < |md| ==> md[k].1.Entry?
  }

  /** Without malformed entries the gallery loop yields one item per
      qualifying entry, in metadata order. */
  lemma {:induction false} GalleryScanIds(md: seq<(string, MetadataEntry)>)
    requires AllDicts(md)
    ensures !GalleryScan(md).1
    ensures GalleryIds(GalleryScan(md).0) == QualifyingIds(md)
  {
    if md != [] {
      var init := md[..|md| - 1];
      assert AllDicts(init) by {
        forall k | 0 <= k < |init| ensures init[k].1.Entry? {
          assert init[k] == md[k];
        }
      }
      GalleryScanIds(init);
      assert md[|md| - 1].1.Entry?;
    }
  }

  /** A gallery with at least one qualifying entry and no malformed one is
      exclusive: exactly its gallery items come back, in order. */
  lemma GalleryExclusive(s: Submission)
    requires GalleryRule(s) && AllDicts(s.mediaMetadata) && QualifyingIds(s.mediaMetadata) != []
    ensures forall m :: m in Classify(s) ==> IsGalleryItem(m)
    ensures GalleryIds(Classify(s)) == QualifyingIds(s.mediaMetadata)
  {
    GalleryScanIds(s.mediaMetadata);
  }

  /** A malformed metadata entry ends the gallery: the items of the entries
      before it are returned and nothing else is looked at. */
  lemma GalleryStopsAtMalformed(s: Submission, k: nat)
    requires GalleryRule(s) && k < |s.mediaMetadata| && s.mediaMetadata[k].1.NotADict?
    ensures Classify(s) == GalleryScan(s.mediaMetadata[..k]).0
  {
    GalleryScanStops(s.mediaMetadata, k + 1);
  }

  /** A gallery whose entries all fail to qualify falls through to the embed
      and fallback rules, skipping video and preview. */
  lemma EmptyGalleryFallsThrough(s: Submission)
    requires GalleryRule(s) && AllDicts(s.mediaMetadata) && QualifyingIds(s.mediaMetadata) == []
    ensures Classify(s) == EmbedThenFallback(s, [])
  {
    GalleryScanIds(s.mediaMetadata);
  }

  /** Outside a gallery, a native video gives exactly one reddit_video item
      carrying the fallback URL. */
  lemma VideoExclusive(s: Submission)
    requires !GalleryRule(s) && VideoRule(s)
    ensures Classify(s) == [VideoItem(s.media.value)]
    ensures Classify(s)[0].url == s.media.value.fallbackUrl
  {
  }

  /** A first-party image host with a preview gives exactly one image item. */
  lemma FirstPartyImage(s: Submission)
    requires !GalleryRule(s) && !VideoRule(s) && PreviewRule(s)
    requires s.domain in ["i.redd.it", "i.imgur.com"] && s.preview[0].source.Some?
    ensures Classify(s) == [Image(Some(s.url), s.preview[0].source.value.width, s.preview[0].source.value.height)]
  {
  }

  /** An image link with a YouTube embed yields both, the link first: the
      embed is appended, it does not replace the link. */
  lemma ImageLinkThenEmbed(s: Submission)
    requires !GalleryRule(s) && !VideoRule(s) && PreviewRule(s) && s.preview[0].source.Some?
    requires s.domain !in ["i.redd.it", "i.imgur.com", "v.redd.it"]
    requires !s.isSelf && !s.isVideo && HasImageExtension(s.url)
    requires s.secureMedia.HasOEmbed? && IsYouTube(s.secureMedia.oembed)
    ensures |Classify(s)| == 2
    ensures Classify(s)[0].ImageLink? && Classify(s)[0].url == Some(s.url)
    ensures Classify(s)[1] == EmbedItem(s.secureMedia.oembed)
  {
    assert s.url != "";
  }

  /** An external image link is only ever the sole item, and only for a post
      that is not a self post, a video or a gallery, whose URL has an image
      extension and whose host is not first-party. */
  lemma ExternalLinkAlone(s: Submission)
    requires ExternalImageLink(Some(s.url)) in Classify(s)
    ensures Classify(s) == [ExternalImageLink(Some(s.url))]
    ensures !s.isSelf && !s.isVideo && s.isGallery == Some(false)
    ensures HasImageExtension(s.url) && s.domain != "i.redd.it" && s.domain != "v.redd.it"
  {
    assert !IsGalleryItem(ExternalImageLink(Some(s.url)));
  }

  /** The result is empty, all gallery items, a single other item, or an
      image link followed by a YouTube embed. */
  lemma ResultShape(s: Submission)
    ensures var r := Classify(s);
      || r == []
      || (forall m :: m in r ==> IsGalleryItem(m))
      || (|r| == 1 && !IsGalleryItem(r[0]))
      || (|r| == 2 && r[0].ImageLink? && r[1].YouTubeEmbed?)
  {
  }

  /** A self post with no gallery, video, preview or embed has no media. */
  lemma TextPostHasNoMedia(s: Submission)
    requires !GalleryRule(s) && !VideoRule(s) && !PreviewRule(s) && s.secureMedia.NoOEmbed? && s.isSelf
    ensures Classify(s) == []
  {
  }

  // ---------------------------------------------------------------------
  // The fallback rule and posts without an `is_gallery` attribute

  /** A plain external image link whose post has no `is_gallery` attribute:
      the fallback rule raises on reading it and the link is lost. */
  lemma FallbackLostWithoutGalleryAttribute()
    ensures var s := Submission(None, [], false, None, [], "example.com", "https://example.com/cat.jpg",
                                false, NoOEmbed);
      HasImageExtension(s.url) && Classify(s) == []
  {
    var s := Submission(None, [], false, None, [], "example.com", "https://example.com/cat.jpg",
                        false, NoOEmbed);
    assert EndsWith(Lower(s.url), ".jpg");
  }

  /** The classifier with `is_gallery` read as rule 1 reads it: a missing
      attribute counts as false. */
  function ClassifyIntended(s: Submission): seq<MediaItem> {
    Classify(s.(isGallery := Some(s.isGallery == Some(true))))
  }

  /** The intended fallback: when no rule matched, a plain external link with
      an image extension on a host that is not first-party becomes the one
      external_image_link, whether or not the attribute exists. */
  lemma FallbackIntended(s: Submission)
    requires !GalleryRule(s) && !VideoRule(s) && !PreviewRule(s) && s.secureMedia.NoOEmbed?
    requires !s.isSelf && !s.isVideo && s.isGallery != Some(true)
    requires HasImageExtension(s.url) && s.domain != "i.redd.it" && s.domain != "v.redd.it"
    ensures ClassifyIntended(s) == [ExternalImageLink(Some(s.url))]
  {
  }

  /** Where the attribute exists the intended classifier is the written one. */
  lemma IntendedAgreesWhenPresent(s: Submission)
    requires s.isGallery.Some?
    ensures ClassifyIntended(s) == Classify(s)
  {
    assert (s.isGallery == Some(true)) == s.isGallery.value;
  }
}
