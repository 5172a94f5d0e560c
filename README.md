# Reddit post extractor: a verified model of its core

Reddit_Getter is a command-line tool. It takes the URL of a Reddit post and fetches the post and its comment tree through the Reddit API client library (PRAW). It classifies the post's media and writes everything to a JSON file. Optionally, it downloads the media found in the post and in its comments.

This project models the tool's decision logic in Dafny and proves what that logic guarantees. There is one module per source file:

- `errors.dfy` (module `ErrorHandler`) models `error_handler.py`:
  - the exception hierarchy, reduced to the `isinstance` facts the code tests;
  - the transient-error classifier `is_retryable_error`;
  - the user-facing `format_user_error_message`.
- `retry.dfy` (module `Retry`) models the `retry_with_backoff` decorator of `data_retriever.py`.
  - `RetryWithBackoff` is a method whose loop is proved equal to the specification function `RunAll`.
  - The wrapped call is a function from attempt number to outcome.
  - The jitter is an oracle returning a value in [0, 1].
  - The sleeps are returned as a trace.
- `comment_tree.dfy` (module `CommentTree`) models `_process_comment` and `fetch_comments_data`.
  - Both are methods proved against the functions `Process` and `FetchComments`.
  - The comment listing is a function of the sort order and the fetch limit.
  - A reply iterator that fails part way is a comment whose `failAt` names the failing position.
- `media_info.dfy` (module `MediaInfo`) models `extract_media_info` as a method proved against the rule chain `Classify`.
- `url_processor.dfy` (module `UrlProcessor`) models `validate_reddit_url` and `extract_post_id`. Each regular expression is a hand-written recogniser.
- `output_formatter.dfy` (module `OutputFormatter`) models `generate_filename`.
- `url_parse.dfy` (module `UrlParse`) models the part of Python's `urllib.parse.urlparse` that the tool reads: the path.
- `media_downloader.dfy` (module `MediaDownloader`) models two things:
  - `get_filename_from_url`;
  - how `download_media_item` names the file it saves.
- `reddit_extractor.dfy` (module `RedditExtractor`) models the media-URL collection of `reddit_extractor.py`:
  - `_get_post_media_urls`;
  - `_get_comment_media_urls`, with a `UrlCollector` class whose set field the recursive scan updates;
  - the merge by download scope.
- `text.dfy` (module `Text`) and `wrappers.dfy` (module `Wrappers`) hold shared string helpers and `Option`/`Result`.

Python's `\w`, `\s` and `str.lower()` are modelled on ASCII. Python's `$` also matches before a final newline, and the URL recognisers model that.

## Model

| member | source | states |
|---|---|---|
| ErrorHandler.IsRetryable | error_handler.py:33-80 | a 429 or 500/502/503/504 response on an API or HTTP-layer error is retryable; otherwise an error is retryable exactly when one of the listed phrases occurs in its lower-cased text |
| ErrorHandler.AnyPhraseIff | error_handler.py:80 | the `any(...)` scan holds exactly when some listed phrase occurs in the text |
| ErrorHandler.CaseInsensitive | error_handler.py:69 | two messages that differ only in letter case are classified alike |
| ErrorHandler.ServerCodeInMessage | error_handler.py:75 | a 500/502/503/504 code anywhere in the text makes any error retryable |
| ErrorHandler.UnlistedStatusNotRetryable | error_handler.py:58-80 | a status other than 429 or 5xx, with no listed phrase in the text, is not retryable |
| ErrorHandler.FormatUserErrorMessage | error_handler.py:83-127 | the message is the class's prefix, then the error's own text unchanged, then the class's hint suffix |
| ErrorHandler.UnexpectedErrorMessage | error_handler.py:121-127 | an error that is neither the extractor's own nor a PRAW exception reads "An unexpected error occurred: " followed by its text |
| ErrorHandler.RecoverMessage | error_handler.py:83-127 | stripping a class's prefix and suffix gives a text that rebuilds the formatted message |
| ErrorHandler.FormatRoundTrip | error_handler.py:83-127 | the class and the formatted message give back the error's text: formatting loses nothing |
| Retry.FinalError | data_retriever.py:39-50 | a PRAW exception whose text names 401/403 becomes an authentication error; otherwise it becomes a post- or comment-retrieval error according to the operation; anything else is re-raised unchanged; a translated error keeps its cause and quotes its text |
| Retry.RetryWithBackoff | data_retriever.py:29-63 | the loop returns exactly the outcome, attempt count and sleep trace of the retry specification `RunAll` |
| Retry.RetryStep | data_retriever.py:52-61 | one retried failure adds one sleep and doubles the delay, capped at the maximum |
| Retry.RunStops | data_retriever.py:36-50 | a success returns at once; a failure the loop may not retry ends the run with the translated error |
| Retry.RunShape | data_retriever.py:33-61 | every attempt before the last failed retryably; there is one sleep per retry; at most `max_retries` retries; a failure is the last attempt's translated error, after the retries ran out or on a non-retryable error |
| Retry.AlwaysRetryableFailure | data_retriever.py:39 | a call that always fails retryably is tried `max_retries + 1` times, with `max_retries` sleeps |
| Retry.FirstSuccess | data_retriever.py:37 | a call that succeeds at once is tried once, with no sleep |
| Retry.NonRetryableFailsAtOnce | data_retriever.py:39-50 | a non-retryable first failure is raised after one attempt, with no sleep |
| Retry.FailOnceThenSucceed | data_retriever.py:52-61 | one retryable failure, then a success: two attempts, one sleep computed from the base delay |
| Retry.SleepTraceFrom | data_retriever.py:52-61 | the i-th sleep of a run is the jittered, capped delay after i doublings |
| Retry.DelayAfterShift | data_retriever.py:61 | doubling the delay then taking n steps equals taking n + 1 steps |
| Retry.SleepTrace | data_retriever.py:52-61 | the i-th sleep of the whole run uses the i-th delay and the i-th jitter draw |
| Retry.DelayClosedForm | data_retriever.py:61 | the delay before retry n > 0 is min(base * 2^n, max); before the first retry it is the base delay |
| Retry.SleepBounds | data_retriever.py:52-53 | no sleep exceeds the maximum delay, and none is shorter than the capped current delay |
| Retry.SleepForBounds | data_retriever.py:52-53 | one jittered sleep lies between the capped delay and the maximum |
| Retry.DelayNonNegative | data_retriever.py:61 | delays never become negative |
| CommentTree.Handled | data_retriever.py:190-199 | an expansion that raises after p of the replies, p below their count, handles exactly p of them; one that does not raise before the end handles every reply |
| CommentTree.Record | data_retriever.py:168-180 | a processed comment keeps its id and depth, prefixes the permalink with the site address and starts with no replies |
| CommentTree.Process | data_retriever.py:145-201 | a comment is dropped exactly when it is a "load more" stub, has no body or has no author; otherwise it keeps its id and depth and has no replies once the depth limit is reached |
| CommentTree.ProcessComment | data_retriever.py:145-201 | the recursive method computes exactly `Process` |
| CommentTree.RepliesInOrder | data_retriever.py:193-196 | the processed replies are the kept replies, in their original order |
| CommentTree.KeptReplies | data_retriever.py:184-199 | at the depth limit the replies are empty; below it they are the kept replies handled before any failure |
| CommentTree.FailureKeepsPrefix | data_retriever.py:197-199 | a failure part way through the replies keeps exactly what was processed before it |
| CommentTree.SamePrefixSameReplies | data_retriever.py:193-196 | processing the first n replies depends on nothing after them |
| CommentTree.ProcessShape | data_retriever.py:178-196 | every reply sits one level below its parent, and no comment at the depth limit has replies |
| CommentTree.RepliesShape | data_retriever.py:194 | each processed reply has the next depth and the same tree shape |
| CommentTree.ShapeBoundsDepth | data_retriever.py:184-186 | a well-shaped tree that starts within the limit never goes deeper than the limit |
| CommentTree.DepthLimitRespected | data_retriever.py:184-186 | with depth limit m, no processed comment lies deeper than m |
| CommentTree.PrawSort | data_retriever.py:227-234 | the sort is always one of the library's sorts: "score" maps to "top", a known sort is kept lower-cased, anything else becomes "best" |
| CommentTree.SlicePrefix | data_retriever.py:282 | Python's `list[:n]`, including a negative n |
| CommentTree.Take | data_retriever.py:247-261 | keeping at most n items keeps a prefix of exactly min(n, length) items, and none for n <= 0 |
| CommentTree.MaterialiseAppend | data_retriever.py:247-261 | processing a listing in two parts equals processing it whole |
| CommentTree.ListingError | data_retriever.py:288-297 | a listing failure becomes an authentication error exactly when it is a PRAW exception whose text names 401/403; otherwise it becomes a comment-retrieval error; the cause is kept |
| CommentTree.FetchCommentsData | data_retriever.py:204-297 | the loop computes exactly `FetchComments` |
| CommentTree.LoopStopsAtNum | data_retriever.py:247-261 | once the loop stops, the collected comments are the first `num` kept comments, and the final slice changes nothing |
| CommentTree.FetchedComments | data_retriever.py:243-286 | the result holds min(num, kept) top-level comments, which are the first kept ones in listing order; each sits at depth 0 and respects the depth limit |
| CommentTree.MaterialisedIds | data_retriever.py:251-261 | the ids collected are those of the kept comments, in order |
| CommentTree.MaterialisedShape | data_retriever.py:254-258 | every collected comment is a depth-0, well-shaped tree |
| CommentTree.DepthZeroHasNoReplies | data_retriever.py:184-186 | with depth limit 0, no fetched comment has replies |
| CommentTree.AttemptErrors | data_retriever.py:288-297 | every error raised by one fetch is an authentication or comment-retrieval error |
| CommentTree.RetriedFetchErrors | data_retriever.py:203-297 | under the default retry policy the decorated fetch fails only with an authentication or comment-retrieval error |
| MediaInfo.GalleryItem | data_retriever.py:320-337 | a metadata entry yields an item exactly when it has a source and its kind is Image or Video; the item is an image item exactly for an Image entry and carries the entry's id, the source's width and height and the entry's mimetype; an image item's URL is the source's 'u'; an animated item's URL is the 'mp4' value whenever that key is present, even when null, and the 'gif' value otherwise |
| MediaInfo.GalleryScan | data_retriever.py:319-337 | the gallery scan yields only gallery items, at most one per entry |
| MediaInfo.EndsWithImageExtension | data_retriever.py:407-408 | the loop decides exactly whether the lower-cased URL ends with .jpg, .jpeg, .png or .gif |
| MediaInfo.ScanGallery | data_retriever.py:317-337 | the loop over the metadata entries returns exactly the gallery scan: the qualifying entries' items in order, and whether an entry that is not a dictionary stopped it |
| MediaInfo.ExtractMediaInfo | data_retriever.py:300-425 | the method returns exactly the rule chain `Classify` |
| MediaInfo.GalleryScanStops | data_retriever.py:319-320 | a metadata entry that is not a dictionary ends the scan, keeping what was collected before it |
| MediaInfo.GalleryScanIds | data_retriever.py:319-337 | over well-formed metadata, the gallery items are the qualifying entries in order |
| MediaInfo.GalleryExclusive | data_retriever.py:317-340 | a gallery with a qualifying entry yields only gallery items: those entries, in order |
| MediaInfo.GalleryStopsAtMalformed | data_retriever.py:319-320 | a malformed entry ends extraction with the items before it |
| MediaInfo.EmptyGalleryFallsThrough | data_retriever.py:338-416 | a gallery with no qualifying entry falls through to the embed and link rules |
| MediaInfo.VideoExclusive | data_retriever.py:343-358 | a hosted video yields exactly one item, whose URL is the fallback URL |
| MediaInfo.FirstPartyImage | data_retriever.py:363-372 | a previewed image on i.redd.it or i.imgur.com yields exactly one image with the preview's size |
| MediaInfo.ImageLinkThenEmbed | data_retriever.py:373-402 | an external image link with a YouTube embed yields the image link, then the embed |
| MediaInfo.ExternalLinkAlone | data_retriever.py:406-414 | an external image link is reported only alone, and only for a non-text, non-video, non-gallery post whose URL ends in an image extension off i.redd.it and v.redd.it |
| MediaInfo.ResultShape | data_retriever.py:300-425 | the result is empty, all gallery items, one non-gallery item, or an image link followed by a YouTube embed |
| MediaInfo.TextPostHasNoMedia | data_retriever.py:406-418 | a text post with no gallery, video, preview or embed has no media |
| MediaInfo.FallbackLostWithoutGalleryAttribute | data_retriever.py:406 | as written: a link post without the gallery attribute loses its external image link |
| MediaInfo.FallbackIntended | data_retriever.py:406-414 | with the attribute test the external image link is reported |
| MediaInfo.IntendedAgreesWhenPresent | data_retriever.py:406 | the corrected chain agrees with the original whenever the post has the gallery attribute |
| UrlProcessor.AnchoredId | url_processor.py:27-36 | the ID the three anchored patterns read, also just before one final newline, is a non-empty run of word characters |
| UrlProcessor.ValidForms | url_processor.py:27-36 | every valid URL is a long post URL (scheme, www/bare/old reddit.com host, subreddit, ID, allowed tail) or a short redd.it URL (scheme, host, ID, allowed tail), possibly followed by one final newline, and the validator reads that ID |
| UrlProcessor.NewlineForms | url_processor.py:27-36 | every long or short post URL is valid, and so is it followed by one final newline |
| UrlProcessor.FormPattern | url_processor.py:27-29 | the first pattern that matches a long or short post URL reads the URL's own ID |
| UrlProcessor.ValidHost | url_processor.py:27-29 | a valid URL names one of the five Reddit hosts right after its scheme, followed by '/' |
| UrlProcessor.ForeignHostInvalid | url_processor.py:27-36 | a URL whose host is none of the five Reddit hosts is invalid, whatever path follows |
| UrlProcessor.ForeignHostExample | url_processor.py:27-36 | "https://example.com/r/x/comments/abc" is invalid although it holds "/comments/abc" |
| UrlProcessor.NotRedditInvalid | url_processor.py:107 | the test URL "https://www.google.com" is invalid |
| UrlProcessor.ExtractPostId | url_processor.py:50-92 | an invalid URL yields no ID; an ID is a non-empty run of word characters that follows "/comments/" or "redd.it/" in the URL |
| UrlProcessor.SearchLeftmost | url_processor.py:71-78 | the search finds nothing exactly when the pattern matches at no position from the start on; otherwise it returns the ID read at the leftmost matching position |
| UrlProcessor.SearchFirstMatch | url_processor.py:71-78 | when the pattern matches at some position and at none before it, the search returns the ID read there |
| UrlProcessor.NoMarkerNoId | url_processor.py:71-88 | a URL without the marker yields nothing from that search |
| UrlProcessor.LongUrlParses | url_processor.py:27-28 | every www, old or bare reddit.com post URL is valid, and the pattern reads its post ID |
| UrlProcessor.LongUrlRoundTrip | url_processor.py:27-75 | a post URL whose ID is followed by '/' or the end is valid and yields its ID |
| UrlProcessor.ShortUrlParses | url_processor.py:29 | every redd.it URL with an ID is valid, and the pattern reads its ID |
| UrlProcessor.ShortUrlRoundTrip | url_processor.py:78-82 | a short URL with no "/comments/" in its tail is valid and yields its ID |
| UrlProcessor.SampleLongId | url_processor.py:100 | the standard test URL yields "123abc" |
| UrlProcessor.SampleShortId | url_processor.py:103 | the short test URL yields "123xyz" |
| UrlProcessor.ParsedHasId | url_processor.py:27-36 | an ID read by the patterns follows "/comments/" or "redd.it/" in the URL |
| UrlProcessor.ValidHasMarker | url_processor.py:27-36 | every valid URL contains "/comments/" or "redd.it/" |
| UrlProcessor.ShortUrlWithoutId | url_processor.py:109 | a short URL with no ID is not valid |
| UrlProcessor.ValidWithoutId | url_processor.py:71-88 | as written: a valid post URL whose ID is followed directly by a query or fragment yields no ID |
| UrlProcessor.ParsedPostId | url_processor.py:50-92 | corrected extraction: an ID exactly for valid URLs, read by the anchored pattern |
| UrlProcessor.ParsedPostIdRoundTrip | url_processor.py:27-29 | corrected extraction yields the post's own ID for every long and short post URL |
| UrlProcessor.SubredditNamedComments | url_processor.py:71-75 | as written: in a subreddit named "comments" the ID read is "comments", not the post's |
| UrlProcessor.SubredditNamedCommentsExample | url_processor.py:71-75 | the URL .../r/comments/comments/abc/ yields "comments"; the corrected extraction yields "abc" |
| UrlProcessor.ShortUrlWithCommentsQuery | url_processor.py:71-82 | as written: a short URL whose query holds "/comments/w" yields w, not the post's ID |
| UrlProcessor.ShortUrlWithCommentsQueryExample | url_processor.py:71-82 | https://redd.it/abc?x=/comments/zzz yields "zzz"; the corrected extraction yields "abc" |
| OutputFormatter.ReplaceSeparatorRuns | output_formatter.py:98 | no separator or whitespace survives step 1, and it adds only '_' |
| OutputFormatter.KeepAppend | output_formatter.py:100 | step 2 filters character by character: filtering a concatenation concatenates the filtered parts |
| OutputFormatter.KeepAllWord | output_formatter.py:100 | step 2 keeps a text of word characters whole |
| OutputFormatter.KeepNoWord | output_formatter.py:100 | step 2 drops a text without word characters entirely |
| OutputFormatter.KeepInterleave | output_formatter.py:100 | on words joined by word-character separators, step 2 filters each word on its own and keeps the separators |
| OutputFormatter.CollapseKeepsOrder | output_formatter.py:102 | collapsing keeps every character other than '_', in order |
| OutputFormatter.WordThenUnderscores | output_formatter.py:102 | a word without '_' followed by a run of '_' keeps the word and turns the run into one '_' |
| OutputFormatter.CollapsedRuns | output_formatter.py:102 | words without '_' joined by runs of '_' come out joined by single underscores |
| OutputFormatter.StripOnlyOuter | output_formatter.py:102 | the input is the stripped text with runs of '_' before and after it: only outer underscores are removed |
| OutputFormatter.StripKeepsOrder | output_formatter.py:102 | stripping keeps every character other than '_', in order |
| OutputFormatter.StripTrailingUnderscore | output_formatter.py:102 | one trailing '_' after a text with no outer '_' is removed and nothing else |
| OutputFormatter.GenerateFilename | output_formatter.py:79-113 | the name is the post ID, '_', the first 50 characters of the title part, then ".json"; it is 7 to 56 characters longer than the ID |
| OutputFormatter.SampleSanitised | output_formatter.py:152 | the self-test title "This is a Test Post! With Punctuation & Stuff?*~" sanitises to "This_is_a_Test_Post_With_Punctuation_Stuff" |
| OutputFormatter.SampleFilename | output_formatter.py:180-182 | the self-test post "testpost123" is saved as "testpost123_This_is_a_Test_Post_With_Punctuation_Stuff.json" |
| OutputFormatter.Truncate | output_formatter.py:108-109 | the title is cut to its first 50 characters |
| OutputFormatter.SanitisedIsClean | output_formatter.py:94-106 | a sanitised title is non-empty word characters with no doubled, leading or trailing underscore |
| OutputFormatter.CleanTitlePart | output_formatter.py:94-109 | the title part of every name is clean |
| OutputFormatter.MissingTitle | output_formatter.py:184-186 | a missing or empty title gives "<id>_untitled.json" |
| OutputFormatter.FilenameChars | output_formatter.py:111 | between the "<id>_" and ".json" the name holds only word characters |
| OutputFormatter.NoWordCharsUntitled | output_formatter.py:97-106 | a title with no word character sanitises to "untitled" |
| OutputFormatter.SymbolsOnlyTitle | output_formatter.py:188-190 | the title "*&^%" gives "<id>_untitled.json" |
| OutputFormatter.UntitledName | output_formatter.py:105-111 | an "untitled" title part gives "<id>_untitled.json" |
| OutputFormatter.SeparatorRun | output_formatter.py:98 | a run of separators becomes one underscore |
| OutputFormatter.WordThenRun | output_formatter.py:98 | a separator-free word followed by a run of separators keeps the word and turns the run into one '_' |
| OutputFormatter.JoinedRuns | output_formatter.py:98 | a title of separator-free words joined by runs of whitespace or separators becomes those words joined by single underscores |
| OutputFormatter.CleanFixedPoint | output_formatter.py:97-106 | sanitising an already clean title changes nothing |
| OutputFormatter.SanitiseIdempotent | output_formatter.py:97-106 | sanitising twice equals sanitising once |
| UrlParse.UrlPath | media_downloader.py:12-13 | the path that URL parsing yields contains no '?' and no '#' |
| UrlParse.HttpsPath | media_downloader.py:12-13 | the path of "https://host/path?query" is exactly "/path" |
| MediaDownloader.Basename | media_downloader.py:14 | the base name is the part of the path after its last '/' |
| MediaDownloader.PathFilename | media_downloader.py:14-18 | a name taken from the path contains neither '?' nor '/'; it is non-empty when the path has no '?' |
| MediaDownloader.GetFilenameFromUrl | media_downloader.py:9-21 | a filename found in a URL is non-empty and contains neither '?' nor '/'; an unparsable URL yields none |
| MediaDownloader.FilenameIsLastComponent | media_downloader.py:14-18 | there is no filename exactly when the path is empty or ends with '/'; otherwise the filename is the path's last component |
| MediaDownloader.BadNetlocNoFilename | media_downloader.py:19-21 | a URL that cannot be parsed yields no filename |
| MediaDownloader.SplitExt | media_downloader.py:66 | stem and extension rebuild the name; an extension starts with its only '.' and never forms the whole name |
| MediaDownloader.StemAndExtension | media_downloader.py:66 | a stem and a dotted extension split back apart |
| MediaDownloader.ReplaceUnsafe | media_downloader.py:75-76 | every character outside the safe set becomes '_' and every safe character is kept |
| MediaDownloader.SanitiseOnlyOuter | media_downloader.py:75-76 | the name with unsafe characters replaced is the sanitised name with runs of spaces before and after it: stripping removes outer spaces and nothing else |
| MediaDownloader.SafeNameKept | media_downloader.py:75-76 | a safe name with no outer spaces is kept unchanged |
| MediaDownloader.SanitiseIdempotent | media_downloader.py:75-76 | sanitising twice equals sanitising once |
| MediaDownloader.ContentExtension | media_downloader.py:47-59 | the first of image/jpeg, image/png, image/gif and video/mp4 that the content type names decides the extension (.jpg, .png, .gif, .mp4); ".dat" exactly when there is no content type or it names none of them |
| MediaDownloader.EmptyContentType | media_downloader.py:50-51 | a missing or empty content type gives ".dat" |
| MediaDownloader.IndexedNameSplice | media_downloader.py:66-70 | "_<index>" is spliced into the file name at one cut: what follows the cut is empty, or a '.' after a non-empty stem with no further '.' or '/' |
| MediaDownloader.SavedName | media_downloader.py:75-78 | the saved name is the sanitised name, or "downloaded_media_<index>.dat" when that is empty; it is non-empty, safe, with no outer spaces |
| MediaDownloader.NameFile | media_downloader.py:44-78 | without a filename, the name is "media_item_<index>" with the content type's extension; with one, it is the sanitised name, indexed when the index is positive, or the default name; it is always non-empty, safe and without outer spaces |
| MediaDownloader.DownloadName | media_downloader.py:34-78 | a missing or empty URL is refused; otherwise the saved name is derived from the URL's filename or from the content type as `NameFile` states |
| MediaDownloader.GeneratedSafe | media_downloader.py:61-76 | a generated name passes sanitising unchanged |
| MediaDownloader.DefaultSafe | media_downloader.py:78 | the default name is safe, with no outer spaces |
| MediaDownloader.UnindexedNameKept | media_downloader.py:69-76 | at index 0 a safe filename is saved unchanged |
| MediaDownloader.IndexedNameKept | media_downloader.py:66-76 | at a positive index a safe filename is saved as stem, '_', index, extension |
| MediaDownloader.HttpsFilename | media_downloader.py:9-17 | the filename of "https://host/dir/name?query" is exactly name |
| MediaDownloader.SampleImageName | media_downloader.py:105 | the test image URL yields "someimage.jpg" |
| MediaDownloader.QueryUrlName | media_downloader.py:121-122 | the query-bearing test URL yields "download", so the fallback name is not used |
| RedditExtractor.AppendNew | reddit_extractor.py:556-558 | appending only unseen items keeps the existing list as a prefix |
| RedditExtractor.AppendNewMembers | reddit_extractor.py:556-558 | the result holds exactly the old items and the new ones |
| RedditExtractor.AppendNewNoDuplicates | reddit_extractor.py:556-558 | a list without duplicates stays without duplicates |
| RedditExtractor.AppendedAreNew | reddit_extractor.py:195-196 | every appended item comes from the input and was not already present |
| RedditExtractor.AppendNewOrder | reddit_extractor.py:195-196 | appended items keep the order of their first occurrence in the input |
| RedditExtractor.Candidate | reddit_extractor.py:157-193 | a chosen URL is non-empty and its path ends with a media extension |
| RedditExtractor.CandidateRules | reddit_extractor.py:157-193 | a non-dictionary is skipped; a hosted video takes its URL when it ends in .mp4/.gif, otherwise its fallback URL under the same test; any other item takes its URL exactly when it is a non-YouTube direct media link |
| RedditExtractor.PostMediaUrls | reddit_extractor.py:151-199 | no media list gives no URLs; otherwise the result is the chosen URLs with repeats dropped |
| RedditExtractor.CandidatesMembers | reddit_extractor.py:157-196 | a URL is a candidate exactly when some item chooses it |
| RedditExtractor.PostUrlsProperties | reddit_extractor.py:151-199 | the post's URLs are free of duplicates, are exactly the URLs some item chooses, and are all direct media links |
| RedditExtractor.PostUrlsOrder | reddit_extractor.py:157-196 | the post's URLs appear in the order of the items that first chose them |
| RedditExtractor.UrlCollector.ScanWords | reddit_extractor.py:212-229 | scanning a body's words adds exactly the qualifying media URLs among them |
| RedditExtractor.UrlCollector.FindUrlsInCommentList | reddit_extractor.py:207-237 | the recursive scan adds exactly the media URLs of the comments and all their replies |
| RedditExtractor.ListOfSet | reddit_extractor.py:243 | the list holds each collected URL exactly once |
| RedditExtractor.CommentMediaUrls | reddit_extractor.py:202-243 | the comment URLs are free of duplicates, and a URL is among them exactly when it occurs in some comment body of the tree |
| RedditExtractor.CollectedMembers | reddit_extractor.py:213-229 | a word is collected exactly when it qualifies as a comment media URL |
| RedditExtractor.ListUrlsAreWords | reddit_extractor.py:212-229 | every collected URL is one whitespace-free word that qualifies |
| RedditExtractor.EntryInList | reddit_extractor.py:208-237 | the URLs of each comment are among those of the list |
| RedditExtractor.ReplyInList | reddit_extractor.py:236-237 | the URLs of each reply are among those of the list |
| RedditExtractor.FirstWordCollected | reddit_extractor.py:212-229 | a qualifying URL at the start of a body is collected |
| RedditExtractor.ImageWordCollected | reddit_extractor.py:217-229 | an i.redd.it URL whose path ends with an image extension qualifies, whatever its query |
| RedditExtractor.ExtensionlessPreviewSkipped | reddit_extractor.py:223-231 | a preview.redd.it URL whose path has no extension does not qualify |
| RedditExtractor.NonDictEntryRaises | reddit_extractor.py:236 | as written, a comment list holding a non-dictionary raises; the corrected scan skips it |
| RedditExtractor.AsWrittenAgrees | reddit_extractor.py:207-237 | over lists of dictionaries the corrected scan agrees with the original |
| RedditExtractor.UrlsToDownload | reddit_extractor.py:548-558 | "post" gives the post's URLs, "comments" the comments' URLs, "both" the post's URLs followed by the unseen comment URLs, anything else nothing |
| RedditExtractor.BothScope | reddit_extractor.py:553-558 | the "both" list starts with the post's URLs, has no duplicates and holds exactly the URLs of either list |
| RedditExtractor.DisjointBothScope | reddit_extractor.py:553-558 | when no comment URL is a post URL, "both" is the plain concatenation |

## Left out

- Authentication (`auth.py`), the command-line prompts and argument parsing, and `main` are not part of this model.
- `fetch_post_data` is left out. The model keeps only its error translation: `Retry.FinalError` covers the post operation.
- The JSON output helpers `format_data_as_json`, `_process_comment_timestamps` and `save_json_to_file` are left out: they do file I/O and timestamp formatting.
- Logging is left out throughout.
- Network and file I/O are left out. The HTTP request and `raise_for_status` in `download_media_item` are left out; the model keeps only how the downloaded file is named. The content type arrives as a parameter.
- The real clock and randomness are parameters: `time.sleep` becomes a returned trace of sleep lengths, and `random.uniform` becomes an oracle in [0, 1] that is scaled to 10% of the delay.
- The decorator's dispatch on `func.__name__` is an `Operation` tag: fetch post, fetch comments or other.
- The PRAW objects are datatypes holding only the fields the code reads. `hasattr`/`isinstance` tests become constructors, and `replace_more` is not modelled.
- Comment replies that are missing or not a list are modelled as an empty list.
- The exception classes are reduced to the `isinstance` facts the code tests. The import guards (`ImportError`, `'praw' in sys.modules`) assume the libraries are loaded.
- `\w`, `\s` and `lower()` are ASCII only. Unicode word characters, whitespace and case folding are not modelled.
- `UrlParse.UrlPath` models only what `urlparse` does to the path. It does not model stripping control characters, the scheme-specific rules, or the IPv6 checks beyond bracket balance.
- RedditExtractor.ListOfSet: the order of `list(set)` is left unspecified, so the contract fixes the members and not the order.
- RetryWithBackoff: a policy with a negative delay would make `time.sleep` raise `ValueError`; the model records the negative sleep in the trace instead. The default policy's delays are positive, and `Retry.DelayNonNegative` shows they stay so.
- OutputFormatter.GenerateFilename: the `except` fallback name `<id>_extraction_error.json` (output_formatter.py:114-117) is not modelled, because none of the modelled steps can raise.
- CommentTree.FetchCommentsData models one attempt. The retries come from composing it with `Retry.RunAll`, as `CommentTree.RetriedFetchErrors` does.
- The code and its design notes differ in two places, and the model follows the code:
  - For sort order "score", the library sort is always "top", so the re-sort at data_retriever.py:278-280 never runs. Only the slice remains.
  - A YouTube embed is appended after an image link, not instead of it.
- The comment list of `fetch_comments_data` is the processed output. Its timestamps and scores are not modelled.

## Findings

| source | as written | input that shows it | evidently intended | confidence | as-written member | corrected member |
|---|---|---|---|---|---|---|
| url_processor.py:71-75 | the ID is the first word run after "/comments/" anywhere in the URL | https://www.reddit.com/r/comments/comments/abc/ yields "comments" | the ID of the post the validated URL names, "abc" | not executed; high | UrlProcessor.SubredditNamedCommentsExample | UrlProcessor.ParsedPostIdRoundTrip |
| url_processor.py:71-82 | the "/comments/" search also runs over a short URL's query | https://redd.it/abc?x=/comments/zzz yields "zzz" | the short URL's ID, "abc" | not executed; high | UrlProcessor.ShortUrlWithCommentsQueryExample | UrlProcessor.ParsedPostIdRoundTrip |
| url_processor.py:71 | after the ID the standard search accepts only '/' or the end | https://www.reddit.com/r/sub/comments/abc?ref=x validates but yields no ID | "abc", as the short pattern at line 78 allows a '?' after the ID | not executed; medium | UrlProcessor.ValidWithoutId | UrlProcessor.ParsedPostId |
| data_retriever.py:406 | the fallback rule reads `is_gallery` without the `hasattr` test that line 317 uses | a link post to https://example.com/cat.jpg without the gallery attribute: the AttributeError is caught and no media is reported | an external image link | not executed; medium | MediaInfo.FallbackLostWithoutGalleryAttribute | MediaInfo.FallbackIntended |
| reddit_extractor.py:236 | `comment.get('replies')` runs for every entry, including one that is not a dictionary | a comment list holding a string raises AttributeError | the entry is skipped, as line 209 intends | not executed; medium | RedditExtractor.NonDictEntryRaises | RedditExtractor.CommentMediaUrls |
