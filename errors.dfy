/** The extractor's error hierarchy, the transient-error classifier that the
    retry loop consults, and the one-line message shown to the user. */
module ErrorHandler {
  import opened Wrappers
  import opened Text

  /** The subclasses of the extractor's base exception, and the base class itself. */
  datatype ExtractorKind =
    | UrlValidation
    | Authentication
    | PostRetrieval
    | CommentRetrieval
    | Output
    | Config
    | BaseExtractorError

  /** Where an exception comes from: this decides which `isinstance` tests succeed. */
  datatype ErrorClass =
    | Extractor(kind: ExtractorKind)
    | RedditApiError   // the client library's API exception, itself one of its PRAW exceptions
    | PrawError        // any other exception of the client library (a PRAW exception)
    | PrawcoreError    // an exception of the library's HTTP layer (not a PRAW exception)
    | OtherError       // anything else

  /** An exception: its class, its text (`str(error)`), the HTTP status of the
      response attached to it (None when there is no response), and the
      exception it was raised from. */
  datatype Error = Error(cls: ErrorClass, message: string, status: Option<int>, cause: Option<Error>)

  /** True for the classes whose response status the classifier inspects. */
  predicate HasStatusCheck(cls: ErrorClass) {
    cls == RedditApiError || cls == PrawcoreError
  }

  /** True for the client library's PRAW exceptions. */
  predicate IsPrawException(cls: ErrorClass) {
    cls == RedditApiError || cls == PrawError
  }

  const ServerErrorStatuses: seq<int> := [500, 502, 503, 504]

  /** The phrases whose presence in the lower-cased message marks an error as transient. */
  const RetryablePhrases: seq<string> := [
    "rate limit", "ratelimit",
    "timeout", "time-out", "timed out",
    "connection failed", "connection reset", "connection refused", "connection error",
    "temporary", "transient",
    "500", "502", "503", "504",
    "server error", "internal server error",
    "service unavailable",
    "please try again later"
  ]

  /** Python's `any(phrase in s for phrase in phrases)`. */
  function AnyPhrase(s: string, phrases: seq<string>): bool {
    if phrases == [] then false
    else Contains(s, phrases[0]) || AnyPhrase(s, phrases[1..])
  }

  /** `AnyPhrase` holds exactly when some listed phrase occurs in `s`. */
  lemma {:induction false} AnyPhraseIff(s: string, phrases: seq<string>)
    ensures AnyPhrase(s, phrases) <==> exists p :: p in phrases && Contains(s, p)
  {
    if phrases != [] {
      AnyPhraseIff(s, phrases[1..]);
      if Contains(s, phrases[0]) {
        assert phrases[0] in phrases;
      } else if p :| p in phrases && Contains(s, p) {
        assert p in phrases[1..];
      }
    }
  }

  /** The status test of the classifier: a rate-limit or server-error response. */
  predicate RetryableStatus(e: Error) {
    HasStatusCheck(e.cls) && e.status.Some? && (e.status.value == 429 || e.status.value in ServerErrorStatuses)
  }

  /** Decides whether an error is worth retrying: the response status first,
      then a case-insensitive search of the message for transient phrases. */
  function IsRetryable(e: Error): (r: bool)
    ensures HasStatusCheck(e.cls) && e.status == Some(429) ==> r
    ensures HasStatusCheck(e.cls) && e.status.Some? && e.status.value in ServerErrorStatuses ==> r
    ensures !RetryableStatus(e) ==> (r <==> exists p :: p in RetryablePhrases && Contains(Lower(e.message), p))
  {
    if HasStatusCheck(e.cls) && e.status.Some? && e.status.value == 429 then true
    else if HasStatusCheck(e.cls) && e.status.Some? && e.status.value in ServerErrorStatuses then true
    else
      AnyPhraseIff(Lower(e.message), RetryablePhrases);
      AnyPhrase(Lower(e.message), RetryablePhrases)
  }

  /** Two messages that differ only in the case of ASCII letters. */
  predicate SameUpToCase(m1: string, m2: string) {
    |m1| == |m2| && forall i :: 0 <= i < |m1| ==> LowerChar(m1[i]) == LowerChar(m2[i])
  }

  /** Phrase matching ignores letter case. */
  lemma CaseInsensitive(e: Error, message: string)
    requires SameUpToCase(e.message, message)
    ensures IsRetryable(e.(message := message)) == IsRetryable(e)
  {
    assert Lower(e.message) == Lower(message);
  }

  /** Lower-casing keeps every occurrence of a string that has no upper-case letters. */
  lemma ContainsLower(s: string, sub: string)
    requires Contains(s, sub) && Lower(sub) == sub
    ensures Contains(Lower(s), sub)
  {
    var i := ContainsWitness(s, sub);
    assert Lower(s)[i..i + |sub|] == Lower(s[i..i + |sub|]);
    ContainsAt(Lower(s), sub, i);
  }

  /** A server-error code anywhere in the text makes an error retryable, whatever
      its class and whether or not it carries a response. */
  lemma ServerCodeInMessage(e: Error, code: string)
    requires code in ["500", "502", "503", "504"]
    requires Contains(e.message, code)
    ensures IsRetryable(e)
  {
    assert Lower(code) == code;
    ContainsLower(e.message, code);
    assert code in RetryablePhrases;
  }

  /** A status outside the list adds nothing: with no phrase in the message the
      error is not retryable. */
  lemma UnlistedStatusNotRetryable(e: Error)
    requires e.status.Some? && e.status.value != 429 && e.status.value !in ServerErrorStatuses
    requires forall p :: p in RetryablePhrases ==> !Contains(Lower(e.message), p)
    ensures !IsRetryable(e)
  {
  }

  /** The text placed before the message, chosen by the first matching class. */
  function MessagePrefix(cls: ErrorClass): string {
    match cls
    case Extractor(UrlValidation) => "URL Validation Error: "
    case Extractor(Authentication) => "API Authentication Error: "
    case Extractor(Config) => "Configuration Error: "
    case Extractor(PostRetrieval) => "Post Retrieval Error: "
    case Extractor(CommentRetrieval) => "Comment Retrieval Error: "
    case Extractor(Output) => "Output Error: "
    case Extractor(BaseExtractorError) => "Application Error: "
    case RedditApiError => "Reddit API Error: "
    case PrawError => "Reddit API Error: "
    case PrawcoreError => "An unexpected error occurred: "
    case OtherError => "An unexpected error occurred: "
  }

  /** The text placed after the message. */
  function MessageSuffix(cls: ErrorClass): string {
    match cls
    case Extractor(Authentication) => ". Please check your API credentials in the .env file."
    case Extractor(Config) => "."
    case Extractor(PostRetrieval) => ". The post might be private, deleted, or the ID is incorrect."
    case Extractor(CommentRetrieval) => "."
    case Extractor(Output) => "."
    case _ => ""
  }

  /** The user-facing message: a prefix naming the error's category, the
      error's own text unchanged, and a category-specific hint. */
  function FormatUserErrorMessage(e: Error): (r: string)
    ensures StartsWith(r, MessagePrefix(e.cls))
    ensures EndsWith(r, MessageSuffix(e.cls))
    ensures |r| == |MessagePrefix(e.cls)| + |e.message| + |MessageSuffix(e.cls)|
    ensures r[|MessagePrefix(e.cls)|..|r| - |MessageSuffix(e.cls)|] == e.message
  {
    MessagePrefix(e.cls) + e.message + MessageSuffix(e.cls)
  }

  /** An error that is neither the extractor's own nor a PRAW exception is
      shown as "An unexpected error occurred: " followed by its text. */
  lemma UnexpectedErrorMessage(e: Error)
    requires !e.cls.Extractor? && !IsPrawException(e.cls)
    ensures FormatUserErrorMessage(e) == "An unexpected error occurred: " + e.message
  {
    assert e.cls == PrawcoreError || e.cls == OtherError;
  }

  /** The inverse of the formatter for a known class: strips the class's
      prefix and suffix, or fails when the text does not carry them. */
  function RecoverMessage(cls: ErrorClass, text: string): (m: Option<string>)
    ensures m.Some? ==> text == MessagePrefix(cls) + m.value + MessageSuffix(cls)
  {
    var p := MessagePrefix(cls);
    var s := MessageSuffix(cls);
    if |p| + |s| <= |text| && StartsWith(text, p) && EndsWith(text, s) then
      var m := text[|p|..|text| - |s|];
      assert text == text[..|p|] + m + text[|text| - |s|..];
      Some(m)
    else
      None
  }

  /** The formatted message loses nothing: the class and the text give back
      the error's own message. */
  lemma FormatRoundTrip(e: Error)
    ensures RecoverMessage(e.cls, FormatUserErrorMessage(e)) == Some(e.message)
  {
    var r := FormatUserErrorMessage(e);
    assert EndsWith(r, MessageSuffix(e.cls));
  }
}
