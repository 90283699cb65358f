/** The decision pipeline of src/GuzzleTranscoder.php: `convertResponse`
    and the option defaults of the constructor. The transcoder itself is
    not modelled: it is a function passed in, from (text, source encoding,
    target encoding) to the converted text or the message of the error it
    raised. */
module GuzzleTranscoder {
  import opened Wrappers
  import opened Text
  import opened Utils
  import opened ContentTypeExtractor

  /** `transcode($content, $from, $to)`: the converted text, or the message
      of the exception the transcoder threw. */
  type Transcoder = (string, string, string) -> Result<string, string>

  /** The exceptions convertResponse lets through: split could not read a
      parameter list (in the header or in an http-equiv tag), or the
      transcoder failed. */
  datatype ConvertError = HeaderWordsError(error: SplitError) | TranscodeError(message: string)

  /** The response headers as PSR-7 gives them. */
  type ResponseHeaders = seq<Pair<HeaderValue>>

  /** The array convertResponse returns: the new headers and content. */
  datatype Converted = Converted(headers: ResponseHeaders, content: string)

  /** The constructor's options; a missing key is None. */
  datatype Options = Options(targetEncoding: Option<string>, replaceHeaders: Option<bool>, replaceContent: Option<bool>)

  /** The settings convertResponse reads. */
  datatype Settings = Settings(targetEncoding: string, replaceHeaders: bool, replaceContent: bool)

  // ---------------------------------------------------------------------
  // Choosing a body detector: `#^text/html#i` and
  // `#^(text|application)/(.+\+)?xml#i`
  // ---------------------------------------------------------------------

  /** The HTML detector applies to a MIME type that starts with `text/html`
      in any case. */
  predicate IsHtmlMime(mime: string) {
    StartsWithCI(mime, 0, "text/html")
  }

  /** `(.+\+)?xml` at `p`: `xml` right away, or after a `+` that is preceded
      by at least one character of the same line. */
  function XmlSubtypeAt(mime: string, p: nat): (r: bool)
    requires p <= |mime|
    ensures r <==> (StartsWithCI(mime, p, "xml") ||
                    exists j :: p < j < LineEnd(mime, p) && mime[j] == '+' && StartsWithCI(mime, j + 1, "xml"))
  {
    var plus := (j: nat) => j < |mime| && mime[j] == '+' && StartsWithCI(mime, j + 1, "xml");
    match FirstWhere(p + 1, LineEnd(mime, p), plus)
    case Some(j) =>
      assert p < j < LineEnd(mime, p) && mime[j] == '+' && StartsWithCI(mime, j + 1, "xml");
      true
    case None =>
      forall j | p < j < LineEnd(mime, p)
        ensures !(mime[j] == '+' && StartsWithCI(mime, j + 1, "xml"))
      {
        assert !plus(j);
      }
      StartsWithCI(mime, p, "xml")
  }

  /** The XML detector applies to `text/` or `application/` followed by
      `xml` or by a suffix `+xml`. */
  predicate IsXmlMime(mime: string) {
    (StartsWithCI(mime, 0, "text/") && XmlSubtypeAt(mime, 5)) ||
    (StartsWithCI(mime, 0, "application/") && XmlSubtypeAt(mime, 12))
  }

  /** The body detector the MIME type selects; other types declare
      nothing in the body. */
  function DetectBody(mime: string, content: string, target: string): (r: Result<BodyContentType, SplitError>)
    ensures !IsHtmlMime(mime) ==> r.Success?
    ensures !IsHtmlMime(mime) && !IsXmlMime(mime) ==> r == Success(NoDeclaration())
  {
    if IsHtmlMime(mime) then GetContentTypeFromHtml(content, target)
    else if IsXmlMime(mime) then Success(GetContentTypeFromXml(content, target))
    else Success(NoDeclaration())
  }

  // ---------------------------------------------------------------------
  // The pipeline
  // ---------------------------------------------------------------------

  /** The declared encoding the response is read in: the body's, else the
      header's. */
  function FinalEncoding(body: Option<string>, header: Option<string>): Option<string> {
    if body.Some? then body else header
  }

  /** The new Content-Type line: the MIME type as written, then `; ` and the
      joined parameters when there are any. */
  function HeaderLine(h: HeaderContentType): string {
    h.mime + (if |h.params| > 0 then "; " + Join(AsGroups(BareGroup(h.params))) else "")
  }

  /** The `foreach` over `$headerReplacements`: each entry set under its key
      ignoring case, in order. */
  function SetEach(headers: ResponseHeaders, reps: seq<Pair<HeaderValue>>): ResponseHeaders
    decreases |reps|
  {
    if reps == [] then headers
    else
      var last := reps[|reps| - 1];
      SetCI(SetEach(headers, reps[..|reps| - 1]), last.key, last.value)
  }

  /** The `foreach` over `$contentReplacements`: each matched span replaced
      everywhere, in order. */
  function ReplaceEach(text: string, reps: seq<Pair<string>>): string
    decreases |reps|
  {
    if reps == [] then text
    else
      var last := reps[|reps| - 1];
      ReplaceAll(ReplaceEach(text, reps[..|reps| - 1]), last.key, last.value)
  }

  /** The header replacements: the content-type entry, as a one-element
      list. */
  function HeaderReplacements(h: HeaderContentType): seq<Pair<HeaderValue>> {
    [Pair("content-type", Multi([HeaderLine(h)]))]
  }

  /** The part of convertResponse after the encoding is known: transcode
      once, then apply what the flags ask for. */
  function Finish(s: Settings, headers: ResponseHeaders, content: string, transcode: Transcoder,
                  h: HeaderContentType, body: BodyContentType, from: string): Result<Option<Converted>, ConvertError>
  {
    var newHeaders := if s.replaceHeaders then SetEach(headers, HeaderReplacements(h)) else headers;
    match transcode(content, from, s.targetEncoding)
    case Failure(e) => Failure(TranscodeError(e))
    case Success(converted) =>
      var newContent := if s.replaceContent then ReplaceEach(converted, body.replacements) else converted;
      Success(Some(Converted(newHeaders, newContent)))
  }

  /** convertResponse once the header has been read: the body declaration
      is looked for, and its encoding is preferred to the header's. */
  function ConvertWith(s: Settings, headers: ResponseHeaders, content: string, transcode: Transcoder,
                       h: HeaderContentType): Result<Option<Converted>, ConvertError>
  {
    match DetectBody(h.mime, content, s.targetEncoding)
    case Failure(e) => Failure(HeaderWordsError(e))
    case Success(body) =>
      match FinalEncoding(body.encoding, h.encoding)
      case None => Success(None)
      case Some(from) => Finish(s, headers, content, transcode, h, body, from)
  }

  /** convertResponse: None when there is no Content-Type header or no
      declared encoding. */
  function Convert(s: Settings, headers: ResponseHeaders, content: string, transcode: Transcoder): Result<Option<Converted>, ConvertError>
  {
    match GetContentTypeFromHeader(headers, s.targetEncoding)
    case Failure(e) => Failure(HeaderWordsError(e))
    case Success(None) => Success(None)
    case Success(Some(h)) => ConvertWith(s, headers, content, transcode, h)
  }

  /** Builds the new Content-Type line as convertResponse does. */
  method ContentTypeLine(h: HeaderContentType) returns (line: string)
    ensures line == HeaderLine(h)
  {
    line := h.mime;
    if |h.params| > 0 {
      var joined := JoinHttpHeaderWords(BareGroup(h.params));
      line := line + ("; " + joined);
    }
  }

  /** The loop over `$headerReplacements`. */
  method SetAll(headers: ResponseHeaders, reps: seq<Pair<HeaderValue>>) returns (r: ResponseHeaders)
    ensures r == SetEach(headers, reps)
  {
    r := headers;
    for i := 0 to |reps|
      invariant r == SetEach(headers, reps[..i])
    {
      assert reps[..i + 1][..i] == reps[..i];
      r := SetByCaseInsensitiveKey(r, reps[i].key, reps[i].value);
    }
    assert reps[..|reps|] == reps;
  }

  /** The loop over `$contentReplacements`. */
  method ReplaceAllOf(text: string, reps: seq<Pair<string>>) returns (r: string)
    ensures r == ReplaceEach(text, reps)
  {
    r := text;
    for i := 0 to |reps|
      invariant r == ReplaceEach(text, reps[..i])
    {
      assert reps[..i + 1][..i] == reps[..i];
      r := ReplaceAll(r, reps[i].key, reps[i].value);
    }
    assert reps[..|reps|] == reps;
  }

  /** The middleware's settings, fixed when it is constructed. The lazily
      created transcoder is not a field here: it is passed to each call. */
  class GuzzleTranscoder {
    const targetEncoding: string
    const replaceHeaders: bool
    const replaceContent: bool

    /** Each option falls back to its default: `utf-8`, headers rewritten,
        content left as it is. */
    constructor(options: Options)
      ensures targetEncoding == (if options.targetEncoding.Some? then options.targetEncoding.value else "utf-8")
      ensures replaceHeaders == (if options.replaceHeaders.Some? then options.replaceHeaders.value else true)
      ensures replaceContent == (if options.replaceContent.Some? then options.replaceContent.value else false)
    {
      targetEncoding := if options.targetEncoding.Some? then options.targetEncoding.value else "utf-8";
      replaceHeaders := if options.replaceHeaders.Some? then options.replaceHeaders.value else true;
      replaceContent := if options.replaceContent.Some? then options.replaceContent.value else false;
    }

    /** The three options as convertResponse reads them. */
    function Current(): Settings {
      Settings(targetEncoding, replaceHeaders, replaceContent)
    }

    /** convertResponse, step by step: the two `foreach` loops rewrite
        local copies of the headers and of the transcoded text. */
    method ConvertResponse(headers: ResponseHeaders, content: string, transcode: Transcoder)
      returns (r: Result<Option<Converted>, ConvertError>)
      ensures r == Convert(Current(), headers, content, transcode)
    {
      var typ := GetContentTypeFromHeader(headers, targetEncoding);
      if typ.Failure? {
        return Failure(HeaderWordsError(typ.error));
      }
      if typ.value.None? {
        return Success(None);
      }
      r := ConvertWithHeader(headers, content, transcode, typ.value.value);
    }

    /** The rest of convertResponse, once the header has been read. */
    method ConvertWithHeader(headers: ResponseHeaders, content: string, transcode: Transcoder, h: HeaderContentType)
      returns (r: Result<Option<Converted>, ConvertError>)
      ensures r == ConvertWith(Current(), headers, content, transcode, h)
    {
      var line := ContentTypeLine(h);
      var headerReplacements := [Pair("content-type", Multi([line]))];

      var body := DetectBody(h.mime, content, targetEncoding);
      if body.Failure? {
        return Failure(HeaderWordsError(body.error));
      }

      var finalEncoding: string;
      if body.value.encoding.Some? {
        finalEncoding := body.value.encoding.value;
      } else if h.encoding.Some? {
        finalEncoding := h.encoding.value;
      } else {
        return Success(None);
      }

      var headersNew := headers;
      if replaceHeaders {
        headersNew := SetAll(headers, headerReplacements);
      }

      var converted := transcode(content, finalEncoding, targetEncoding);
      if converted.Failure? {
        return Failure(TranscodeError(converted.error));
      }
      var convertedNew := converted.value;
      if replaceContent {
        convertedNew := ReplaceAllOf(converted.value, body.value.replacements);
      }
      return Success(Some(Converted(headersNew, convertedNew)));
    }
  }
}
