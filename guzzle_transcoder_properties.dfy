/** What convertResponse promises: when it gives up, which declared
    encoding it transcodes from, what the two flags change, and that the
    rewritten Content-Type header reads back as the target encoding. */
module GuzzleTranscoderProperties {
  import opened Wrappers
  import opened Text
  import opened Utils
  import opened UtilsProperties
  import opened ContentTypeExtractor
  import opened ContentTypeProperties
  import opened GuzzleTranscoder

  /** Without a Content-Type header nothing is converted. */
  lemma NoContentTypeNoConversion(s: Settings, headers: ResponseHeaders, content: string, transcode: Transcoder)
    requires GetCI(headers, "content-type").None?
    ensures Convert(s, headers, content, transcode) == Success(None)
  {
  }

  /** The encoding declared in the body wins over the header's; with
      neither, nothing is converted. */
  lemma EncodingPrecedence(s: Settings, headers: ResponseHeaders, content: string, transcode: Transcoder,
                           h: HeaderContentType, body: BodyContentType)
    requires GetContentTypeFromHeader(headers, s.targetEncoding) == Success(Some(h))
    requires DetectBody(h.mime, content, s.targetEncoding) == Success(body)
    ensures body.encoding.Some? ==>
      Convert(s, headers, content, transcode) == Finish(s, headers, content, transcode, h, body, body.encoding.value)
    ensures body.encoding.None? && h.encoding.Some? ==>
      Convert(s, headers, content, transcode) == Finish(s, headers, content, transcode, h, body, h.encoding.value)
    ensures body.encoding.None? && h.encoding.None? ==>
      Convert(s, headers, content, transcode) == Success(None)
  {
  }

  /** A response is converted only when the header was read, the body
      detector succeeded and one of them declared an encoding. */
  lemma ConvertedHasEncoding(s: Settings, headers: ResponseHeaders, content: string, transcode: Transcoder, c: Converted)
    requires Convert(s, headers, content, transcode) == Success(Some(c))
    ensures GetContentTypeFromHeader(headers, s.targetEncoding).Success?
    ensures GetContentTypeFromHeader(headers, s.targetEncoding).value.Some?
    ensures var h := GetContentTypeFromHeader(headers, s.targetEncoding).value.value;
      DetectBody(h.mime, content, s.targetEncoding).Success? &&
      FinalEncoding(DetectBody(h.mime, content, s.targetEncoding).value.encoding, h.encoding).Some?
  {
  }

  /** A converted response is the transcoder's output from the chosen
      encoding to the target, with the body declaration rewritten only when
      replaceContent is set, and the headers left alone unless
      replaceHeaders is set. */
  lemma ConvertedIsTranscoded(s: Settings, headers: ResponseHeaders, content: string, transcode: Transcoder,
                              h: HeaderContentType, body: BodyContentType, from: string, c: Converted)
    requires GetContentTypeFromHeader(headers, s.targetEncoding) == Success(Some(h))
    requires DetectBody(h.mime, content, s.targetEncoding) == Success(body)
    requires FinalEncoding(body.encoding, h.encoding) == Some(from)
    requires Convert(s, headers, content, transcode) == Success(Some(c))
    ensures transcode(content, from, s.targetEncoding).Success?
    ensures var t := transcode(content, from, s.targetEncoding).value;
      c.content == (if s.replaceContent then ReplaceEach(t, body.replacements) else t)
    ensures !s.replaceHeaders ==> c.headers == headers
  {
    assert Convert(s, headers, content, transcode) == Finish(s, headers, content, transcode, h, body, from);
  }

  /** A failing transcoder makes the whole conversion fail with its
      message. */
  lemma TranscoderFailurePropagates(s: Settings, headers: ResponseHeaders, content: string, transcode: Transcoder,
                                    h: HeaderContentType, body: BodyContentType, from: string, e: string)
    requires GetContentTypeFromHeader(headers, s.targetEncoding) == Success(Some(h))
    requires DetectBody(h.mime, content, s.targetEncoding) == Success(body)
    requires FinalEncoding(body.encoding, h.encoding) == Some(from)
    requires transcode(content, from, s.targetEncoding) == Failure(e)
    ensures Convert(s, headers, content, transcode) == Failure(TranscodeError(e))
  {
  }

  /** Only HTML and XML bodies are searched for a declaration: for any
      other type the header's charset decides, and the transcoded text is
      returned as it is. */
  lemma OtherTypesUseHeader(s: Settings, headers: ResponseHeaders, content: string, transcode: Transcoder,
                            h: HeaderContentType)
    requires GetContentTypeFromHeader(headers, s.targetEncoding) == Success(Some(h))
    requires !IsHtmlMime(h.mime) && !IsXmlMime(h.mime)
    ensures h.encoding.None? ==> Convert(s, headers, content, transcode) == Success(None)
    ensures h.encoding.Some? && transcode(content, h.encoding.value, s.targetEncoding).Success? ==>
      Convert(s, headers, content, transcode).Success? &&
      Convert(s, headers, content, transcode).value.Some? &&
      Convert(s, headers, content, transcode).value.value.content ==
        transcode(content, h.encoding.value, s.targetEncoding).value
  {
  }

  /** With replaceHeaders set, the Content-Type header (found ignoring
      case) holds the one rebuilt line and every other header is as it
      was. */
  lemma ReplacedHeaders(s: Settings, headers: ResponseHeaders, content: string, transcode: Transcoder,
                        h: HeaderContentType, c: Converted)
    requires s.replaceHeaders
    requires GetContentTypeFromHeader(headers, s.targetEncoding) == Success(Some(h))
    requires Convert(s, headers, content, transcode) == Success(Some(c))
    ensures forall k :: CaseEq(k, "content-type") ==> GetCI(c.headers, k) == Some(Multi([HeaderLine(h)]))
    ensures forall k :: !CaseEq(k, "content-type") ==> GetCI(c.headers, k) == GetCI(headers, k)
  {
    ConvertedHeaders(s, headers, content, transcode, h, c);
  }

  /** The converted headers are the old ones with Content-Type set, ignoring
      case, to the rebuilt line. */
  lemma ConvertedHeaders(s: Settings, headers: ResponseHeaders, content: string, transcode: Transcoder,
                         h: HeaderContentType, c: Converted)
    requires s.replaceHeaders
    requires GetContentTypeFromHeader(headers, s.targetEncoding) == Success(Some(h))
    requires Convert(s, headers, content, transcode) == Success(Some(c))
    ensures c.headers == SetCI(headers, "content-type", Multi([HeaderLine(h)]))
  {
    ConvertedHasEncoding(s, headers, content, transcode, c);
    var body := DetectBody(h.mime, content, s.targetEncoding).value;
    var from := FinalEncoding(body.encoding, h.encoding).value;
    assert Convert(s, headers, content, transcode) == Finish(s, headers, content, transcode, h, body, from);
    SetContentType(headers, h);
  }

  /** The header loop runs once, for Content-Type. */
  lemma SetContentType(headers: ResponseHeaders, h: HeaderContentType)
    ensures SetEach(headers, HeaderReplacements(h)) == SetCI(headers, "content-type", Multi([HeaderLine(h)]))
  {
    var reps := HeaderReplacements(h);
    assert reps[..|reps| - 1] == [];
  }

  /** The rebuilt line keeps the MIME type as written and sends the
      parameters, with charset set to the target, as their joined form. */
  lemma HeaderLineParts(h: HeaderContentType)
    requires |h.params| > 0 && ';' !in h.mime
    ensures HeaderLine(h) + ";" == h.mime + ";" + (" " + JoinGroup(h.params) + ";")
    ensures MimeAndParams(HeaderLine(h)) == (h.mime, " " + JoinGroup(h.params) + ";")
  {
    assert [h.params][..0] == [];
    assert JoinedGroups([h.params]) == [JoinGroup(h.params)];
    assert Join([h.params]) == JoinGroup(h.params);
    MimeAndParamsUnique(HeaderLine(h), h.mime, " " + JoinGroup(h.params) + ";");
  }

  /** Reading the rebuilt header back gives the same MIME type, the target
      as its charset, and the same parameters. */
  lemma HeaderLineReadsBack(h: HeaderContentType, headers: ResponseHeaders, target: string)
    requires ';' !in h.mime && ReparsableGroup(h.params) && GetCI(h.params, "charset") == Some(Some(target))
    requires GetCI(headers, "content-type") == Some(Multi([HeaderLine(h)]))
    ensures GetContentTypeFromHeader(headers, target) == Success(Some(HeaderContentType(h.mime, Some(target), h.params)))
  {
    assert KeyIndex(h.params, "charset").Some?;
    HeaderLineParts(h);
    SplitParamsText(h.params);
    assert FirstText(Multi([HeaderLine(h)])) == HeaderLine(h);
    var parsed := FirstGroup(Split([" " + JoinGroup(h.params) + ";"]).value);
    assert parsed == h.params;
    SetCIKeepsValue(h.params, "charset", Some(target));
  }

  /** Setting a key to the value it already has changes nothing. */
  lemma SetCIKeepsValue(g: Group, key: string, v: Option<string>)
    requires GetCI(g, key) == Some(v)
    ensures SetCI(g, key, v) == g
  {
    var i := KeyIndex(g, key).value;
    assert g[i].value == v;
    assert SetCI(g, key, v) == g[i := Pair(g[i].key, v)];
  }

  /** The header promise of the middleware: with replaceHeaders set, and
      parameters that joinHttpHeaderWords writes in a form split reads
      back, a second pass over the converted headers finds the same MIME
      type declared in the target encoding. */
  lemma ConvertedHeaderDeclaresTarget(s: Settings, headers: ResponseHeaders, content: string, transcode: Transcoder,
                                      h: HeaderContentType, c: Converted)
    requires s.replaceHeaders
    requires GetContentTypeFromHeader(headers, s.targetEncoding) == Success(Some(h))
    requires ReparsableGroup(h.params)
    requires Convert(s, headers, content, transcode) == Success(Some(c))
    ensures GetContentTypeFromHeader(c.headers, s.targetEncoding) ==
      Success(Some(HeaderContentType(h.mime, Some(s.targetEncoding), h.params)))
  {
    ReplacedHeaders(s, headers, content, transcode, h, c);
    assert CaseEq("content-type", "content-type");
    HeaderLineReadsBack(h, c.headers, s.targetEncoding);
  }

  /** The parameters the header rewrite emits are reparsable whenever the
      ones split read were and the target is a single line. */
  lemma HeaderParamsReparsable(headers: ResponseHeaders, target: string, h: HeaderContentType)
    requires GetContentTypeFromHeader(headers, target) == Success(Some(h))
    requires '\n' !in target
    requires var ct := FirstText(GetCI(headers, "content-type").value);
      var parsed := FirstGroup(Split([MimeAndParams(ct).1]).value);
      parsed == [] || ReparsableGroup(parsed)
    ensures ReparsableGroup(h.params)
  {
    var ct := FirstText(GetCI(headers, "content-type").value);
    var parsed := FirstGroup(Split([MimeAndParams(ct).1]).value);
    assert h.params == SetCI(parsed, "charset", Some(target));
    SetCharsetReparsable(parsed, target);
  }

  /** With replaceContent unset the body is exactly what the transcoder
      returned; with no declaration found, setting it changes nothing
      either. */
  lemma ContentLeftAlone(s: Settings, headers: ResponseHeaders, content: string, transcode: Transcoder,
                         h: HeaderContentType, body: BodyContentType, from: string, t: string)
    requires GetContentTypeFromHeader(headers, s.targetEncoding) == Success(Some(h))
    requires DetectBody(h.mime, content, s.targetEncoding) == Success(body)
    requires FinalEncoding(body.encoding, h.encoding) == Some(from)
    requires transcode(content, from, s.targetEncoding) == Success(t)
    requires !s.replaceContent || body.replacements == []
    ensures Convert(s, headers, content, transcode).Success?
    ensures Convert(s, headers, content, transcode).value.Some?
    ensures Convert(s, headers, content, transcode).value.value.content == t
  {
  }

  /** Replacing each declaration by itself leaves the text as it is. */
  lemma {:induction false} ReplaceEachIdentity(t: string, reps: seq<Pair<string>>)
    requires forall i :: 0 <= i < |reps| ==> reps[i].key == reps[i].value
    ensures ReplaceEach(t, reps) == t
    decreases |reps|
  {
    if reps != [] {
      ReplaceEachIdentity(t, reps[..|reps| - 1]);
      ReplaceAllSelf(t, reps[|reps| - 1].key);
    }
  }

  /** `^(text|application)/` followed by a subtype ending in `+xml`
      selects the XML detector. */
  lemma XmlSuffixSelectsXml(top: string, sub: string, rest: string)
    requires top == "text" || top == "application"
    requires |sub| > 0 && '\n' !in sub
    ensures IsXmlMime(top + "/" + sub + "+xml" + rest)
  {
    var mime := top + "/" + sub + "+xml" + rest;
    var p := |top| + 1;
    var j := p + |sub|;
    XmlSuffixParts(top, sub, rest);
    assert p < j < LineEnd(mime, p) && mime[j] == '+' && StartsWithCI(mime, j + 1, "xml");
  }

  /** `top/sub+xml...` cut where the XML pattern looks. */
  lemma XmlSuffixParts(top: string, sub: string, rest: string)
    requires top == "text" || top == "application"
    requires |sub| > 0 && '\n' !in sub
    ensures var mime := top + "/" + sub + "+xml" + rest;
      var j := |top| + 1 + |sub|;
      StartsWithCI(mime, 0, top + "/") && mime[j] == '+' && StartsWithCI(mime, j + 1, "xml") &&
      LineEnd(mime, |top| + 1) > j
  {
    var mime := top + "/" + sub + "+xml" + rest;
    var p := |top| + 1;
    var j := p + |sub|;
    assert mime == (top + "/") + sub + "+xml" + rest;
    assert forall i :: 0 <= i < 3 ==> mime[j + 1 + i] == "xml"[i];
    assert forall i :: 0 <= i < p ==> mime[i] == (top + "/")[i];
    forall i | p <= i <= j ensures mime[i] != '\n' {
      if i < j {
        assert mime[i] == sub[i - p];
      }
    }
  }

  /** The pattern is anchored only at the start: after a subtype of `xml`
      anything may follow, so `application/xml-dtd` is read as XML. */
  lemma XmlSubtypePrefix(top: string, rest: string)
    requires top == "text" || top == "application"
    ensures IsXmlMime(top + "/xml" + rest)
  {
    var mime := top + "/xml" + rest;
    var p := |top| + 1;
    assert forall i :: 0 <= i < 3 ==> mime[p + i] == "xml"[i];
    assert StartsWithCI(mime, p, "xml");
    if top == "text" {
      assert StartsWithCI(mime, 0, "text/");
    } else {
      assert StartsWithCI(mime, 0, "application/");
    }
  }

  /** Only the `text` and `application` top-level types can be XML:
      `image/svg+xml` is not transcoded by its declaration. */
  lemma OtherTopLevelNotXml(mime: string)
    requires |mime| > 0 && LowerChar(mime[0]) != 't' && LowerChar(mime[0]) != 'a'
    ensures !IsXmlMime(mime)
  {
    assert !StartsWithCI(mime, 0, "text/") by { assert LowerChar(mime[0]) != "text/"[0]; }
    assert !StartsWithCI(mime, 0, "application/") by { assert LowerChar(mime[0]) != "application/"[0]; }
  }
}
