# guzzle-transcoder in Dafny

A model of the logic in fossar/guzzle-transcoder that decides a response's
character encoding and rewrites the declarations of it, with proofs of what
that logic promises. The model covers three parts.

- **Header-word codec** (`src/Utils.php`), modules `Utils`,
  `UtilsProperties` and `UtilsExamples`:
  - `splitHttpHeaderWords` and `joinHttpHeaderWords` for the `key[=value]`
    parameter lists of RFC 2616, section 2.2, with the `<...>` Link targets
    of RFC 5988, section 5;
  - the case-insensitive get and the case-preserving set over PHP arrays
    with string keys.
  A PHP array with string keys is a sequence of key/value pairs in
  insertion order. The split loop is a method proved equal to a recursive
  definition. Each of the eight regular expressions it applies (seven
  matches and the `preg_replace` that removes escapes) is written out as a
  scanner, so the proofs speak of that definition.
- **Charset extractor** (`src/ContentTypeExtractor.php`), modules
  `ContentTypeExtractor` and `ContentTypeProperties`:
  - the split of `Content-Type` into MIME type and parameters (RFC 2045,
    section 5.1);
  - the `http-equiv` meta tag, the HTML5 `<meta charset>` tag and the XML
    encoding declaration (XML 1.0, section 4.3.3).
  Each PCRE pattern is an explicit scanner:
  - a leftmost match is the least start that matches;
  - a lazy quantifier takes the least length, a greedy one the greatest;
  - `i` folds only ASCII letters, `\s` is the six ASCII spaces, and `.`
    stops at a line feed.
- **Decision pipeline** (`GuzzleTranscoder::convertResponse` and the option
  defaults of its constructor), modules `GuzzleTranscoder` and
  `GuzzleTranscoderProperties`.
  - The transcoder is a function parameter `transcode(text, from, to)` that
    returns the converted text or the message of the error it raised.
  - The class keeps the three options as fields set once by the
    constructor.
  - `ConvertResponse` runs the two `foreach` loops as methods. It is proved
    equal to the function `Convert`, and the properties are proved about
    that function.

Text is a sequence of characters. Exceptions become `Result` failures:
- `MalformedHeaderWords` when split finds no rule that applies;
- `TranscodeError` when the transcoder fails.

The code and its doc comment disagree on one point, and the model follows
the code. The doc comment of `convertResponse`
(src/GuzzleTranscoder.php:95-97) lists the header's charset before the
body's. The code prefers the body's declaration (lines 130-137), and so
does the model (`EncodingPrecedence`).

The http-equiv branch loses the lines of a multi-line meta tag (see
"## Findings"). `GetContentTypeFromHtml` and the pipeline follow the code
as written; the corrected branch, `Html4ContentTypeCorrected`, stands
beside it with its own property.

## Model

| member | source | states |
|---|---|---|
| Text.Trim | src/Utils.php:107 | PHP `trim`: the result is the input with a leading and a trailing run of trimmed characters cut off, it neither starts nor ends with one, and a text without one is returned unchanged |
| Text.ReplaceAllAbsent | src/GuzzleTranscoder.php:150 | `str_replace` changes nothing when the needle does not occur |
| Text.ReplaceAllSelf | src/GuzzleTranscoder.php:150 | `str_replace` of a needle by itself changes nothing |
| Utils.KeyIndex | src/Utils.php:212-216 | the position of the first key equal to the requested one ignoring ASCII case, and no such key before it; none when no key matches |
| Utils.GetCI | src/Utils.php:211-219 | null exactly when no key matches ignoring case; otherwise the value of the first matching key |
| Utils.GetByCaseInsensitiveKey | src/Utils.php:211-219 | the `foreach` with early return computes `GetCI` |
| Utils.SetCI | src/Utils.php:232-244 | afterwards every case variant of the key reads the new value and every other key reads what it did. A matching key keeps its spelling and position. Otherwise the caller's key is appended. No other entry changes |
| Utils.SetAtFirstMatch | src/Utils.php:233-241 | overwriting the first case-insensitive match gives the new value under every case variant and leaves other keys as they were |
| Utils.AppendNewKey | src/Utils.php:241 | appending an absent key gives the new value under every case variant and leaves other keys as they were |
| Utils.SetByCaseInsensitiveKey | src/Utils.php:232-244 | the `foreach` with `break` and the assignment compute `SetCI` |
| Utils.Put | src/Utils.php:91-111 | `$cur[$key] = $val`: overwrite the entry with exactly that key in place, or append |
| Utils.PutKeepsKeysDistinct | src/Utils.php:91-111 | the assignment keeps the keys distinct and stores the pair |
| Utils.QuotedEnd | src/Utils.php:100 | the end of a quoted string is a `"` inside the text |
| Utils.AttributeValue | src/Utils.php:99-109 | the value patterns never lengthen the remaining text |
| Utils.NextStep | src/Utils.php:87-126 | every rule that applies consumes at least one character, so the `while` loop ends |
| Utils.Close | src/Utils.php:113-130 | the group being built is emitted only when it is non-empty |
| Utils.SplitHttpHeaderWords | src/Utils.php:79-134 | the `foreach` and `while` loops compute the recursive definition `Split` |
| Utils.JoinedPairs | src/Utils.php:182-192 | one entry per pair, each the key followed by its joined value |
| Utils.JoinAttributes | src/Utils.php:181-192 | the inner `foreach` builds exactly `JoinedPairs` |
| Utils.JoinHttpHeaderWords | src/Utils.php:165-199 | empty input gives `''`, a bare group is a one-group list, and the loops compute `Join` |
| UtilsProperties.SplitFromEmitsGroups | src/Utils.php:87-130 | every group the `while` loop emits is non-empty with distinct keys |
| UtilsProperties.SplitValuesEmitsGroups | src/Utils.php:85-131 | the same for the loop over the header strings |
| UtilsProperties.SplitEmitsNonEmptyGroups | src/Utils.php:113-130 | split never emits an empty group |
| UtilsProperties.SplitFromExtends | src/Utils.php:84-131 | the groups already collected are kept as a prefix of the result, and the rest depends only on the remaining text |
| UtilsProperties.SplitValuesExtends | src/Utils.php:84-133 | the same for a list of header strings |
| UtilsProperties.SplitEachStringIndependently | src/Utils.php:85-86 | splitting a list is splitting each string on its own and concatenating the groups; the first failure decides the error |
| UtilsProperties.EqualsSignsAreMalformed | src/Utils.php:95-125 | a remainder made only of `=` matches no rule, so split throws with that remainder |
| UtilsProperties.SplitOfEqualsSignFails | src/Utils.php:124-125 | `splitHttpHeaderWords('=')` throws |
| UtilsProperties.EscapeChars | src/Utils.php:187 | escaping only adds backslashes |
| UtilsProperties.UnescapeEscape | src/Utils.php:104 | removing the escapes undoes the escaping of join |
| UtilsProperties.QuotedEndOfEscaped | src/Utils.php:100 | the quoted-string pattern ends exactly at the `"` join writes after an escaped value |
| UtilsProperties.JoinPairSingleLine | src/Utils.php:182-191 | a reparsable pair joins to a non-empty single line |
| UtilsProperties.ImplodeSingleLine | src/Utils.php:193-198 | implode of single lines with a single-line separator is one line |
| UtilsProperties.StepLink | src/Utils.php:91-94 | a Link target is stored with a null value and the loop continues on the rest |
| UtilsProperties.StepAttribute | src/Utils.php:95-111 | a token or attribute is stored with its value and the loop continues on the rest |
| UtilsProperties.StepSeparator | src/Utils.php:120-123 | `;` and white space only advance |
| UtilsProperties.StepGroupEnd | src/Utils.php:113-118 | `,` closes the current group and starts an empty one |
| UtilsProperties.NextStepAtSemicolon | src/Utils.php:120-121 | a leading `;` is a separator; the rest of its line remains |
| UtilsProperties.NextStepAtComma | src/Utils.php:113-114 | a leading `,` ends the group; the rest of its line remains |
| UtilsProperties.NextStepLink | src/Utils.php:91-93 | after white space, `<` up to the first `>` is taken whole as the key |
| UtilsProperties.NextStepWord | src/Utils.php:95-98 | otherwise the run of key characters is the key, followed by its value |
| UtilsProperties.NextStepAtLinkKey | src/Utils.php:91-94 | a joined Link target is read back as the key |
| UtilsProperties.NextStepAtPlainKey | src/Utils.php:95-98 | a joined plain key is read back as the key |
| UtilsProperties.AttributeValueAbsent | src/Utils.php:99-109 | without `=` the attribute has no value and nothing is consumed |
| UtilsProperties.TokenCharClasses | src/Utils.php:175-178 | a character join leaves unquoted is one the unquoted-value pattern and `trim` keep |
| UtilsProperties.AttributeValueToken | src/Utils.php:106-108 | a token written as `=value` reads back as that value |
| UtilsProperties.AttributeValueQuoted | src/Utils.php:100-104 | a value written quoted and escaped reads back as the value |
| UtilsProperties.QuotedValueAt | src/Utils.php:100-104 | the quoted-value rule yields the unescaped text between the quotes |
| UtilsProperties.JoinedValueReadsBack | src/Utils.php:183-189 | whatever join writes for a single-line value, split reads back |
| UtilsProperties.SplitLinkPair | src/Utils.php:91-94 | split reads a joined Link target back as a key with a null value |
| UtilsProperties.SplitPlainValue | src/Utils.php:95-111 | split reads a joined plain pair back |
| UtilsProperties.SplitPair | src/Utils.php:91-111 | split reads any reparsable joined pair back |
| UtilsProperties.SplitSemicolon | src/Utils.php:120-121 | the `; ` between pairs is skipped |
| UtilsProperties.SplitComma | src/Utils.php:113-118 | the `, ` between groups closes the group |
| UtilsProperties.SplitPairsFrom | src/Utils.php:87-127 | the pairs of a joined group are read back in order |
| UtilsProperties.SplitGroupList | src/Utils.php:113-118 | the groups of a joined list are read back in order |
| UtilsProperties.SplitJoinRoundTrip | src/Utils.php:147 | split undoes join for groups whose keys are `<...>` or key-character runs and whose values hold no line feed, except when the serialization is `0` |
| UtilsProperties.SplitParamsText | src/ContentTypeExtractor.php:48-50 | the parameter text explode leaves after `mime; params` splits back into the parameter group |
| UtilsProperties.SemicolonEnds | src/ContentTypeExtractor.php:48 | the `;` appended before exploding closes the group |
| UtilsExamples.LinkTargetKeepsSeparators | src/Utils.php:91-94 | `<foo,bar>; baz` is one group of two keys with null values |
| UtilsExamples.QuotedValueIsUnescaped | src/Utils.php:100-104 | `foo="\"bar\""` gives the value `"bar"` |
| UtilsExamples.SingleQuotesAreOrdinary | src/Utils.php:106-108 | `foo='x'` gives the value `'x'`, quotes included |
| UtilsExamples.SeparatorValueIsQuoted | src/Utils.php:175-188 | a value holding a separator such as `/` at any position, the last one included, is written in double quotes, unchanged when it has no `"` or `\` |
| ContentTypeExtractor.FirstText | src/ContentTypeExtractor.php:38-44 | a list value contributes only its first element |
| ContentTypeExtractor.MimeAndParams | src/ContentTypeExtractor.php:48 | the MIME type is the text before the first `;`, untrimmed; the parameters are the rest, with the appended `;` |
| ContentTypeExtractor.MimeAndParamsUnique | src/ContentTypeExtractor.php:48 | that split is the only one with no `;` in the MIME type |
| ContentTypeExtractor.FirstGroup | src/ContentTypeExtractor.php:51-53 | the first parsed group, or the empty array |
| ContentTypeExtractor.GetContentTypeFromHeader | src/ContentTypeExtractor.php:32-60 | null exactly when there is no `content-type` key in any case, and a failure exactly when the parameters cannot be split. Otherwise: the MIME type, the `charset` of the first group, and that group after the case-insensitive set of `charset` to the target: an existing `charset` key keeps its spelling and position, the other entries keep their order and values |
| ContentTypeExtractor.Html4Start | src/ContentTypeExtractor.php:11 | the leftmost position where `PATTERN_HTML4` matches |
| ContentTypeExtractor.Html4Tag | src/ContentTypeExtractor.php:11 | the match is a substring of the input that starts with `<meta` and ends at the first `>` |
| ContentTypeExtractor.AssignmentAt | src/ContentTypeExtractor.php:73 | `name\s*=\s*`, case-insensitively |
| ContentTypeExtractor.TagEnd | src/ContentTypeExtractor.php:11 | the first `>` after the tag's opening |
| ContentTypeExtractor.DotEnd | src/ContentTypeExtractor.php:73 | where `.*` stops, with or without the `s` flag |
| ContentTypeExtractor.ContentValueAt | src/ContentTypeExtractor.php:73 | `content\s*=\s*` followed by a quote and the nearest matching quote |
| ContentTypeExtractor.ContentKeyword | src/ContentTypeExtractor.php:73 | greedy `before`: the last `content=` reachable from the start |
| ContentTypeExtractor.ContentStart | src/ContentTypeExtractor.php:73 | the leftmost start of the inner pattern |
| ContentTypeExtractor.ContentMatchAt | src/ContentTypeExtractor.php:73 | the captured parts concatenate to the matched text, and `after` runs to the end of the line |
| ContentTypeExtractor.ContentAttributeIn | src/ContentTypeExtractor.php:73-74 | no match exactly when no start matches; otherwise the match at the leftmost start |
| ContentTypeExtractor.ContentAttributeAsWritten | src/ContentTypeExtractor.php:73-74 | the inner pattern as written: a `content=` attribute found in the tag, with `before` and `after` on one line |
| ContentTypeExtractor.ContentAttribute | src/ContentTypeExtractor.php:73-74 | with `.` matching line feeds: the match is the whole tag, and there is none exactly when the tag has no quoted `content` value |
| ContentTypeExtractor.QuotedCharsetEnd | src/ContentTypeExtractor.php:15 | the lazy quoted value: the closing quote matches the opening one, and every character between is of the class `[^"' ]` |
| ContentTypeExtractor.BareCharsetEnd | src/ContentTypeExtractor.php:15 | the greedy unquoted value: the run of `[^"'=<>`\s]` |
| ContentTypeExtractor.CharsetAt | src/ContentTypeExtractor.php:15 | a match of `PATTERN_HTML5` from a given `charset` keyword has the HTML5 shape and is a substring of the input |
| ContentTypeExtractor.FirstCharset | src/ContentTypeExtractor.php:15 | lazy `before`: the first keyword position that completes a match |
| ContentTypeExtractor.Html5At | src/ContentTypeExtractor.php:15 | a match starting at a position begins with `<meta` and has its keyword inside the tag |
| ContentTypeExtractor.Html5Match | src/ContentTypeExtractor.php:15 | the leftmost match of `PATTERN_HTML5` |
| ContentTypeExtractor.Html4Rewrite | src/ContentTypeExtractor.php:74-83 | given the inner match: nothing declared exactly when there is none, a failure exactly when its `content` value cannot be split; otherwise the first group's `charset` is declared and the whole tag is replaced by the inner match with the joined group, `charset` set to the target, as its `content` |
| ContentTypeExtractor.Html4ContentType | src/ContentTypeExtractor.php:73-83 | the same with the inner pattern as written, without the `s` flag: the declared encoding is the `charset` of the first group of the `content` value, and the single replacement maps the whole tag to the line-bound inner match with the rewritten `content` |
| ContentTypeExtractor.Html4ContentTypeCorrected | src/ContentTypeExtractor.php:73-83 | with the `s` flag: the same cases as the branch as written, the same declared encoding (the `charset` of the first group of the `content` value), and a replacement that maps the tag to the tag itself with only its `content` value changed to the joined group with `charset` set to the target |
| ContentTypeExtractor.Html5ContentType | src/ContentTypeExtractor.php:85-88 | nothing declared exactly when nothing matches. Otherwise the value is declared verbatim, and the one replacement maps the matched text to it with the target as the charset |
| ContentTypeExtractor.GetContentTypeFromHtml | src/ContentTypeExtractor.php:67-92 | the http-equiv branch as written whenever `PATTERN_HTML4` matches, even when its inner pattern fails; otherwise the HTML5 branch. At most one replacement |
| ContentTypeExtractor.EncodingAt | src/ContentTypeExtractor.php:103 | a match of the XML pattern from a given `encoding=` has the XML shape and is a substring of the input |
| ContentTypeExtractor.FirstEncoding | src/ContentTypeExtractor.php:103 | lazy `before`: the first `encoding=` that completes a match |
| ContentTypeExtractor.XmlAt | src/ContentTypeExtractor.php:103 | a match begins with `<?xml` and has `encoding=` inside the declaration |
| ContentTypeExtractor.XmlMatch | src/ContentTypeExtractor.php:103-104 | the leftmost match of the XML pattern |
| ContentTypeExtractor.GetContentTypeFromXml | src/ContentTypeExtractor.php:99-111 | nothing declared exactly when nothing matches. Otherwise the value is declared verbatim, and the one replacement maps the matched text to it with the target as the encoding |
| ContentTypeProperties.Html5MatchIsMetaTag | src/ContentTypeExtractor.php:85-88 | the replaced span occurs in the input, starts with `<meta` (in any case), has no `>` before the `charset` keyword, and ends with `>`; a quoted value may itself hold a `>` |
| ContentTypeProperties.XmlMatchIsDeclaration | src/ContentTypeExtractor.php:103-107 | the replaced span occurs in the input, starts with `<?xml` (in any case), has no `>` before `encoding=`, and ends with `>`; a quoted value may itself hold a `>` |
| ContentTypeProperties.Html5RewriteReadsBack | src/ContentTypeExtractor.php:87 | at the old declaration's place, the rewritten tag declares the target, keeps the quote style and `after`, and has `charset=` lower case with no spaces around `=` |
| ContentTypeProperties.BareRewriteReadsBack | src/ContentTypeExtractor.php:87 | the same for an unquoted value |
| ContentTypeProperties.QuotedRewriteReadsBack | src/ContentTypeExtractor.php:87 | the same for a quoted value |
| ContentTypeProperties.XmlRewriteReadsBack | src/ContentTypeExtractor.php:106 | at the old declaration's place, the rewritten declaration declares the target with the same quote and the rest unchanged |
| ContentTypeProperties.Html4RewriteDeclaresTarget | src/ContentTypeExtractor.php:75-82 | the rewritten `content` value splits back into the updated group, whose `charset` is the target |
| ContentTypeProperties.Html4ContentTypeDeclaresTarget | src/ContentTypeExtractor.php:74-83 | when the `content` value is one split reads back exactly, the http-equiv branch replaces the tag by the inner match with a `content` value that splits and declares the target |
| ContentTypeProperties.Html5ContentTypeDeclaresTarget | src/ContentTypeExtractor.php:85-88 | the HTML5 branch's one replacement is keyed by the leftmost match, and the charset pattern at the old declaration's place in it reads the target |
| ContentTypeProperties.XmlContentTypeDeclaresTarget | src/ContentTypeExtractor.php:103-107 | the XML branch's one replacement is keyed by the leftmost match, and the encoding pattern at the old declaration's place in it reads the target |
| ContentTypeProperties.SetCharsetReparsable | src/ContentTypeExtractor.php:80 | setting `charset` keeps a reparsable group reparsable and makes it declare the target |
| ContentTypeProperties.JoinOfCharsetGroup | src/ContentTypeExtractor.php:81 | a group with a `charset` never joins to `0` |
| ContentTypeProperties.RoundTripOne | src/ContentTypeExtractor.php:81 | one reparsable group survives join then split |
| ContentTypeProperties.Html5ContentTypeOf | src/ContentTypeExtractor.php:85-88 | for a known leftmost match, the declared value and the single replacement |
| ContentTypeProperties.SolidusJoinsUnquotedCharset | src/ContentTypeExtractor.php:85-87 | `<meta charset=v/>` declares `v/`, and its rewrite drops the `/` |
| ContentTypeProperties.NoContentOnMetaLine | src/ContentTypeExtractor.php:73 | without the `s` flag, no match starts on a `<meta` line that holds no `content=` |
| ContentTypeProperties.AsWrittenDropsMetaLine | src/ContentTypeExtractor.php:73-82 | as written, the match on `<meta` + line feed + one line covers only that second line |
| ContentTypeProperties.Html4DropsMetaLine | src/ContentTypeExtractor.php:73-83 | on `<meta` + line feed + one line, the branch as written keys its replacement by the whole tag but builds it from the second line alone, so the replacement has no line feed after `<meta` |
| ContentTypeProperties.MultiLineMetaTag | src/ContentTypeExtractor.php:73-83 | on a two-line tag the pattern as written matches only the second line, while the corrected pattern matches the whole tag |
| GuzzleTranscoder.XmlSubtypeAt | src/GuzzleTranscoder.php:126 | `(.+\+)?xml`: `xml` right away, or after a `+` preceded by at least one character of the same line |
| GuzzleTranscoder.DetectBody | src/GuzzleTranscoder.php:124-128 | only the HTML detector can fail, and a type that is neither HTML nor XML declares nothing in the body |
| GuzzleTranscoder.ContentTypeLine | src/GuzzleTranscoder.php:118 | the new header line is the MIME type, then `; ` and the joined parameters when there are any |
| GuzzleTranscoder.SetAll | src/GuzzleTranscoder.php:139-144 | the loop sets each replacement under its key ignoring case, in order |
| GuzzleTranscoder.ReplaceAllOf | src/GuzzleTranscoder.php:147-152 | the loop replaces every occurrence of each matched span, in order |
| GuzzleTranscoder.GuzzleTranscoder.constructor | src/GuzzleTranscoder.php:35-40 | the defaults are `utf-8`, headers replaced, and content left as it is |
| GuzzleTranscoder.GuzzleTranscoder.ConvertResponse | src/GuzzleTranscoder.php:107-158 | the method computes `Convert` under the object's settings |
| GuzzleTranscoder.GuzzleTranscoder.ConvertWithHeader | src/GuzzleTranscoder.php:118-157 | once the header is read, the method computes `ConvertWith` |
| GuzzleTranscoderProperties.NoContentTypeNoConversion | src/GuzzleTranscoder.php:114-121 | without a Content-Type header in any case, the result is null whatever the body |
| GuzzleTranscoderProperties.EncodingPrecedence | src/GuzzleTranscoder.php:130-137 | the body's declaration wins over the header's, and with neither the result is null |
| GuzzleTranscoderProperties.ConvertedHasEncoding | src/GuzzleTranscoder.php:114-137 | a converted response had a readable header and a declared encoding |
| GuzzleTranscoderProperties.ConvertedIsTranscoded | src/GuzzleTranscoder.php:139-157 | the content is the transcoder's output from the chosen encoding to the target, with the replacements applied only under `replaceContent`. The headers are unchanged when `replaceHeaders` is off |
| GuzzleTranscoderProperties.TranscoderFailurePropagates | src/GuzzleTranscoder.php:146 | a failing transcoder makes the call fail with its message |
| GuzzleTranscoderProperties.OtherTypesUseHeader | src/GuzzleTranscoder.php:124-137 | for types other than HTML and XML, only the header's charset decides and the content is the transcoder's output |
| GuzzleTranscoderProperties.ReplacedHeaders | src/GuzzleTranscoder.php:118-144 | with `replaceHeaders`, every case variant of `content-type` reads the rebuilt line and every other header is unchanged |
| GuzzleTranscoderProperties.ConvertedHeaders | src/GuzzleTranscoder.php:139-144 | the new headers are the old ones with the Content-Type entry set ignoring case, keeping its key's spelling |
| GuzzleTranscoderProperties.SetContentType | src/GuzzleTranscoder.php:139-144 | the loop over the one header replacement is one case-insensitive set |
| GuzzleTranscoderProperties.HeaderLineParts | src/GuzzleTranscoder.php:118 | the rebuilt line explodes back into the same MIME type and the joined parameters |
| GuzzleTranscoderProperties.HeaderLineReadsBack | src/GuzzleTranscoder.php:118 | reading the rebuilt header gives the same MIME type and parameters, with the target as the declared charset |
| GuzzleTranscoderProperties.SetCIKeepsValue | src/ContentTypeExtractor.php:57 | setting a key to the value it already has changes nothing |
| GuzzleTranscoderProperties.ConvertedHeaderDeclaresTarget | src/GuzzleTranscoder.php:118-144 | with `replaceHeaders`, the new Content-Type header declares the target encoding |
| GuzzleTranscoderProperties.HeaderParamsReparsable | src/ContentTypeExtractor.php:50-57 | parameters that split read from a reparsable group stay reparsable once `charset` is set |
| GuzzleTranscoderProperties.ContentLeftAlone | src/GuzzleTranscoder.php:146-152 | without `replaceContent`, or with no replacements, the content is exactly the transcoder's output |
| GuzzleTranscoderProperties.ReplaceEachIdentity | src/GuzzleTranscoder.php:149-151 | replacements that map each span to itself leave the text unchanged |
| GuzzleTranscoderProperties.XmlSuffixSelectsXml | src/GuzzleTranscoder.php:126 | `text/...+xml` and `application/...+xml` select the XML detector |
| GuzzleTranscoderProperties.XmlSubtypePrefix | src/GuzzleTranscoder.php:126 | a subtype that merely starts with `xml`, such as `application/xml-dtd`, also selects it, since the pattern has no end anchor |
| GuzzleTranscoderProperties.OtherTopLevelNotXml | src/GuzzleTranscoder.php:126 | a type not starting with `t` or `a` never selects the XML detector |

## Left out

- The Guzzle middleware and PSR-7 glue are not modelled: `__invoke`, the promise chaining, and `convert` with its stream and `withHeader` calls (src/GuzzleTranscoder.php:56-90). They are plumbing over libraries that are not part of this model.
- The transcoder (`Ddeboer\Transcoder`, mbstring or iconv) is a function parameter. Its lazy creation in `createTranscoder` (src/GuzzleTranscoder.php:45-51) is left out, and so is any conversion table.
- Byte versus character issues are not modelled: texts are character sequences, and case folding is ASCII only.
- PHP turns numeric-string array keys into integers. This is not modelled: keys are always strings.
- The `while ($header)` test that treats a remaining `"0"` as the end of input is modelled, and so is `$` matching before a final line feed in the token pattern.
- The replacements of a body detector are stored in a PHP array keyed by the matched span. Because every detector returns at most one replacement, the model uses a list and no key can collapse.
- The headers are a sequence of pairs. A header value is one string or a list of strings.
- An empty list as the Content-Type value is read as the empty string, as PHP's null concatenates.
- UtilsProperties.SplitJoinRoundTrip: stated only for groups whose keys are `<...>` targets or runs of key characters and whose values have no line feed, and not for a serialization equal to `0`. A plain key may not start with `<`, and since `=` is not a key character, keys that split can produce with leading `=`, such as `==a` (the `=*` of src/Utils.php:95), are excluded even though they read back. Join normalises spacing and quoting, and split cuts a remainder at a line feed, so other groups do not come back unchanged.
- GuzzleTranscoderProperties.ConvertedHeaderDeclaresTarget: requires the parameters the header extractor returned to be reparsable in that sense. Otherwise the rebuilt header may not read back to the same parameters.
- GuzzleTranscoderProperties.HeaderLineReadsBack: requires the same of the parameters, and a MIME type without `;`, which the extractor guarantees.

## Findings

| source | as written | input that shows it | evidently intended | confidence | as-written member | corrected member |
|---|---|---|---|---|---|---|
| src/ContentTypeExtractor.php:73 | the inner pattern lacks the `s` flag, so `before` and `after` stop at a line feed. The new tag is built from that one line, but it replaces the whole matched tag, so the tag's other lines are lost | `<meta` + line feed + `http-equiv="Content-Type" content="text/html; charset=iso-8859-1">`: the replacement drops `<meta` and the line feed | the rewritten tag keeps all of the tag except the attribute's value, as with the `s` flag | not executed | ContentTypeProperties.Html4DropsMetaLine | ContentTypeExtractor.Html4ContentTypeCorrected |
