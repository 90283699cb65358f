/** The charset detectors of src/ContentTypeExtractor.php:
    `getContentTypeFromHeader`, `getContentTypeFromHtml` and
    `getContentTypeFromXml`. Each regular expression is written out as a
    scanner: a leftmost start is the least position that matches
    (`FirstWhere`), a lazy quantifier takes the least length that lets the
    rest match, and a greedy one the greatest (`LastWhere`). */
module ContentTypeExtractor {
  import opened Wrappers
  import opened Text
  import opened Utils

  // ---------------------------------------------------------------------
  // The Content-Type header
  // ---------------------------------------------------------------------

  /** A header's value: one string, or the list of strings PSR-7 keeps. */
  datatype HeaderValue = Single(text: string) | Multi(texts: seq<string>)

  type Headers = seq<Pair<HeaderValue>>

  /** The string the extractor reads: a list contributes its first element.
      Indexing an empty list yields PHP's null, which concatenates as "". */
  function FirstText(v: HeaderValue): (r: string)
    ensures v.Single? ==> r == v.text
    ensures v.Multi? && v.texts != [] ==> r == v.texts[0]
    ensures v.Multi? && v.texts == [] ==> r == ""
  {
    match v
    case Single(t) => t
    case Multi(ts) => if ts == [] then "" else ts[0]
  }

  /** `explode(';', $contentType . ';', 2)`: the MIME type is the text before
      the first `;`, untrimmed; the parameters are everything after it. */
  function MimeAndParams(ct: string): (r: (string, string))
    ensures ';' !in r.0
    ensures ct + ";" == r.0 + ";" + r.1
  {
    var s := ct + ";";
    assert s[|ct|] == ';';
    var i := IndexOf(s, 0, ';');
    assert s == s[..i] + ";" + s[i + 1..];
    (s[..i], s[i + 1..])
  }

  /** The only cut of `ct + ";"` at a `;` with none before it. */
  lemma MimeAndParamsUnique(ct: string, mime: string, params: string)
    requires ';' !in mime && ct + ";" == mime + ";" + params
    ensures MimeAndParams(ct) == (mime, params)
  {
    var r := MimeAndParams(ct);
    var s := ct + ";";
    assert |r.0| == |mime| by {
      assert s[|r.0|] == ';' && s[|mime|] == ';';
      assert forall j :: 0 <= j < |r.0| ==> s[j] == r.0[j];
      assert forall j :: 0 <= j < |mime| ==> s[j] == mime[j];
    }
    assert r.0 == s[..|mime|] == mime;
    assert r.1 == s[|mime| + 1..] == params;
  }

  /** What the header declares: the MIME type, the charset parameter (None
      when absent or without a value) and the parameters with `charset`
      set to the target encoding. */
  datatype HeaderContentType = HeaderContentType(mime: string, encoding: Option<string>, params: Group)

  /** `$parsed[0]` when split produced a group, else the empty array. */
  function FirstGroup(gs: seq<Group>): (r: Group)
    ensures gs != [] ==> r == gs[0]
    ensures gs == [] ==> r == []
  {
    if gs == [] then [] else gs[0]
  }

  /** getContentTypeFromHeader. A parameter list that split cannot read is
      an error rather than a missing header. */
  function GetContentTypeFromHeader(headers: Headers, target: string): (r: Result<Option<HeaderContentType>, SplitError>)
    ensures r == Success(None) <==> GetCI(headers, "content-type").None?
    ensures r.Failure? <==>
      GetCI(headers, "content-type").Some? &&
      Split([MimeAndParams(FirstText(GetCI(headers, "content-type").value)).1]).Failure?
    ensures r.Success? && r.value.Some? ==>
      var ct := FirstText(GetCI(headers, "content-type").value);
      var h := r.value.value;
      var parsed := FirstGroup(Split([MimeAndParams(ct).1]).value);
      ct + ";" == h.mime + ";" + MimeAndParams(ct).1 && ';' !in h.mime &&
      h.encoding == GetWord(parsed, "charset") &&
      h.params == SetCI(parsed, "charset", Some(target)) &&
      GetCI(h.params, "charset") == Some(Some(target)) &&
      (forall k :: !CaseEq(k, "charset") ==> GetCI(h.params, k) == GetCI(parsed, k))
  {
    match GetCI(headers, "content-type")
    case None => Success(None)
    case Some(v) =>
      var (mime, params) := MimeAndParams(FirstText(v));
      match Split([params])
      case Failure(e) => Failure(e)
      case Success(gs) =>
        var parsed := FirstGroup(gs);
        Success(Some(HeaderContentType(mime, GetWord(parsed, "charset"), SetCI(parsed, "charset", Some(target)))))
  }

  // ---------------------------------------------------------------------
  // Declarations in the body
  // ---------------------------------------------------------------------

  /** A matched declaration cut into the pattern's groups: the text before
      the keyword, the keyword with its `=` and white space as written, the
      quote character (empty when unquoted), the declared value and the rest
      of the match. */
  datatype Declaration = Declaration(before: string, keyword: string, quote: string, value: string, after: string)
  {
    /** The matched text. */
    function Text(): string {
      before + keyword + quote + value + quote + after
    }

    /** The replacement: keyword `name=` in lower case without white
        space, the same quotes, the new value. */
    function Rewritten(name: string, v: string): string {
      before + name + "=" + quote + v + quote + after
    }
  }

  /** The detectors' result: the declared encoding and the replacements
      (matched text, new text), in the order PHP's array keeps them. */
  datatype BodyContentType = BodyContentType(encoding: Option<string>, replacements: seq<Pair<string>>)

  function NoDeclaration(): BodyContentType {
    BodyContentType(None, [])
  }

  predicate IsQuote(c: char) {
    c == '"' || c == '\''
  }

  /** `name\s*=\s*` as written: the keyword in any case, then `=` with
      optional white space on both sides. */
  predicate IsAssignment(a: string, name: string) {
    StartsWithCI(a, 0, name) &&
    var i := IndexOf(a, |name|, '=');
    i < |a| && forall j :: |name| <= j < |a| && j != i ==> IsSpace(a[j])
  }

  /** The quote of a declaration: none, or one `"` or `'`. */
  predicate IsQuoteText(q: string) {
    q == "" || (|q| == 1 && IsQuote(q[0]))
  }

  /** The end of a tag, `[^>]*?>`: text without `>` up to the first `>`. */
  predicate IsTagRest(s: string) {
    |s| > 0 && s[|s| - 1] == '>' && forall i :: 0 <= i < |s| - 1 ==> s[i] != '>'
  }

  /** A declaration found at `s` in `c`: its text occurs there. */
  predicate FoundAt(c: string, s: nat, d: Declaration) {
    s + |d.Text()| <= |c| && c[s..s + |d.Text()|] == d.Text()
  }

  lemma Slices(c: string, i: nat, j: nat, k: nat)
    requires i <= j <= k <= |c|
    ensures c[i..j] + c[j..k] == c[i..k]
  {
  }

  /** Six consecutive slices of `c` whose third and fifth are single
      characters, equal to each other: a quoted declaration. */
  lemma QuotedSlices(c: string, s: nat, p: nat, b: nat, r: nat, e: nat)
    requires s <= p <= b < r < e <= |c| && c[b] == c[r] && b + 1 <= r
    ensures c[s..p] + c[p..b] + [c[b]] + c[b + 1..r] + [c[b]] + c[r + 1..e] == c[s..e]
  {
    assert c[b..b + 1] == [c[b]];
    assert c[r..r + 1] == [c[b]];
    Slices(c, r, r + 1, e);
    Slices(c, b + 1, r, e);
    Slices(c, b, b + 1, e);
    Slices(c, p, b, e);
    Slices(c, s, p, e);
  }

  /** Five consecutive slices, the third empty: an unquoted declaration. */
  lemma BareSlices(c: string, s: nat, p: nat, b: nat, r: nat, e: nat)
    requires s <= p <= b <= r <= e <= |c|
    ensures c[s..p] + c[p..b] + "" + c[b..r] + "" + c[r..e] == c[s..e]
  {
    Slices(c, b, r, e);
    Slices(c, p, b, e);
    Slices(c, s, p, e);
  }

  /** Where a `.` run that starts at `i` must stop: the end of the line, or
      the end of the text when `.` also matches a line feed (flag `s`). */
  function DotEnd(m: string, i: nat, dotAll: bool): (r: nat)
    requires i <= |m|
    ensures i <= r <= |m|
    ensures forall j :: i <= j < r ==> dotAll || m[j] != '\n'
    ensures r < |m| ==> !dotAll && m[r] == '\n'
  {
    if dotAll then |m| else LineEnd(m, i)
  }

  /** `name\s*=\s*` at `p`: where the value starts, past the white space. */
  function AssignmentAt(c: string, p: nat, name: string): (b: Option<nat>)
    requires p <= |c|
    ensures b.Some? ==> p + |name| < b.value <= |c| && IsAssignment(c[p..b.value], name)
    ensures b.Some? && b.value < |c| ==> !IsSpace(c[b.value])
  {
    if !StartsWithCI(c, p, name) then None
    else
      var a := SkipWhile(c, p + |name|, IsSpace);
      if a == |c| || c[a] != '=' then None
      else
        var b := SkipWhile(c, a + 1, IsSpace);
        AssignmentSlice(c, p, name, a, b);
        Some(b)
  }

  lemma AssignmentSlice(c: string, p: nat, name: string, a: nat, b: nat)
    requires StartsWithCI(c, p, name)
    requires a == SkipWhile(c, p + |name|, IsSpace) && a < |c| && c[a] == '='
    requires b == SkipWhile(c, a + 1, IsSpace)
    ensures IsAssignment(c[p..b], name)
  {
    var w := c[p..b];
    assert forall j :: 0 <= j < |w| ==> w[j] == c[p + j];
    IndexOfAt(w, |name|, '=', a - p);
  }

  /** The rest of a tag from `i`, `[^>]*?>`, ends at the first `>`. */
  lemma TagRestTo(c: string, i: nat)
    requires i <= |c| && IndexOf(c, i, '>') < |c|
    ensures IsTagRest(c[i..IndexOf(c, i, '>') + 1])
  {
  }

  // ---------------------------------------------------------------------
  // PATTERN_HTML4 and the `content` attribute inside the matched tag
  // ---------------------------------------------------------------------

  /** `http-equiv\s*=\s*(["']?)content-type\g{quote}` at `p`: a quote that
      opens must close, and without one the value starts right away. */
  predicate HttpEquivAt(c: string, p: nat)
    requires p <= |c|
  {
    match AssignmentAt(c, p, "http-equiv")
    case None => false
    case Some(b) =>
      if b < |c| && IsQuote(c[b]) then
        StartsWithCI(c, b + 1, "content-type") && b + 13 < |c| && c[b + 13] == c[b]
      else
        StartsWithCI(c, b, "content-type")
  }

  /** Index of the `>` that ends a tag opened at `s`. */
  function TagEnd(c: string, s: nat): (e: nat)
    requires s + 5 <= |c|
    ensures s + 5 <= e <= |c|
    ensures forall j :: s + 5 <= j < e ==> c[j] != '>'
    ensures e < |c| ==> c[e] == '>'
  {
    IndexOf(c, s + 5, '>')
  }

  /** An http-equiv declaration starts somewhere in [lo, hi). */
  predicate HttpEquivIn(c: string, lo: nat, hi: nat)
    requires hi <= |c|
    decreases hi - lo
  {
    lo < hi && (HttpEquivAt(c, lo) || HttpEquivIn(c, lo + 1, hi))
  }

  /** PATTERN_HTML4 at `s`: `<meta`, at least one character, an http-equiv
      content-type declaration, all before the first `>`. Both `[^>]`
      quantifiers stop at that `>`, so the match is the tag up to it. */
  predicate Html4At(c: string, s: nat) {
    StartsWithCI(c, s, "<meta") && TagEnd(c, s) < |c| && HttpEquivIn(c, s + 6, TagEnd(c, s))
  }

  /** The leftmost match of PATTERN_HTML4. */
  function Html4Start(c: string): (r: Option<nat>)
    ensures r.Some? ==> r.value < |c| && Html4At(c, r.value)
    ensures r.Some? ==> forall s :: 0 <= s < r.value ==> !Html4At(c, s)
    ensures r.None? ==> forall s :: 0 <= s < |c| ==> !Html4At(c, s)
  {
    var p := (s: nat) => Html4At(c, s);
    var r := FirstWhere(0, |c|, p);
    assert forall s :: 0 <= s < |c| && !p(s) ==> !Html4At(c, s);
    r
  }

  /** `$match[0]` of PATTERN_HTML4: the tag from `<meta` to its first `>`. */
  function Html4Tag(c: string, s: nat): (m: string)
    requires Html4At(c, s)
    ensures StartsWithCI(m, 0, "<meta") && IsTagRest(m[5..])
    ensures s + |m| <= |c| && c[s..s + |m|] == m
  {
    var e := TagEnd(c, s);
    var m := c[s..e + 1];
    assert forall j :: 0 <= j < 5 ==> m[j] == c[s + j];
    assert m[5..] == c[s + 5..e + 1];
    TagRestTo(c, s + 5);
    m
  }

  /** `content\s*=\s*(["'])(.*?)\g{quote}` at `k` of the tag `m`: the index
      of the opening quote and of the closing one; the lazy `.*?` stops at
      the first same quote, and cannot pass a line feed unless `dotAll`. */
  function ContentValueAt(m: string, k: nat, dotAll: bool): (r: Option<(nat, nat)>)
    requires k <= |m|
    ensures r.Some? ==> k + 7 < r.value.0 < r.value.1 < |m|
    ensures r.Some? ==> IsQuote(m[r.value.0]) && m[r.value.1] == m[r.value.0]
    ensures r.Some? ==> StartsWithCI(m, k, "content") && IsAssignment(m[k..r.value.0], "content")
    ensures r.Some? ==> forall j :: r.value.0 < j < r.value.1 ==> m[j] != m[r.value.0] && (dotAll || m[j] != '\n')
  {
    match AssignmentAt(m, k, "content")
    case None => None
    case Some(b) =>
      if b == |m| || !IsQuote(m[b]) then None
      else
        var q := IndexOf(m, b + 1, m[b]);
        if q < DotEnd(m, b + 1, dotAll) then Some((b, q)) else None
  }

  /** `(?P<before>.*)content...` from `t`: the greedy `.*` takes the last
      keyword it can reach before the `.` run stops. */
  function ContentKeyword(m: string, t: nat, dotAll: bool): (r: Option<nat>)
    requires t <= |m|
    ensures r.Some? ==> t <= r.value < DotEnd(m, t, dotAll) && ContentValueAt(m, r.value, dotAll).Some?
    ensures r.Some? ==> forall k :: r.value < k < DotEnd(m, t, dotAll) ==> ContentValueAt(m, k, dotAll).None?
    ensures r.None? ==> forall k :: t <= k < DotEnd(m, t, dotAll) ==> ContentValueAt(m, k, dotAll).None?
  {
    var hi := DotEnd(m, t, dotAll);
    var p := (k: nat) => k <= |m| && ContentValueAt(m, k, dotAll).Some?;
    var r := LastWhere(t, hi, p);
    assert forall k :: t <= k < hi && !p(k) ==> ContentValueAt(m, k, dotAll).None?;
    r
  }

  /** Where the content pattern's match starts: the least start from which
      a keyword can be reached. */
  function ContentStart(m: string, dotAll: bool): (r: Option<nat>)
    ensures r.Some? ==> r.value < |m| && ContentKeyword(m, r.value, dotAll).Some?
    ensures r.Some? ==> forall t :: 0 <= t < r.value ==> ContentKeyword(m, t, dotAll).None?
    ensures r.None? ==> forall t :: 0 <= t < |m| ==> ContentKeyword(m, t, dotAll).None?
  {
    var p := (t: nat) => t <= |m| && ContentKeyword(m, t, dotAll).Some?;
    var r := FirstWhere(0, |m|, p);
    assert forall t :: 0 <= t < |m| && !p(t) ==> ContentKeyword(m, t, dotAll).None?;
    r
  }

  /** No line feed in the text. */
  predicate SingleLine(s: string) {
    forall j :: 0 <= j < |s| ==> s[j] != '\n'
  }

  /** The match of the content pattern that starts at `t` of the tag `m`,
      cut into its groups; `after` is the `(.*)` after the closing quote. */
  function ContentMatchAt(m: string, t: nat, dotAll: bool): (d: Declaration)
    requires t <= |m| && ContentKeyword(m, t, dotAll).Some?
    ensures FoundAt(m, t, d)
    ensures IsAssignment(d.keyword, "content") && |d.quote| == 1 && IsQuote(d.quote[0])
    ensures !dotAll ==> SingleLine(d.before) && SingleLine(d.after)
    ensures t + |d.Text()| == DotEnd(m, t + |d.Text()| - |d.after|, dotAll)
  {
    var k := ContentKeyword(m, t, dotAll).value;
    var (b, q) := ContentValueAt(m, k, dotAll).value;
    var e := DotEnd(m, q + 1, dotAll);
    ContentDeclarationIs(m, t, k, b, q, e, dotAll);
    Declaration(m[t..k], m[k..b], [m[b]], m[b + 1..q], m[q + 1..e])
  }

  /** The declaration cut at the scanners' positions is the matched text. */
  lemma ContentDeclarationIs(m: string, t: nat, k: nat, b: nat, q: nat, e: nat, dotAll: bool)
    requires t <= k < b < q < |m| && k < DotEnd(m, t, dotAll) && m[q] == m[b]
    requires e == DotEnd(m, q + 1, dotAll)
    ensures var d := Declaration(m[t..k], m[k..b], [m[b]], m[b + 1..q], m[q + 1..e]);
      FoundAt(m, t, d) && t + |d.Text()| == e && |d.Text()| - |d.after| == q + 1 - t &&
      (!dotAll ==> SingleLine(d.before) && SingleLine(d.after))
  {
    QuotedSlices(m, t, k, b, q, e);
  }

  /** The match of the content pattern on the tag `m`: its leftmost start,
      and the declaration found there. */
  function ContentAttributeIn(m: string, dotAll: bool): (r: Option<Declaration>)
    ensures r.None? <==> ContentStart(m, dotAll).None?
    ensures r.Some? ==> r.value == ContentMatchAt(m, ContentStart(m, dotAll).value, dotAll)
  {
    match ContentStart(m, dotAll)
    case None => None
    case Some(t) => Some(ContentMatchAt(m, t, dotAll))
  }

  /** The inner pattern of getContentTypeFromHtml as written, without the
      `s` flag: `before` and `after` cannot cross a line feed, so the match
      starts on the first line that holds a `content=` attribute. */
  function ContentAttributeAsWritten(m: string): (r: Option<Declaration>)
    ensures r.Some? ==> IsAssignment(r.value.keyword, "content") && exists t :: FoundAt(m, t, r.value)
    ensures r.Some? ==> SingleLine(r.value.before) && SingleLine(r.value.after)
  {
    var r := ContentAttributeIn(m, false);
    assert r.Some? ==> FoundAt(m, ContentStart(m, false).value, r.value);
    r
  }

  /** The inner pattern with `.` also matching a line feed: `before` runs
      from the start of the tag and `after` to its end, so the match is the
      whole tag and only the attribute is rewritten. */
  function ContentAttribute(m: string): (r: Option<Declaration>)
    ensures r.Some? ==> IsAssignment(r.value.keyword, "content") && r.value.Text() == m
    ensures r.None? <==> forall k :: 0 <= k < |m| ==> ContentValueAt(m, k, true).None?
  {
    var r := ContentAttributeIn(m, true);
    match ContentStart(m, true)
    case Some(t) =>
      assert t == 0;
      assert m[0..|m|] == m;
      r
    case None =>
      assert |m| > 0 ==> ContentKeyword(m, 0, true).None?;
      r
  }

  // ---------------------------------------------------------------------
  // PATTERN_HTML5
  // ---------------------------------------------------------------------

  /** `[^"' ]`: a character of a quoted HTML5 charset. */
  predicate IsQuotedCharsetChar(x: char) {
    x != '"' && x != '\'' && x != ' '
  }

  /** `[^"'=<>`\s]`: a character of an unquoted HTML5 charset. */
  predicate IsBareCharsetChar(x: char) {
    !IsSpace(x) && x != '"' && x != '\'' && x != '=' && x != '<' && x != '>' && x != '`'
  }

  /** `(["'])([^"' ]+?)\g{quote}` at `b`: the lazy run ends at the first
      character outside its class, which must be the same quote. */
  function QuotedCharsetEnd(c: string, b: nat): (r: Option<nat>)
    requires b < |c| && IsQuote(c[b])
    ensures r.Some? ==> b + 1 < r.value < |c| && c[r.value] == c[b]
    ensures r.Some? ==> forall j :: b < j < r.value ==> IsQuotedCharsetChar(c[j])
  {
    var r := SkipWhile(c, b + 1, IsQuotedCharsetChar);
    if b + 1 < r < |c| && c[r] == c[b] then Some(r) else None
  }

  /** `([^"'=<>`\s]+)` at `b`: where the greedy run ends. */
  function BareCharsetEnd(c: string, b: nat): (r: Option<nat>)
    requires b <= |c|
    ensures r.Some? ==> b < r.value <= |c|
    ensures r.Some? ==> forall j :: b <= j < r.value ==> IsBareCharsetChar(c[j])
    ensures r.Some? && r.value < |c| ==> !IsBareCharsetChar(c[r.value])
  {
    var r := SkipWhile(c, b, IsBareCharsetChar);
    if b < r then Some(r) else None
  }

  /** What PATTERN_HTML5 demands of the part of a match from `charset` on:
      the keyword as an assignment; a quoted value of `[^"' ]` characters,
      or an unquoted value of `[^"'=<>`\s]` characters that the greedy run
      took whole; then the rest of the tag up to its first `>`. */
  predicate Html5Shape(d: Declaration) {
    IsAssignment(d.keyword, "charset") && IsQuoteText(d.quote) && d.value != [] && IsTagRest(d.after) &&
    if d.quote == "" then
      (forall j :: 0 <= j < |d.value| ==> IsBareCharsetChar(d.value[j])) && !IsBareCharsetChar(d.after[0])
    else
      forall j :: 0 <= j < |d.value| ==> IsQuotedCharsetChar(d.value[j])
  }

  /** A quoted declaration found at `s`: the keyword from `p`, the quotes at
      `b` and `r`, then `[^>]*?>` up to the first `>` after them. */
  function QuotedDeclaration(c: string, s: nat, p: nat, b: nat, r: nat): (d: Declaration)
    requires s <= p <= b && b + 1 < r < |c| && c[r] == c[b] && IsQuote(c[b])
    requires IndexOf(c, r + 1, '>') < |c|
    ensures FoundAt(c, s, d) && d.before == c[s..p] && d.keyword == c[p..b]
    ensures d.quote == [c[b]] && d.value == c[b + 1..r] && IsTagRest(d.after)
  {
    var e := IndexOf(c, r + 1, '>');
    QuotedSlices(c, s, p, b, r, e + 1);
    TagRestTo(c, r + 1);
    Declaration(c[s..p], c[p..b], [c[b]], c[b + 1..r], c[r + 1..e + 1])
  }

  /** An unquoted declaration found at `s`: the keyword from `p`, the value
      in [b, r), then `[^>]*?>` up to the first `>` after it. */
  function BareDeclaration(c: string, s: nat, p: nat, b: nat, r: nat): (d: Declaration)
    requires s <= p <= b < r <= |c| && IndexOf(c, r, '>') < |c|
    ensures FoundAt(c, s, d) && d.before == c[s..p] && d.keyword == c[p..b]
    ensures d.quote == "" && d.value == c[b..r] && IsTagRest(d.after)
  {
    var e := IndexOf(c, r, '>');
    BareSlices(c, s, p, b, r, e + 1);
    TagRestTo(c, r);
    Declaration(c[s..p], c[p..b], "", c[b..r], c[r..e + 1])
  }

  /** The quoted alternative of PATTERN_HTML5, its value opening at `b`. */
  function QuotedCharsetAt(c: string, s: nat, p: nat, b: nat): (r: Option<Declaration>)
    requires s <= p <= b < |c| && IsQuote(c[b]) && IsAssignment(c[p..b], "charset")
    ensures r.Some? ==> FoundAt(c, s, r.value) && r.value.before == c[s..p] && Html5Shape(r.value)
  {
    match QuotedCharsetEnd(c, b)
    case None => None
    case Some(r) =>
      if IndexOf(c, r + 1, '>') < |c| then
        var d := QuotedDeclaration(c, s, p, b, r);
        assert forall j :: 0 <= j < |d.value| ==> d.value[j] == c[b + 1 + j];
        Some(d)
      else None
  }

  /** The unquoted alternative of PATTERN_HTML5, its value starting at `b`. */
  function BareCharsetAt(c: string, s: nat, p: nat, b: nat): (r: Option<Declaration>)
    requires s <= p <= b <= |c| && IsAssignment(c[p..b], "charset")
    ensures r.Some? ==> FoundAt(c, s, r.value) && r.value.before == c[s..p] && Html5Shape(r.value)
  {
    match BareCharsetEnd(c, b)
    case None => None
    case Some(r) =>
      if IndexOf(c, r, '>') < |c| then
        var d := BareDeclaration(c, s, p, b, r);
        assert forall j :: 0 <= j < |d.value| ==> d.value[j] == c[b + j];
        assert d.after[0] == c[r];
        Some(d)
      else None
  }

  /** The part of PATTERN_HTML5 from `charset` at `p`, for a tag opened at
      `s`: `charset\s*=\s*`, a quoted or an unquoted value, then `[^>]*?>`.
      When the quoted alternative fails, the unquoted one cannot start at a
      quote, and giving back white space to `\s*` leaves neither able to
      start, so the value's first character decides. */
  function CharsetAt(c: string, s: nat, p: nat): (r: Option<Declaration>)
    requires s <= p <= |c|
    ensures r.Some? ==> FoundAt(c, s, r.value) && r.value.before == c[s..p] && Html5Shape(r.value)
  {
    match AssignmentAt(c, p, "charset")
    case None => None
    case Some(b) =>
      if b < |c| && IsQuote(c[b]) then QuotedCharsetAt(c, s, p, b) else BareCharsetAt(c, s, p, b)
  }

  /** The lazy `[^>]+?` of PATTERN_HTML5 for a tag opened at `s`: the least
      `charset` position in [p, hi) from which the rest matches. */
  function FirstCharset(c: string, s: nat, p: nat, hi: nat): (r: Option<nat>)
    requires s <= p && hi <= |c|
    ensures r.Some? ==> p <= r.value < hi && CharsetAt(c, s, r.value).Some?
    ensures r.Some? ==> forall j :: p <= j < r.value ==> CharsetAt(c, s, j).None?
    ensures r.None? ==> forall j :: p <= j < hi ==> CharsetAt(c, s, j).None?
  {
    var f := (j: nat) => s <= j <= |c| && CharsetAt(c, s, j).Some?;
    var r := FirstWhere(p, hi, f);
    assert forall j :: p <= j < hi && !f(j) ==> CharsetAt(c, s, j).None?;
    r
  }

  /** PATTERN_HTML5 at `s`: `<meta`, then the lazy `[^>]+?` takes the
      shortest run before a `charset` declaration that matches. */
  function Html5At(c: string, s: nat): (r: Option<Declaration>)
    ensures r.Some? ==> FoundAt(c, s, r.value) && Html5Shape(r.value)
    ensures r.Some? ==> StartsWithCI(c, s, "<meta") && s + 5 < s + |r.value.before| < TagEnd(c, s)
  {
    if !StartsWithCI(c, s, "<meta") then None
    else
      match FirstCharset(c, s, s + 6, TagEnd(c, s))
      case None => None
      case Some(p) =>
        CharsetAt(c, s, p)
  }

  /** The leftmost match of PATTERN_HTML5, with its start. */
  function Html5Match(c: string): (r: Option<(nat, Declaration)>)
    ensures r.Some? ==> r.value.0 < |c| && Html5At(c, r.value.0) == Some(r.value.1)
    ensures r.Some? ==> forall s :: 0 <= s < r.value.0 ==> Html5At(c, s).None?
    ensures r.None? ==> forall s :: 0 <= s < |c| ==> Html5At(c, s).None?
  {
    var p := (s: nat) => Html5At(c, s).Some?;
    var r := FirstWhere(0, |c|, p);
    assert forall s :: 0 <= s < |c| && !p(s) ==> Html5At(c, s).None?;
    match r
    case None => None
    case Some(s) => Some((s, Html5At(c, s).value))
  }

  /** The http-equiv branch on the matched tag `m`, given the inner match
      `inner`: its `content` value is split as a header parameter list, the
      charset read and set to the target, and the whole tag is replaced by
      the inner match with the joined parameters as its `content`. */
  function Html4Rewrite(m: string, inner: Option<Declaration>, target: string): (r: Result<BodyContentType, SplitError>)
    ensures r == Success(NoDeclaration()) <==> inner.None?
    ensures r.Failure? <==> inner.Some? && Split([inner.value.value]).Failure?
    ensures r.Success? && inner.Some? ==>
      var parsed := FirstGroup(Split([inner.value.value]).value);
      r.value.encoding == GetWord(parsed, "charset") &&
      r.value.replacements == [Pair(m, inner.value.Rewritten("content", Join([SetCI(parsed, "charset", Some(target))])))]
  {
    match inner
    case None => Success(NoDeclaration())
    case Some(d) =>
      match Split([d.value])
      case Failure(e) => Failure(e)
      case Success(gs) =>
        var parsed := FirstGroup(gs);
        var updated := SetCI(parsed, "charset", Some(target));
        Success(BodyContentType(GetWord(parsed, "charset"), [Pair(m, d.Rewritten("content", Join([updated])))]))
  }

  /** The http-equiv branch of getContentTypeFromHtml as written: the inner
      pattern has no `s` flag, so the replacement for the whole tag is built
      from the inner match alone, which cannot cross a line feed. */
  function Html4ContentType(m: string, target: string): (r: Result<BodyContentType, SplitError>)
    ensures r == Success(NoDeclaration()) <==> ContentAttributeAsWritten(m).None?
    ensures r.Failure? <==>
      ContentAttributeAsWritten(m).Some? && Split([ContentAttributeAsWritten(m).value.value]).Failure?
    ensures r.Success? && ContentAttributeAsWritten(m).Some? ==>
      var d := ContentAttributeAsWritten(m).value;
      var parsed := FirstGroup(Split([d.value]).value);
      r.value.encoding == GetWord(parsed, "charset") &&
      r.value.replacements == [Pair(m, d.Rewritten("content", Join([SetCI(parsed, "charset", Some(target))])))]
  {
    Html4Rewrite(m, ContentAttributeAsWritten(m), target)
  }

  /** The http-equiv branch with the `s` flag the inner pattern evidently
      needs: the replacement is the whole tag with only its `content` value
      changed. */
  function Html4ContentTypeCorrected(m: string, target: string): (r: Result<BodyContentType, SplitError>)
    ensures r == Success(NoDeclaration()) <==> ContentAttribute(m).None?
    ensures r.Failure? <==> ContentAttribute(m).Some? && Split([ContentAttribute(m).value.value]).Failure?
    ensures r.Success? && ContentAttribute(m).Some? ==>
      var d := ContentAttribute(m).value;
      var parsed := FirstGroup(Split([d.value]).value);
      d.Text() == m &&
      r.value.encoding == GetWord(parsed, "charset") &&
      r.value.replacements == [Pair(m, d.Rewritten("content", Join([SetCI(parsed, "charset", Some(target))])))]
  {
    Html4Rewrite(m, ContentAttribute(m), target)
  }

  /** The HTML5 branch of getContentTypeFromHtml: the declared value is the
      charset, and the matched text is replaced by itself with the target
      as the charset. */
  function Html5ContentType(c: string, target: string): (r: BodyContentType)
    ensures r == NoDeclaration() <==> Html5Match(c).None?
    ensures r.encoding.Some? <==> |r.replacements| == 1
    ensures |r.replacements| <= 1
    ensures r.replacements != [] ==>
      Html5Match(c).Some? && r.replacements[0].key == Html5Match(c).value.1.Text() &&
      r.encoding == Some(Html5Match(c).value.1.value) &&
      r.replacements[0].value == Html5Match(c).value.1.Rewritten("charset", target)
  {
    match Html5Match(c)
    case None => NoDeclaration()
    case Some((s, d)) =>
      BodyContentType(Some(d.value), [Pair(d.Text(), d.Rewritten("charset", target))])
  }

  /** getContentTypeFromHtml. The http-equiv form is looked for first; when
      it is found, the HTML5 form is not, even if the tag's `content`
      attribute cannot be read. */
  function GetContentTypeFromHtml(c: string, target: string): (r: Result<BodyContentType, SplitError>)
    ensures Html4Start(c).Some? ==> r == Html4ContentType(Html4Tag(c, Html4Start(c).value), target)
    ensures Html4Start(c).None? ==> r == Success(Html5ContentType(c, target))
    ensures r.Success? ==> |r.value.replacements| <= 1
  {
    match Html4Start(c)
    case Some(s) => Html4ContentType(Html4Tag(c, s), target)
    case None => Success(Html5ContentType(c, target))
  }

  // ---------------------------------------------------------------------
  // The XML declaration
  // ---------------------------------------------------------------------

  /** `[^"']`: a character of an XML encoding name as the pattern reads it. */
  predicate IsEncodingChar(x: char) {
    !IsQuote(x)
  }

  /** What the XML pattern demands of the part of a match from `encoding=`
      on: that keyword exactly, with no white space; a quoted value without
      quotes of either kind; then the rest of the declaration up to its
      first `>`. */
  predicate XmlShape(d: Declaration) {
    StartsWithCI(d.keyword, 0, "encoding=") && |d.keyword| == 9 &&
    |d.quote| == 1 && IsQuote(d.quote[0]) && d.value != [] &&
    (forall j :: 0 <= j < |d.value| ==> IsEncodingChar(d.value[j])) && IsTagRest(d.after)
  }

  /** `encoding=(["'])([^"']+?)\2([^>]*?>)` at `p`, for a declaration opened
      at `s`: no white space around `=`, and the value cannot hold a quote
      of either kind. */
  function EncodingAt(c: string, s: nat, p: nat): (r: Option<Declaration>)
    requires s <= p <= |c|
    ensures r.Some? ==> FoundAt(c, s, r.value) && r.value.before == c[s..p] && XmlShape(r.value)
  {
    if !StartsWithCI(c, p, "encoding=") || p + 9 == |c| || !IsQuote(c[p + 9]) then None
    else
      var b := p + 9;
      var r := SkipWhile(c, b + 1, IsEncodingChar);
      if b + 1 < r < |c| && c[r] == c[b] && IndexOf(c, r + 1, '>') < |c| then
        var d := QuotedDeclaration(c, s, p, b, r);
        assert forall j :: 0 <= j < 9 ==> d.keyword[j] == c[p + j];
        assert forall j :: 0 <= j < |d.value| ==> d.value[j] == c[b + 1 + j];
        Some(d)
      else None
  }

  /** The lazy `[^>]+?` of the XML pattern for a declaration opened at `s`. */
  function FirstEncoding(c: string, s: nat, p: nat, hi: nat): (r: Option<nat>)
    requires s <= p && hi <= |c|
    ensures r.Some? ==> p <= r.value < hi && EncodingAt(c, s, r.value).Some?
    ensures r.Some? ==> forall j :: p <= j < r.value ==> EncodingAt(c, s, j).None?
    ensures r.None? ==> forall j :: p <= j < hi ==> EncodingAt(c, s, j).None?
  {
    var f := (j: nat) => s <= j <= |c| && EncodingAt(c, s, j).Some?;
    var r := FirstWhere(p, hi, f);
    assert forall j :: p <= j < hi && !f(j) ==> EncodingAt(c, s, j).None?;
    r
  }

  /** The XML pattern at `s`: `<?xml`, then the lazy `[^>]+?` takes the
      shortest run before an encoding declaration that matches. */
  function XmlAt(c: string, s: nat): (r: Option<Declaration>)
    ensures r.Some? ==> FoundAt(c, s, r.value) && XmlShape(r.value)
    ensures r.Some? ==> StartsWithCI(c, s, "<?xml") && s + 5 < s + |r.value.before| < TagEnd(c, s)
  {
    if !StartsWithCI(c, s, "<?xml") then None
    else
      match FirstEncoding(c, s, s + 6, TagEnd(c, s))
      case None => None
      case Some(p) =>
        EncodingAt(c, s, p)
  }

  /** The leftmost match of the XML pattern, with its start. */
  function XmlMatch(c: string): (r: Option<(nat, Declaration)>)
    ensures r.Some? ==> r.value.0 < |c| && XmlAt(c, r.value.0) == Some(r.value.1)
    ensures r.Some? ==> forall s :: 0 <= s < r.value.0 ==> XmlAt(c, s).None?
    ensures r.None? ==> forall s :: 0 <= s < |c| ==> XmlAt(c, s).None?
  {
    var p := (s: nat) => XmlAt(c, s).Some?;
    var r := FirstWhere(0, |c|, p);
    assert forall s :: 0 <= s < |c| && !p(s) ==> XmlAt(c, s).None?;
    match r
    case None => None
    case Some(s) => Some((s, XmlAt(c, s).value))
  }

  /** getContentTypeFromXml: the leftmost declaration, if any. */
  function GetContentTypeFromXml(c: string, target: string): (r: BodyContentType)
    ensures r == NoDeclaration() <==> XmlMatch(c).None?
    ensures r.encoding.Some? <==> |r.replacements| == 1
    ensures |r.replacements| <= 1
    ensures r.replacements != [] ==>
      XmlMatch(c).Some? && r.replacements[0].key == XmlMatch(c).value.1.Text() &&
      r.encoding == Some(XmlMatch(c).value.1.value) &&
      r.replacements[0].value == XmlMatch(c).value.1.Rewritten("encoding", target)
  {
    match XmlMatch(c)
    case None => NoDeclaration()
    case Some((s, d)) =>
      BodyContentType(Some(d.value), [Pair(d.Text(), d.Rewritten("encoding", target))])
  }
}
