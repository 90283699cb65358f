/** Properties of the charset detectors: what a match looks like, that a
    rewritten declaration reads back as the target, the unquoted-value
    solidus rule, and the loss of text in the http-equiv rewrite of a tag
    that spans lines. */
module ContentTypeProperties {
  import opened Wrappers
  import opened Text
  import opened Utils
  import opened UtilsProperties
  import opened ContentTypeExtractor

  // ---------------------------------------------------------------------
  // The span a body detector matched
  // ---------------------------------------------------------------------

  /** A declaration found at `s` behind an opening literal of five
      characters, with `before` inside the tag and `after` ending it. */
  lemma {:induction false} MatchIsTag(c: string, s: nat, d: Declaration, lit: string)
    requires |lit| == 5 && StartsWithCI(c, s, lit) && forall j :: 0 <= j < 5 ==> lit[j] != '>'
    requires FoundAt(c, s, d) && s + 5 < s + |d.before| < TagEnd(c, s) && IsTagRest(d.after)
    ensures OccursAt(c, d.Text(), s)
    ensures StartsWithCI(d.Text(), 0, lit)
    ensures forall j :: 0 <= j < |d.before| ==> d.before[j] != '>'
    ensures d.Text()[|d.Text()| - 1] == '>'
  {
    var t := d.Text();
    assert forall j :: 0 <= j < |t| ==> t[j] == c[s..s + |t|][j] == c[s + j];
    assert forall j :: 0 <= j < |d.before| ==> d.before[j] == t[j];
    forall j | 0 <= j < |d.before| ensures d.before[j] != '>' {
      if j < 5 {
        assert LowerChar(c[s + j]) == lit[j];
      } else {
        assert s + 5 <= s + j < TagEnd(c, s);
      }
    }
    assert t[|t| - 1] == d.after[|d.after| - 1];
  }

  /** An HTML5 match is a substring of the input that starts with `<meta`,
      has no `>` before the `charset` keyword and ends with `>`. */
  lemma Html5MatchIsMetaTag(c: string, s: nat, d: Declaration)
    requires Html5At(c, s) == Some(d)
    ensures OccursAt(c, d.Text(), s)
    ensures StartsWithCI(d.Text(), 0, "<meta")
    ensures forall j :: 0 <= j < |d.before| ==> d.before[j] != '>'
    ensures d.Text()[|d.Text()| - 1] == '>'
  {
    OpeningLiterals();
    MatchIsTag(c, s, d, "<meta");
  }

  /** The same for an XML declaration, which starts with `<?xml`. */
  lemma XmlMatchIsDeclaration(c: string, s: nat, d: Declaration)
    requires XmlAt(c, s) == Some(d)
    ensures OccursAt(c, d.Text(), s)
    ensures StartsWithCI(d.Text(), 0, "<?xml")
    ensures forall j :: 0 <= j < |d.before| ==> d.before[j] != '>'
    ensures d.Text()[|d.Text()| - 1] == '>'
  {
    OpeningLiterals();
    MatchIsTag(c, s, d, "<?xml");
  }

  lemma OpeningLiterals()
    ensures forall j :: 0 <= j < 5 ==> "<meta"[j] != '>' && "<?xml"[j] != '>'
  {
  }

  // ---------------------------------------------------------------------
  // A rewritten declaration declares the target
  // ---------------------------------------------------------------------

  /** The rewritten quoted meta tag, cut where the charset scanner looks. */
  lemma QuotedRewrittenParts(d: Declaration, target: string)
    requires |d.quote| == 1
    ensures var n := d.Rewritten("charset", target);
      var p := |d.before|;
      |n| == p + 10 + |target| + |d.after| && n[0..p] == d.before &&
      (forall j :: 0 <= j < 7 ==> n[p + j] == "charset"[j]) && n[p + 7] == '=' &&
      n[p + 8] == d.quote[0] && n[p + 9 + |target|] == d.quote[0] &&
      (forall j :: 0 <= j < |target| ==> n[p + 9 + j] == target[j]) &&
      (forall j :: 0 <= j < |d.after| ==> n[p + 10 + |target| + j] == d.after[j])
  {
    var n := d.Rewritten("charset", target);
    assert n == d.before + "charset" + "=" + d.quote + target + d.quote + d.after;
  }

  /** The lower-case literals read as themselves. */
  lemma LiteralAt(n: string, p: nat, lit: string)
    requires p + |lit| <= |n| && forall j :: 0 <= j < |lit| ==> n[p + j] == lit[j]
    requires forall j :: 0 <= j < |lit| ==> !('A' <= lit[j] <= 'Z')
    ensures StartsWithCI(n, p, lit)
  {
  }

  /** The first `>` at or after `i` is the last character of the text. */
  lemma TagRestEnds(n: string, i: nat, rest: string)
    requires IsTagRest(rest) && i + |rest| == |n|
    requires forall j :: 0 <= j < |rest| ==> n[i + j] == rest[j]
    ensures IndexOf(n, i, '>') == |n| - 1
  {
    assert forall j :: i <= j < |n| - 1 ==> n[j] == rest[j - i];
    IndexOfAt(n, i, '>', |n| - 1);
  }

  /** A target that PATTERN_HTML5 reads back under the declaration's quoting. */
  predicate Html5Value(quote: string, v: string) {
    v != [] &&
    if quote == "" then forall j :: 0 <= j < |v| ==> IsBareCharsetChar(v[j])
    else forall j :: 0 <= j < |v| ==> IsQuotedCharsetChar(v[j])
  }

  /** `charset=` at `p` with the value at `b`, on any text. */
  lemma CharsetKeywordAt(n: string, p: nat)
    requires p + 9 <= |n| && (forall j :: 0 <= j < 7 ==> n[p + j] == "charset"[j]) && n[p + 7] == '='
    requires !IsSpace(n[p + 8])
    ensures AssignmentAt(n, p, "charset") == Some(p + 8)
  {
    LiteralAt(n, p, "charset");
    assert !IsSpace(n[p + 7]);
    SkipWhileAt(n, p + 7, IsSpace, p + 7);
    SkipWhileAt(n, p + 8, IsSpace, p + 8);
  }

  /** A run of the class `cls` spelled out at `b` and stopped right after
      it is what the scanner takes. */
  lemma RunAt(n: string, b: nat, v: string, cls: char -> bool)
    requires b + |v| <= |n| && forall j :: 0 <= j < |v| ==> n[b + j] == v[j] && cls(v[j])
    requires b + |v| < |n| ==> !cls(n[b + |v|])
    ensures SkipWhile(n, b, cls) == b + |v|
  {
    assert forall j :: b <= j < b + |v| ==> n[j] == v[j - b];
    SkipWhileAt(n, b, cls, b + |v|);
  }

  /** The pieces of a scanned declaration are the given texts. */
  lemma PiecesAt(n: string, p: nat, b: nat, r: nat, e: nat, key: string, v: string, after: string)
    requires p <= b <= r <= e <= |n| && e + |after| == |n| && b - p == |key| && r - b == |v|
    requires forall j :: 0 <= j < |key| ==> n[p + j] == key[j]
    requires forall j :: 0 <= j < |v| ==> n[b + j] == v[j]
    requires forall j :: 0 <= j < |after| ==> n[e + j] == after[j]
    ensures n[p..b] == key && n[b..r] == v && n[e..|n|] == after
  {
  }

  /** `charset=v` followed by the rest of a tag, on any text. */
  lemma BareCharsetReadsAt(n: string, p: nat, v: string, after: string)
    requires p + 8 + |v| + |after| == |n| && (forall j :: 0 <= j < 7 ==> n[p + j] == "charset"[j]) && n[p + 7] == '='
    requires Html5Value("", v) && forall j :: 0 <= j < |v| ==> n[p + 8 + j] == v[j]
    requires IsTagRest(after) && !IsBareCharsetChar(after[0])
    requires forall j :: 0 <= j < |after| ==> n[p + 8 + |v| + j] == after[j]
    ensures CharsetAt(n, 0, p) == Some(Declaration(n[0..p], "charset=", "", v, after))
  {
    var b := p + 8;
    var r := b + |v|;
    assert n[b] == v[0] && n[r] == after[0];
    CharsetKeywordAt(n, p);
    RunAt(n, b, v, IsBareCharsetChar);
    TagRestEnds(n, r, after);
    PiecesAt(n, p, b, r, r, "charset=", v, after);
    BareCharsetReads(n, p, b, r);
  }

  /** The unquoted alternative read from the scanners' positions. */
  lemma BareCharsetReads(n: string, p: nat, b: nat, r: nat)
    requires p <= b < r <= |n| && AssignmentAt(n, p, "charset") == Some(b) && !IsQuote(n[b])
    requires SkipWhile(n, b, IsBareCharsetChar) == r && IndexOf(n, r, '>') == |n| - 1
    ensures CharsetAt(n, 0, p) == Some(Declaration(n[0..p], n[p..b], "", n[b..r], n[r..|n|]))
  {
  }

  /** `charset=` and a quoted value followed by the rest of a tag. */
  lemma QuotedCharsetReadsAt(n: string, p: nat, v: string, after: string)
    requires p + 10 + |v| + |after| == |n| && (forall j :: 0 <= j < 7 ==> n[p + j] == "charset"[j]) && n[p + 7] == '='
    requires IsQuote(n[p + 8]) && n[p + 9 + |v|] == n[p + 8]
    requires Html5Value([n[p + 8]], v) && forall j :: 0 <= j < |v| ==> n[p + 9 + j] == v[j]
    requires IsTagRest(after) && forall j :: 0 <= j < |after| ==> n[p + 10 + |v| + j] == after[j]
    ensures CharsetAt(n, 0, p) == Some(Declaration(n[0..p], "charset=", [n[p + 8]], v, after))
  {
    var b := p + 8;
    var r := b + 1 + |v|;
    assert forall j :: 0 <= j < |v| ==> IsQuotedCharsetChar(v[j]);
    QuotedCharsetScan(n, p, v);
    TagRestEnds(n, r + 1, after);
    CharsetLiteral(n, p);
    PiecesAt(n, b + 1, b + 1, r, r + 1, "", v, after);
    QuotedCharsetPieces(n, p, v, after);
  }

  /** The quoted alternative read from the scanners' positions, with the
      pieces known. */
  lemma QuotedCharsetPieces(n: string, p: nat, v: string, after: string)
    requires p + 10 + |v| + |after| == |n| && |v| > 0 && IsQuote(n[p + 8]) && n[p + 9 + |v|] == n[p + 8]
    requires AssignmentAt(n, p, "charset") == Some(p + 8)
    requires SkipWhile(n, p + 9, IsQuotedCharsetChar) == p + 9 + |v| && IndexOf(n, p + 10 + |v|, '>') == |n| - 1
    requires n[p..p + 8] == "charset=" && n[p + 9..p + 9 + |v|] == v && n[p + 10 + |v|..|n|] == after
    ensures CharsetAt(n, 0, p) == Some(Declaration(n[0..p], "charset=", [n[p + 8]], v, after))
  {
    var b := p + 8;
    var r := p + 9 + |v|;
    assert n[p..b] == "charset=" && n[b + 1..r] == v && n[r + 1..|n|] == after;
    QuotedCharsetReads(n, p, b, r);
  }

  lemma CharsetLiteral(n: string, p: nat)
    requires p + 8 <= |n| && (forall j :: 0 <= j < 7 ==> n[p + j] == "charset"[j]) && n[p + 7] == '='
    ensures n[p..p + 8] == "charset="
  {
    assert forall j :: 0 <= j < 8 ==> n[p..p + 8][j] == "charset="[j];
  }

  /** Where the scanners stop on `charset="v"` and the rest of a tag. */
  lemma QuotedCharsetScan(n: string, p: nat, v: string)
    requires p + 10 + |v| <= |n| && (forall j :: 0 <= j < 7 ==> n[p + j] == "charset"[j]) && n[p + 7] == '='
    requires IsQuote(n[p + 8]) && n[p + 9 + |v|] == n[p + 8]
    requires forall j :: 0 <= j < |v| ==> n[p + 9 + j] == v[j] && IsQuotedCharsetChar(v[j])
    ensures AssignmentAt(n, p, "charset") == Some(p + 8)
    ensures SkipWhile(n, p + 9, IsQuotedCharsetChar) == p + 9 + |v|
  {
    assert !IsSpace(n[p + 8]);
    CharsetKeywordAt(n, p);
    assert !IsQuotedCharsetChar(n[p + 9 + |v|]);
    RunAt(n, p + 9, v, IsQuotedCharsetChar);
  }

  /** The quoted alternative read from the scanners' positions. */
  lemma QuotedCharsetReads(n: string, p: nat, b: nat, r: nat)
    requires p <= b && b + 1 < r < |n| && AssignmentAt(n, p, "charset") == Some(b) && IsQuote(n[b])
    requires SkipWhile(n, b + 1, IsQuotedCharsetChar) == r && n[r] == n[b] && IndexOf(n, r + 1, '>') == |n| - 1
    ensures CharsetAt(n, 0, p) == Some(Declaration(n[0..p], n[p..b], [n[b]], n[b + 1..r], n[r + 1..|n|]))
  {
    assert QuotedCharsetEnd(n, b) == Some(r);
    QuotedCharsetAtIs(n, p, b, r);
    QuotedDeclarationIs(n, p, b, r);
  }

  lemma QuotedCharsetAtIs(n: string, p: nat, b: nat, r: nat)
    requires p <= b && b + 1 < r < |n| && AssignmentAt(n, p, "charset") == Some(b) && IsQuote(n[b])
    requires QuotedCharsetEnd(n, b) == Some(r) && IndexOf(n, r + 1, '>') < |n|
    ensures CharsetAt(n, 0, p) == Some(QuotedDeclaration(n, 0, p, b, r))
  {
  }

  lemma QuotedDeclarationIs(n: string, p: nat, b: nat, r: nat)
    requires p <= b && b + 1 < r < |n| && IsQuote(n[b]) && n[r] == n[b] && IndexOf(n, r + 1, '>') == |n| - 1
    ensures QuotedDeclaration(n, 0, p, b, r) == Declaration(n[0..p], n[p..b], [n[b]], n[b + 1..r], n[r + 1..|n|])
  {
  }

  /** The HTML5 rewrite keeps the quoting and the rest of the tag, so the
      charset pattern at the same place now reads the target, behind the
      keyword `charset=` without white space. This reads the declaration at
      the old one's position; it does not say that the leftmost match of the
      rewritten text lies there. */
  lemma Html5RewriteReadsBack(d: Declaration, target: string)
    requires Html5Shape(d) && Html5Value(d.quote, target)
    ensures CharsetAt(d.Rewritten("charset", target), 0, |d.before|) ==
      Some(Declaration(d.before, "charset=", d.quote, target, d.after))
  {
    if d.quote == "" {
      BareRewriteReadsBack(d, target);
    } else {
      QuotedRewriteReadsBack(d, target);
    }
  }

  lemma BareRewriteReadsBack(d: Declaration, target: string)
    requires d.quote == "" && IsTagRest(d.after) && !IsBareCharsetChar(d.after[0]) && Html5Value("", target)
    ensures CharsetAt(d.Rewritten("charset", target), 0, |d.before|) ==
      Some(Declaration(d.before, "charset=", "", target, d.after))
  {
    BareRewrittenParts(d, target);
    BareCharsetReadsAt(d.Rewritten("charset", target), |d.before|, target, d.after);
  }

  /** The rewritten unquoted meta tag, cut where the charset scanner looks. */
  lemma BareRewrittenParts(d: Declaration, target: string)
    requires d.quote == ""
    ensures var n := d.Rewritten("charset", target);
      var p := |d.before|;
      |n| == p + 8 + |target| + |d.after| && n[0..p] == d.before &&
      (forall j :: 0 <= j < 7 ==> n[p + j] == "charset"[j]) && n[p + 7] == '=' &&
      (forall j :: 0 <= j < |target| ==> n[p + 8 + j] == target[j]) &&
      (forall j :: 0 <= j < |d.after| ==> n[p + 8 + |target| + j] == d.after[j])
  {
    var n := d.Rewritten("charset", target);
    assert n == d.before + "charset" + "=" + target + d.after;
  }

  lemma QuotedRewriteReadsBack(d: Declaration, target: string)
    requires |d.quote| == 1 && IsQuote(d.quote[0]) && IsTagRest(d.after) && Html5Value(d.quote, target)
    ensures CharsetAt(d.Rewritten("charset", target), 0, |d.before|) ==
      Some(Declaration(d.before, "charset=", d.quote, target, d.after))
  {
    var n := d.Rewritten("charset", target);
    var p := |d.before|;
    QuotedRewrittenParts(d, target);
    assert [n[p + 8]] == d.quote;
    QuotedCharsetReadsAt(n, p, target, d.after);
  }

  /** A target the XML pattern reads back: no quote of either kind. */
  predicate XmlValue(v: string) {
    v != [] && forall j :: 0 <= j < |v| ==> IsEncodingChar(v[j])
  }

  /** `encoding=` and a quoted value followed by the rest of a declaration. */
  lemma EncodingReadsAt(n: string, p: nat, v: string, after: string)
    requires p + 11 + |v| + |after| == |n| && forall j :: 0 <= j < 9 ==> n[p + j] == "encoding="[j]
    requires IsQuote(n[p + 9]) && n[p + 10 + |v|] == n[p + 9]
    requires XmlValue(v) && forall j :: 0 <= j < |v| ==> n[p + 10 + j] == v[j]
    requires IsTagRest(after) && forall j :: 0 <= j < |after| ==> n[p + 11 + |v| + j] == after[j]
    ensures EncodingAt(n, 0, p) == Some(Declaration(n[0..p], n[p..p + 9], [n[p + 9]], v, after))
  {
    var b := p + 9;
    var r := b + 1 + |v|;
    LiteralAt(n, p, "encoding=");
    RunAt(n, b + 1, v, IsEncodingChar);
    TagRestEnds(n, r + 1, after);
    PiecesAt(n, b + 1, b + 1, r, r + 1, "", v, after);
    EncodingReads(n, p, b, r);
  }

  /** The XML declaration read from the scanners' positions. */
  lemma EncodingReads(n: string, p: nat, b: nat, r: nat)
    requires b == p + 9 && b + 1 < r < |n| && StartsWithCI(n, p, "encoding=") && IsQuote(n[b])
    requires SkipWhile(n, b + 1, IsEncodingChar) == r && n[r] == n[b] && IndexOf(n, r + 1, '>') == |n| - 1
    ensures EncodingAt(n, 0, p) == Some(Declaration(n[0..p], n[p..b], [n[b]], n[b + 1..r], n[r + 1..|n|]))
  {
    EncodingAtIs(n, p, b, r);
    QuotedDeclarationIs(n, p, b, r);
  }

  lemma EncodingAtIs(n: string, p: nat, b: nat, r: nat)
    requires b == p + 9 && b + 1 < r < |n| && StartsWithCI(n, p, "encoding=") && IsQuote(n[b])
    requires SkipWhile(n, b + 1, IsEncodingChar) == r && n[r] == n[b] && IndexOf(n, r + 1, '>') < |n|
    ensures EncodingAt(n, 0, p) == Some(QuotedDeclaration(n, 0, p, b, r))
  {
  }

  /** The XML rewrite keeps the quote and the rest of the declaration, so the
      encoding pattern at the same place now reads the target. As for HTML5,
      this is a statement about that position, not about the leftmost match
      of the rewritten text. */
  lemma XmlRewriteReadsBack(d: Declaration, target: string)
    requires XmlShape(d) && XmlValue(target)
    ensures EncodingAt(d.Rewritten("encoding", target), 0, |d.before|) ==
      Some(Declaration(d.before, "encoding=", d.quote, target, d.after))
  {
    var n := d.Rewritten("encoding", target);
    var p := |d.before|;
    XmlRewrittenParts(d, target);
    EncodingReadsAt(n, p, target, d.after);
    assert [n[p + 9]] == d.quote;
  }

  /** The rewritten XML declaration, cut where the encoding scanner looks. */
  lemma XmlRewrittenParts(d: Declaration, target: string)
    requires |d.quote| == 1
    ensures var n := d.Rewritten("encoding", target);
      var p := |d.before|;
      |n| == p + 11 + |target| + |d.after| && n[0..p] == d.before && n[p..p + 9] == "encoding=" &&
      (forall j :: 0 <= j < 9 ==> n[p + j] == "encoding="[j]) &&
      n[p + 9] == d.quote[0] && n[p + 10 + |target|] == d.quote[0] &&
      (forall j :: 0 <= j < |target| ==> n[p + 10 + j] == target[j]) &&
      (forall j :: 0 <= j < |d.after| ==> n[p + 11 + |target| + j] == d.after[j])
  {
    var n := d.Rewritten("encoding", target);
    var p := |d.before|;
    assert n == d.before + "encoding=" + d.quote + target + d.quote + d.after;
  }

  /** The rewritten `content` value of an http-equiv tag, split again,
      gives back the updated parameters, and so declares the target. This
      holds for every parameter group split reads back exactly. */
  lemma Html4RewriteDeclaresTarget(parsed: Group, target: string)
    requires parsed == [] || ReparsableGroup(parsed)
    requires '\n' !in target
    ensures var updated := SetCI(parsed, "charset", Some(target));
      Split([Join([updated])]) == Success([updated]) &&
      GetWord(FirstGroup(Split([Join([updated])]).value), "charset") == Some(target)
  {
    var updated := SetCI(parsed, "charset", Some(target));
    SetCharsetReparsable(parsed, target);
    JoinOfCharsetGroup(updated);
    RoundTripOne(updated);
    assert GetWord(updated, "charset") == Some(target);
  }

  /** The http-equiv branch on a tag whose `content` value split reads back
      exactly: the tag is replaced by the inner match with a new `content`
      value, and splitting that value declares the target. */
  lemma Html4ContentTypeDeclaresTarget(m: string, target: string)
    requires ContentAttributeAsWritten(m).Some? && Html4ContentType(m, target).Success?
    requires var parsed := FirstGroup(Split([ContentAttributeAsWritten(m).value.value]).value);
      parsed == [] || ReparsableGroup(parsed)
    requires '\n' !in target
    ensures var d := ContentAttributeAsWritten(m).value;
      exists v :: Html4ContentType(m, target).value.replacements == [Pair(m, d.Rewritten("content", v))] &&
        Split([v]).Success? && GetWord(FirstGroup(Split([v]).value), "charset") == Some(target)
  {
    var d := ContentAttributeAsWritten(m).value;
    var parsed := FirstGroup(Split([d.value]).value);
    Html4RewriteDeclaresTarget(parsed, target);
    var v := Join([SetCI(parsed, "charset", Some(target))]);
    assert Html4ContentType(m, target).value.replacements == [Pair(m, d.Rewritten("content", v))];
  }

  /** The HTML5 branch replaces the leftmost match by a tag in which the
      charset pattern, at the place of the old declaration, reads the
      target. */
  lemma Html5ContentTypeDeclaresTarget(c: string, target: string)
    requires Html5Match(c).Some? && Html5Value(Html5Match(c).value.1.quote, target)
    ensures var d := Html5Match(c).value.1;
      var r := Html5ContentType(c, target);
      |r.replacements| == 1 && r.replacements[0].key == d.Text() &&
      CharsetAt(r.replacements[0].value, 0, |d.before|) == Some(Declaration(d.before, "charset=", d.quote, target, d.after))
  {
    var d := Html5Match(c).value.1;
    Html5RewriteReadsBack(d, target);
  }

  /** The XML branch replaces the leftmost declaration by one in which the
      encoding pattern, at the place of the old one, reads the target. */
  lemma XmlContentTypeDeclaresTarget(c: string, target: string)
    requires XmlMatch(c).Some? && XmlValue(target)
    ensures var d := XmlMatch(c).value.1;
      var r := GetContentTypeFromXml(c, target);
      |r.replacements| == 1 && r.replacements[0].key == d.Text() &&
      EncodingAt(r.replacements[0].value, 0, |d.before|) == Some(Declaration(d.before, "encoding=", d.quote, target, d.after))
  {
    var d := XmlMatch(c).value.1;
    XmlRewriteReadsBack(d, target);
  }

  /** One group that split reads back exactly survives join then split. */
  lemma RoundTripOne(g: Group)
    requires ReparsableGroup(g) && Join([g]) != "0"
    ensures Split([Join([g])]) == Success([g])
  {
    SplitJoinRoundTrip([g]);
  }

  /** Setting `charset` keeps a group that split reads back exactly. */
  lemma SetCharsetReparsable(parsed: Group, target: string)
    requires parsed == [] || ReparsableGroup(parsed)
    requires '\n' !in target
    ensures ReparsableGroup(SetCI(parsed, "charset", Some(target)))
    ensures GetCI(SetCI(parsed, "charset", Some(target)), "charset") == Some(Some(target))
  {
    assert CaseEq("charset", "charset");
    match KeyIndex(parsed, "charset")
    case Some(i) =>
      assert SetCI(parsed, "charset", Some(target)) == parsed[i := Pair(parsed[i].key, Some(target))];
      SetExistingCharset(parsed, target, i);
    case None =>
      AppendCharset(parsed, target);
  }

  /** The value of an existing `charset` key replaced by the target. */
  lemma SetExistingCharset(parsed: Group, target: string, i: nat)
    requires ReparsableGroup(parsed) && i < |parsed| && CaseEq(parsed[i].key, "charset")
    requires '\n' !in target
    ensures ReparsableGroup(parsed[i := Pair(parsed[i].key, Some(target))])
  {
    var u := parsed[i := Pair(parsed[i].key, Some(target))];
    var k := parsed[i].key;
    assert |k| == 7 && Lower(k)[0] == 'c';
    assert k[0] != '<';
    assert PlainKey(k) by {
      assert Reparsable(parsed[i]);
    }
    forall a | 0 <= a < |u| ensures Reparsable(u[a]) {
      if a != i {
        assert u[a] == parsed[a];
      }
    }
    forall a, b | 0 <= a < b < |u| ensures u[a].key != u[b].key {
      assert u[a].key == parsed[a].key && u[b].key == parsed[b].key;
    }
  }

  /** A `charset` key appended to a group that has none. */
  lemma AppendCharset(parsed: Group, target: string)
    requires parsed == [] || ReparsableGroup(parsed)
    requires KeyIndex(parsed, "charset").None? && '\n' !in target
    ensures ReparsableGroup(parsed + [Pair("charset", Some(target))])
  {
    var u := parsed + [Pair("charset", Some(target))];
    assert CaseEq("charset", "charset");
    assert PlainKey("charset");
    forall a | 0 <= a < |parsed| ensures parsed[a].key != "charset" {
      assert !CaseEq(parsed[a].key, "charset");
    }
    assert forall a :: 0 <= a < |parsed| ==> u[a] == parsed[a];
    assert forall a :: 0 <= a < |u| ==> Reparsable(u[a]);
  }

  /** A group that holds `charset` does not join to "0". */
  lemma JoinOfCharsetGroup(g: Group)
    requires ReparsableGroup(g) && GetCI(g, "charset").Some?
    ensures Join([g]) != "0"
  {
    assert [g][..0] == [];
    assert JoinedGroups([g]) == [JoinGroup(g)];
    var parts := JoinedPairs(g);
    if |g| == 1 {
      assert CaseEq(g[0].key, "charset");
      assert |g[0].key| == 7;
      assert JoinGroup(g) == JoinPair(g[0]);
    } else {
      JoinPairSingleLine(g[0]);
      assert JoinGroup(g) == parts[0] + "; " + Implode("; ", parts[1..]);
    }
  }

  // ---------------------------------------------------------------------
  // The unquoted HTML5 value and a following solidus
  // ---------------------------------------------------------------------

  /** `/` is a character of an unquoted HTML5 value, so
      `<meta charset=v/>` declares `v/`, and the rewrite drops the solidus. */
  lemma SolidusJoinsUnquotedCharset(v: string, target: string)
    requires v != [] && forall j :: 0 <= j < |v| ==> IsBareCharsetChar(v[j])
    ensures var c := "<meta charset=" + v + "/>";
      Html5ContentType(c, target) == BodyContentType(Some(v + "/"), [Pair(c, "<meta charset=" + target + ">")])
  {
    var c := "<meta charset=" + v + "/>";
    var d := Declaration("<meta ", "charset=", "", v + "/", ">");
    assert c == "<meta charset=" + (v + "/") + ">";
    SolidusTagAt(c, v + "/");
    Html5MatchAtZero(c, d);
    Html5ContentTypeOf(c, target, 0, d);
    MetaCharsetTexts(v + "/", target);
  }

  /** The HTML5 branch on a text whose leftmost match is known. */
  lemma Html5ContentTypeOf(c: string, target: string, s: nat, d: Declaration)
    requires Html5Match(c) == Some((s, d))
    ensures Html5ContentType(c, target) == BodyContentType(Some(d.value), [Pair(d.Text(), d.Rewritten("charset", target))])
  {
  }

  /** The declaration `<meta charset=w>` and its rewrite, as text. */
  lemma MetaCharsetTexts(w: string, target: string)
    ensures Declaration("<meta ", "charset=", "", w, ">").Text() == "<meta charset=" + w + ">"
    ensures Declaration("<meta ", "charset=", "", w, ">").Rewritten("charset", target) == "<meta charset=" + target + ">"
  {
  }

  /** PATTERN_HTML5 on `<meta charset=w>` matches the whole tag at 0, for
      any unquoted value `w`. */
  lemma SolidusTagAt(c: string, w: string)
    requires c == "<meta charset=" + w + ">" && w != []
    requires forall j :: 0 <= j < |w| ==> IsBareCharsetChar(w[j])
    ensures Html5At(c, 0) == Some(Declaration("<meta ", "charset=", "", w, ">"))
  {
    assert |c| == 15 + |w|;
    assert forall j :: 0 <= j < 6 ==> c[j] == "<meta "[j];
    assert forall j :: 0 <= j < 7 ==> c[6 + j] == "charset"[j];
    assert c[13] == '=';
    assert forall j :: 0 <= j < |w| ==> c[14 + j] == w[j];
    assert c[14 + |w|] == '>';
    MetaCharsetAt(c, w);
  }

  /** The same on any text spelled out character by character. */
  lemma MetaCharsetAt(c: string, w: string)
    requires |c| == 15 + |w| && w != [] && forall j :: 0 <= j < |w| ==> IsBareCharsetChar(w[j])
    requires forall j :: 0 <= j < 6 ==> c[j] == "<meta "[j]
    requires (forall j :: 0 <= j < 7 ==> c[6 + j] == "charset"[j]) && c[13] == '='
    requires (forall j :: 0 <= j < |w| ==> c[14 + j] == w[j]) && c[14 + |w|] == '>'
    ensures Html5At(c, 0) == Some(Declaration("<meta ", "charset=", "", w, ">"))
  {
    BareCharsetReadsAt(c, 6, w, ">");
    assert c[0..6] == "<meta ";
    LiteralAt(c, 0, "<meta");
    MetaTagEnd(c, w);
    FirstCharsetIs(c, 6, 14 + |w|);
  }

  /** The first `>` of `<meta charset=w>` is its last character. */
  lemma MetaTagEnd(c: string, w: string)
    requires |c| == 15 + |w| && forall j :: 0 <= j < |w| ==> IsBareCharsetChar(w[j])
    requires forall j :: 0 <= j < 6 ==> c[j] == "<meta "[j]
    requires (forall j :: 0 <= j < 7 ==> c[6 + j] == "charset"[j]) && c[13] == '='
    requires (forall j :: 0 <= j < |w| ==> c[14 + j] == w[j]) && c[14 + |w|] == '>'
    ensures IndexOf(c, 5, '>') == 14 + |w|
  {
    forall j | 5 <= j < 14 + |w| ensures c[j] != '>' {
      if j == 5 {
        assert c[j] == "<meta "[5];
      } else if j < 13 {
        assert c[j] == "charset"[j - 6];
      } else if j >= 14 {
        assert c[j] == w[j - 14];
      }
    }
    IndexOfAt(c, 5, '>', 14 + |w|);
  }

  /** A match at the first position is the leftmost one. */
  lemma Html5MatchAtZero(c: string, d: Declaration)
    requires |c| > 0 && Html5At(c, 0) == Some(d)
    ensures Html5Match(c) == Some((0, d))
  {
  }

  /** The lazy run before `charset` is empty when it can be. */
  lemma FirstCharsetIs(c: string, p: nat, hi: nat)
    requires p < hi <= |c| && CharsetAt(c, 0, p).Some?
    ensures FirstCharset(c, 0, p, hi) == Some(p)
  {
  }

  // ---------------------------------------------------------------------
  // The inner content pattern on a tag that spans lines
  // ---------------------------------------------------------------------

  /** No position before the first line feed of `"<meta\n" + rest` starts a
      `content=` attribute: its first line is `<meta`. */
  lemma NoContentOnMetaLine(m: string, t: nat)
    requires |m| >= 6 && t < 6 && forall j :: 0 <= j < 6 ==> m[j] == "<meta\n"[j]
    ensures ContentKeyword(m, t, false).None?
  {
    assert forall j :: 0 <= j < 5 ==> LowerChar(m[j]) != 'c';
    IndexOfAt(m, t, '\n', if t <= 5 then 5 else t);
    forall k | t <= k < DotEnd(m, t, false) ensures !StartsWithCI(m, k, "content") {
      assert LowerChar(m[k]) != "content"[0];
    }
  }

  /** As written, without the `s` flag, the content pattern on a tag whose
      `<meta` is followed by a line feed matches only the second line: the
      replacement for the whole tag then starts after `<meta\n`. */
  lemma AsWrittenDropsMetaLine(rest: string, d: Declaration)
    requires SingleLine(rest)
    requires ContentAttributeAsWritten("<meta\n" + rest) == Some(d)
    ensures d.Text() == rest
  {
    var m := "<meta\n" + rest;
    MetaLineText(rest);
    SecondLineStart(m);
    MatchToLineEnd(m, d);
  }

  /** The http-equiv branch as written, on a tag whose `<meta` is followed
      by a line feed: the whole tag is the key, but its replacement is built
      from the second line alone, so `<meta` and the line feed are lost. */
  lemma Html4DropsMetaLine(rest: string, target: string)
    requires SingleLine(rest)
    requires Html4ContentType("<meta\n" + rest, target).Success?
    requires Html4ContentType("<meta\n" + rest, target).value.replacements != []
    ensures var m := "<meta\n" + rest;
      var p := Html4ContentType(m, target).value.replacements[0];
      var d := ContentAttributeAsWritten(m).value;
      p.key == m && d.Text() == rest && (exists v :: p.value == d.Rewritten("content", v)) &&
      |p.value| > 5 && p.value[5] != '\n'
  {
    var m := "<meta\n" + rest;
    var d := ContentAttributeAsWritten(m).value;
    AsWrittenDropsMetaLine(rest, d);
    var p := Html4ContentType(m, target).value.replacements[0];
    var j := Join([SetCI(FirstGroup(Split([d.value]).value), "charset", Some(target))]);
    assert p.value == d.Rewritten("content", j);
    RewrittenHead(d, j);
  }

  /** A rewritten declaration starts with `before` and `content=`; with
      `before` on one line, no line feed comes before the sixth character. */
  lemma RewrittenHead(d: Declaration, v: string)
    requires SingleLine(d.before)
    ensures |d.Rewritten("content", v)| > 5 && d.Rewritten("content", v)[5] != '\n'
  {
    var n := d.Rewritten("content", v);
    var w := d.before + "content=";
    assert n == w + (d.quote + v + d.quote + d.after);
    assert n[5] == w[5];
    if |d.before| <= 5 {
      assert w[5] == "content="[5 - |d.before|];
    }
  }

  /** `<meta`, a line feed, then one line, character by character. */
  lemma MetaLineText(rest: string)
    requires SingleLine(rest)
    ensures var m := "<meta\n" + rest;
      |m| == 6 + |rest| && m[6..|m|] == rest &&
      (forall j :: 0 <= j < 6 ==> m[j] == "<meta\n"[j]) &&
      forall j :: 6 <= j < |m| ==> m[j] != '\n'
  {
    var m := "<meta\n" + rest;
    assert forall j :: 6 <= j < |m| ==> m[j] == rest[j - 6];
  }

  /** On `<meta` and a line feed, then one line, the content pattern can
      only start on the second line, and starts at its beginning. */
  lemma SecondLineStart(m: string)
    requires |m| >= 6 && forall j :: 0 <= j < 6 ==> m[j] == "<meta\n"[j]
    requires forall j :: 6 <= j < |m| ==> m[j] != '\n'
    requires ContentStart(m, false).Some?
    ensures ContentStart(m, false) == Some(6)
  {
    var t := ContentStart(m, false).value;
    forall t' | 0 <= t' < 6 ensures ContentKeyword(m, t', false).None? {
      NoContentOnMetaLine(m, t');
    }
    assert 6 <= t;
    IndexOfAt(m, 6, '\n', |m|);
    KeywordFromEarlier(m, 6, t);
    assert t <= 6;
  }

  /** Within one line, a keyword reachable from `t` is reachable from any
      earlier start. */
  lemma KeywordFromEarlier(m: string, a: nat, t: nat)
    requires a <= t <= |m| && DotEnd(m, a, false) == |m| && ContentKeyword(m, t, false).Some?
    ensures ContentKeyword(m, a, false).Some?
  {
    var k := ContentKeyword(m, t, false).value;
    assert a <= k < DotEnd(m, a, false);
  }

  /** A match from 6 on a text without line feeds after 6 runs to its end. */
  lemma MatchToLineEnd(m: string, d: Declaration)
    requires |m| >= 6 && forall j :: 6 <= j < |m| ==> m[j] != '\n'
    requires ContentStart(m, false) == Some(6)
    requires ContentAttributeAsWritten(m) == Some(d)
    ensures d.Text() == m[6..|m|]
  {
    var x := 6 + |d.Text()| - |d.after|;
    IndexOfAt(m, x, '\n', |m|);
  }

  /** A concrete tag: `http-equiv` on the line after `<meta`, then the
      content attribute. As written, the match is the second line only; with
      `.` matching a line feed it is the whole tag. */
  lemma MultiLineMetaTag(pre: string, v: string)
    requires SingleLine(pre) && SingleLine(v) && '"' !in v
    ensures var m := "<meta\n" + pre + "content=\"" + v + "\">";
      ContentAttributeAsWritten(m).Some? && ContentAttributeAsWritten(m).value.Text() == m[6..] &&
      ContentAttribute(m).Some? && ContentAttribute(m).value.Text() == m
  {
    var rest := pre + "content=\"" + v + "\">";
    var m := "<meta\n" + rest;
    assert m == "<meta\n" + pre + "content=\"" + v + "\">";
    ContentLineText(pre, v);
    MetaLineText(rest);
    var k := 6 + |pre|;
    assert forall j :: 0 <= j < |rest| ==> m[6 + j] == rest[j];
    ContentValueIs(m, k, k + 9 + |v|);
    ContentStartSome(m, 6, k);
    assert ContentAttribute(m).Some?;
    AsWrittenDropsMetaLine(rest, ContentAttributeAsWritten(m).value);
  }

  /** The line `pre content="v">`, character by character. */
  lemma ContentLineText(pre: string, v: string)
    requires SingleLine(pre) && SingleLine(v) && '"' !in v
    ensures var rest := pre + "content=\"" + v + "\">";
      var k := |pre|;
      |rest| == k + 11 + |v| && SingleLine(rest) &&
      (forall j :: 0 <= j < 7 ==> rest[k + j] == "content"[j]) && rest[k + 7] == '=' && rest[k + 8] == '"' &&
      (forall j :: k + 9 <= j < k + 9 + |v| ==> rest[j] != '"') && rest[k + 9 + |v|] == '"'
  {
    var rest := pre + "content=\"" + v + "\">";
    var k := |pre|;
    assert forall j :: 0 <= j < |pre| ==> rest[j] == pre[j];
    assert forall j :: 0 <= j < 9 ==> rest[k + j] == "content=\""[j];
    assert forall j :: 0 <= j < |v| ==> rest[k + 9 + j] == v[j];
    assert forall j :: k + 9 <= j < k + 9 + |v| ==> rest[j] == v[j - k - 9];
    assert rest[k + 9 + |v|] == '"' && rest[k + 10 + |v|] == '>';
  }

  /** `content="…"` at `k` whose value ends at `q`, all on one line. */
  lemma ContentValueIs(m: string, k: nat, q: nat)
    requires k + 9 <= q < |m| && forall j :: k <= j < |m| ==> m[j] != '\n'
    requires (forall j :: 0 <= j < 7 ==> m[k + j] == "content"[j]) && m[k + 7] == '=' && m[k + 8] == '"'
    requires (forall j :: k + 9 <= j < q ==> m[j] != '"') && m[q] == '"'
    ensures ContentValueAt(m, k, false) == Some((k + 8, q))
    ensures ContentValueAt(m, k, true) == Some((k + 8, q))
  {
    LiteralAt(m, k, "content");
    SkipWhileAt(m, k + 7, IsSpace, k + 7);
    SkipWhileAt(m, k + 8, IsSpace, k + 8);
    assert AssignmentAt(m, k, "content") == Some(k + 8);
    IndexOfAt(m, k + 9, '"', q);
    IndexOfAt(m, k + 9, '\n', |m|);
  }

  /** A `content` attribute reachable on the line from `t`: the as-written
      pattern matches. */
  lemma ContentStartSome(m: string, t: nat, k: nat)
    requires t <= k < |m| && forall j :: t <= j < |m| ==> m[j] != '\n'
    requires ContentValueAt(m, k, false).Some?
    ensures ContentStart(m, false).Some?
  {
    IndexOfAt(m, t, '\n', |m|);
    assert t <= k < DotEnd(m, t, false);
    assert ContentKeyword(m, t, false).Some?;
  }
}
