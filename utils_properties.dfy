/** What splitHttpHeaderWords and joinHttpHeaderWords promise: the shape of
    the groups split emits, that each header string is parsed on its own,
    that unparsable input is an error, and that join is undone by split. */
module UtilsProperties {
  import opened Wrappers
  import opened Text
  import opened Utils

  // ---------------------------------------------------------------------
  // Shape of the groups
  // ---------------------------------------------------------------------

  /** A group as split emits it: non-empty, and no key twice. */
  predicate EmittedGroup(g: Group) {
    |g| > 0 && DistinctKeys(g)
  }

  lemma {:induction false} SplitFromEmitsGroups(h: string, cur: Group, acc: seq<Group>)
    requires DistinctKeys(cur)
    requires forall i :: 0 <= i < |acc| ==> EmittedGroup(acc[i])
    ensures SplitFrom(h, cur, acc).Success? ==>
      forall i :: 0 <= i < |SplitFrom(h, cur, acc).value| ==> EmittedGroup(SplitFrom(h, cur, acc).value[i])
    decreases |h|
  {
    if !Exhausted(h) {
      match NextStep(h)
      case LinkTarget(k, rest) =>
        PutKeepsKeysDistinct(cur, k, None);
        SplitFromEmitsGroups(rest, Put(cur, k, None), acc);
      case Attribute(k, v, rest) =>
        PutKeepsKeysDistinct(cur, k, v);
        SplitFromEmitsGroups(rest, Put(cur, k, v), acc);
      case GroupEnd(rest) =>
        SplitFromEmitsGroups(rest, [], Close(acc, cur));
      case Separator(rest) =>
        SplitFromEmitsGroups(rest, cur, acc);
      case Stuck =>
    }
  }

  lemma {:induction false} SplitValuesEmitsGroups(values: seq<string>, acc: seq<Group>)
    requires forall i :: 0 <= i < |acc| ==> EmittedGroup(acc[i])
    ensures SplitValues(values, acc).Success? ==>
      forall i :: 0 <= i < |SplitValues(values, acc).value| ==> EmittedGroup(SplitValues(values, acc).value[i])
    decreases |values|
  {
    if values != [] {
      SplitFromEmitsGroups(values[0], [], acc);
      if SplitFrom(values[0], [], acc).Success? {
        SplitValuesEmitsGroups(values[1..], SplitFrom(values[0], [], acc).value);
      }
    }
  }

  /** Split only ever emits non-empty groups, and within a group every key is
      distinct (a repeated key overwrites the earlier value in place). */
  lemma SplitEmitsNonEmptyGroups(values: seq<string>)
    ensures Split(values).Success? ==>
      forall i :: 0 <= i < |Split(values).value| ==> EmittedGroup(Split(values).value[i])
  {
    SplitValuesEmitsGroups(values, []);
  }

  // ---------------------------------------------------------------------
  // Each string is parsed on its own
  // ---------------------------------------------------------------------

  /** The groups emitted so far are only ever extended. */
  function Prefixed(acc: seq<Group>, r: Result<seq<Group>, SplitError>): Result<seq<Group>, SplitError> {
    match r
    case Success(gs) => Success(acc + gs)
    case Failure(e) => Failure(e)
  }

  predicate ExtendsFrom(h: string, cur: Group, acc: seq<Group>) {
    SplitFrom(h, cur, acc) == Prefixed(acc, SplitFrom(h, cur, []))
  }

  lemma ExtendsAcrossStep(h: string, cur: Group, acc: seq<Group>, next: string, cur': Group)
    requires forall a :: SplitFrom(h, cur, a) == SplitFrom(next, cur', a)
    requires ExtendsFrom(next, cur', acc)
    ensures ExtendsFrom(h, cur, acc)
  {
    assert SplitFrom(h, cur, acc) == SplitFrom(next, cur', acc);
    assert SplitFrom(h, cur, []) == SplitFrom(next, cur', []);
  }

  lemma PrefixedClose(acc: seq<Group>, cur: Group, r: Result<seq<Group>, SplitError>)
    ensures Prefixed(Close(acc, cur), r) == Prefixed(acc, Prefixed(Close([], cur), r))
  {
    if r.Success? {
      if |cur| > 0 {
        assert Close([], cur) == [cur];
        assert acc + [cur] + r.value == acc + ([cur] + r.value);
      } else {
        assert [] + r.value == r.value;
      }
    }
  }

  lemma {:induction false} SplitFromExtends(h: string, cur: Group, acc: seq<Group>)
    ensures ExtendsFrom(h, cur, acc)
    decreases |h|
  {
    if Exhausted(h) {
      assert Close(acc, cur) == acc + Close([], cur);
    } else {
      var t := NextStep(h);
      if t.LinkTarget? {
        SplitFromExtends(t.rest, Put(cur, t.key, None), acc);
        ExtendsAcrossStep(h, cur, acc, t.rest, Put(cur, t.key, None));
      } else if t.Attribute? {
        SplitFromExtends(t.rest, Put(cur, t.key, t.value), acc);
        ExtendsAcrossStep(h, cur, acc, t.rest, Put(cur, t.key, t.value));
      } else if t.GroupEnd? {
        SplitFromExtends(t.rest, [], Close(acc, cur));
        SplitFromExtends(t.rest, [], Close([], cur));
        PrefixedClose(acc, cur, SplitFrom(t.rest, [], []));
      } else if t.Separator? {
        SplitFromExtends(t.rest, cur, acc);
        ExtendsAcrossStep(h, cur, acc, t.rest, cur);
      }
    }
  }

  predicate ExtendsValues(values: seq<string>, acc: seq<Group>) {
    SplitValues(values, acc) == Prefixed(acc, SplitValues(values, []))
  }

  lemma {:induction false} SplitValuesExtends(values: seq<string>, acc: seq<Group>)
    ensures ExtendsValues(values, acc)
    decreases |values|
  {
    if values == [] {
      assert acc + [] == acc;
    } else {
      SplitFromExtends(values[0], [], acc);
      var first := SplitFrom(values[0], [], []);
      if first.Success? {
        var gs := first.value;
        assert SplitFrom(values[0], [], acc) == Success(acc + gs);
        assert SplitValues(values, acc) == SplitValues(values[1..], acc + gs);
        assert SplitValues(values, []) == SplitValues(values[1..], gs);
        SplitValuesExtends(values[1..], acc + gs);
        SplitValuesExtends(values[1..], gs);
        var more := SplitValues(values[1..], []);
        if more.Success? {
          assert acc + gs + more.value == acc + (gs + more.value);
        }
      } else {
        assert SplitFrom(values[0], [], acc) == first;
      }
    }
  }

  /** Both parts parse, and the groups of the first come first. */
  function Concatenated(a: Result<seq<Group>, SplitError>, b: Result<seq<Group>, SplitError>): Result<seq<Group>, SplitError> {
    match a
    case Failure(e) => Failure(e)
    case Success(gs) => Prefixed(gs, b)
  }

  /** Splitting a list of header strings is splitting each string on its own
      and concatenating the groups: strings are never comma-joined first. The
      first string that fails to parse decides the error. */
  lemma {:induction false} SplitEachStringIndependently(first: seq<string>, second: seq<string>)
    ensures Split(first + second) == Concatenated(Split(first), Split(second))
    decreases |first|
  {
    if first == [] {
      assert first + second == second;
      if Split(second).Success? {
        assert [] + Split(second).value == Split(second).value;
      }
    } else {
      SplitEachStringIndependently(first[1..], second);
      SplitHeadFirst(first, second);
    }
  }

  /** The first string is parsed first, and the rest after its groups. */
  lemma SplitHeadFirst(first: seq<string>, second: seq<string>)
    requires first != []
    requires Split(first[1..] + second) == Concatenated(Split(first[1..]), Split(second))
    ensures Split(first + second) == Concatenated(Split(first), Split(second))
  {
    assert (first + second)[0] == first[0];
    assert (first + second)[1..] == first[1..] + second;
    var head := SplitFrom(first[0], [], []);
    if head.Success? {
      var gs := head.value;
      assert Split(first + second) == SplitValues(first[1..] + second, gs);
      assert Split(first) == SplitValues(first[1..], gs);
      SplitValuesExtends(first[1..] + second, gs);
      SplitValuesExtends(first[1..], gs);
      var more := SplitValues(first[1..], []);
      var last := SplitValues(second, []);
      if more.Success? && last.Success? {
        assert gs + more.value + last.value == gs + (more.value + last.value);
      }
    }
  }

  // ---------------------------------------------------------------------
  // Unparsable input
  // ---------------------------------------------------------------------

  /** A remainder made only of `=` matches none of the five patterns: split
      throws, carrying that remainder, whatever came before it. */
  lemma EqualsSignsAreMalformed(h: string, cur: Group, acc: seq<Group>)
    requires |h| > 0 && forall i :: 0 <= i < |h| ==> h[i] == '='
    ensures SplitFrom(h, cur, acc) == Failure(MalformedHeaderWords(h))
  {
    assert SkipWhile(h, 0, IsSpace) == 0;
    SkipWhileAt(h, 0, IsEqualsSign, |h|);
    assert !Exhausted(h) by { assert h[0] == '='; }
  }

  lemma SplitOfEqualsSignFails()
    ensures Split(["="]) == Failure(MalformedHeaderWords("="))
  {
    EqualsSignsAreMalformed("=", [], []);
  }

  // ---------------------------------------------------------------------
  // Round trip: split(join(groups)) == groups
  // ---------------------------------------------------------------------

  /** A `<...>` key (a Link target of RFC 5988, section 5), on one line. */
  predicate LinkKey(k: string) {
    |k| >= 2 && k[0] == '<' && k[|k| - 1] == '>' &&
    forall i :: 0 < i < |k| - 1 ==> k[i] != '>' && k[i] != '\n'
  }

  /** A key split reads back as one word: attribute characters only, and not
      starting like a Link target. */
  predicate PlainKey(k: string) {
    |k| > 0 && k[0] != '<' && forall i :: 0 <= i < |k| ==> IsKeyChar(k[i])
  }

  /** A pair that survives join then split: a Link target has no value, and
      a value has no line feed. */
  predicate Reparsable(p: Pair<Option<string>>) {
    (LinkKey(p.key) && p.value.None?) ||
    (PlainKey(p.key) && (p.value.Some? ==> '\n' !in p.value.value))
  }

  predicate ReparsableGroup(g: Group) {
    EmittedGroup(g) && forall i :: 0 <= i < |g| ==> Reparsable(g[i])
  }

  lemma {:induction false} EscapeChars(v: string)
    ensures forall i :: 0 <= i < |Escape(v)| ==> Escape(v)[i] == '\\' || Escape(v)[i] in v
    decreases |v|
  {
    if v != [] {
      EscapeChars(v[1..]);
      var head := if v[0] == '"' || v[0] == '\\' then ['\\', v[0]] else [v[0]];
      assert Escape(v) == head + Escape(v[1..]);
      forall i | 0 <= i < |Escape(v)| ensures Escape(v)[i] == '\\' || Escape(v)[i] in v {
        if i >= |head| {
          assert Escape(v)[i] == Escape(v[1..])[i - |head|];
        }
      }
    }
  }

  /** Unescaping undoes escaping. */
  lemma {:induction false} UnescapeEscape(v: string)
    ensures Unescape(Escape(v)) == v
    decreases |v|
  {
    if v != [] {
      UnescapeEscape(v[1..]);
      var e := Escape(v);
      if v[0] == '"' || v[0] == '\\' {
        assert e == ['\\', v[0]] + Escape(v[1..]);
        assert e[2..] == Escape(v[1..]);
      } else {
        assert e == [v[0]] + Escape(v[1..]);
        assert e[1..] == Escape(v[1..]);
      }
      assert v == [v[0]] + v[1..];
    }
  }

  /** In an escaped value followed by `"`, the closing quote is that `"`. */
  lemma {:induction false} QuotedEndOfEscaped(s: string, p: nat, v: string)
    requires p + |Escape(v)| < |s|
    requires s[p..p + |Escape(v)|] == Escape(v)
    requires s[p + |Escape(v)|] == '"'
    ensures QuotedEnd(s, p) == Some(p + |Escape(v)|)
    decreases |v|
  {
    if v != [] {
      var e := Escape(v);
      if v[0] == '"' || v[0] == '\\' {
        assert e == ['\\', v[0]] + Escape(v[1..]);
        assert s[p] == e[0] && s[p + 1] == e[1];
        assert s[p + 2..p + 2 + |Escape(v[1..])|] == e[2..];
        QuotedEndOfEscaped(s, p + 2, v[1..]);
      } else {
        assert e == [v[0]] + Escape(v[1..]);
        assert s[p] == e[0];
        assert s[p + 1..p + 1 + |Escape(v[1..])|] == e[1..];
        QuotedEndOfEscaped(s, p + 1, v[1..]);
      }
    }
  }

  lemma JoinPairSingleLine(p: Pair<Option<string>>)
    requires Reparsable(p)
    ensures '\n' !in JoinPair(p) && |JoinPair(p)| > 0
  {
    match p.value
    case None =>
    case Some(v) =>
      EscapeChars(v);
      assert '\n' !in Escape(v);
  }

  lemma {:induction false} ImplodeSingleLine(sep: string, parts: seq<string>)
    requires '\n' !in sep && forall i :: 0 <= i < |parts| ==> '\n' !in parts[i]
    ensures '\n' !in Implode(sep, parts)
    decreases |parts|
  {
    if |parts| > 1 {
      ImplodeSingleLine(sep, parts[1..]);
    }
  }

  /** What follows a serialized pair: nothing, or the next separator. */
  predicate FollowsPair(tail: string) {
    '\n' !in tail && (tail == [] || tail[0] == ';' || tail[0] == ',')
  }

  // One pass of the loop, for each rule that can apply.

  lemma StepLink(h: string, k: string, rest: string, cur: Group, acc: seq<Group>)
    requires !Exhausted(h) && NextStep(h) == LinkTarget(k, rest)
    ensures SplitFrom(h, cur, acc) == SplitFrom(rest, Put(cur, k, None), acc)
  {
  }

  lemma StepAttribute(h: string, k: string, v: Option<string>, rest: string, cur: Group, acc: seq<Group>)
    requires !Exhausted(h) && NextStep(h) == Attribute(k, v, rest)
    ensures SplitFrom(h, cur, acc) == SplitFrom(rest, Put(cur, k, v), acc)
  {
  }

  lemma StepSeparator(h: string, rest: string, cur: Group, acc: seq<Group>)
    requires !Exhausted(h) && NextStep(h) == Separator(rest)
    ensures SplitFrom(h, cur, acc) == SplitFrom(rest, cur, acc)
  {
  }

  lemma StepGroupEnd(h: string, rest: string, cur: Group, acc: seq<Group>)
    requires !Exhausted(h) && NextStep(h) == GroupEnd(rest)
    ensures SplitFrom(h, cur, acc) == SplitFrom(rest, [], Close(acc, cur))
  {
  }

  /** A `;` closes nothing: it is skipped. */
  lemma NextStepAtSemicolon(h: string)
    requires |h| > 0 && h[0] == ';'
    ensures NextStep(h) == Separator(Line(h[1..]))
  {
    SkipWhileAt(h, 0, IsSpace, 0);
    SkipWhileAt(h, 0, IsEqualsSign, 0);
    SkipWhileAt(h, 0, IsKeyChar, 0);
  }

  /** A `,` closes the group. */
  lemma NextStepAtComma(h: string)
    requires |h| > 0 && h[0] == ','
    ensures NextStep(h) == GroupEnd(Line(h[1..]))
  {
    SkipWhileAt(h, 0, IsSpace, 0);
    SkipWhileAt(h, 0, IsEqualsSign, 0);
    SkipWhileAt(h, 0, IsKeyChar, 0);
  }

  /** The first rule, once its match is known. */
  lemma NextStepLink(h: string, i: nat, e: nat)
    requires i < |h| && SkipWhile(h, 0, IsSpace) == i && h[i] == '<'
    requires i < e < |h| && IndexOf(h, i + 1, '>') == e
    ensures NextStep(h) == LinkTarget(h[i..e + 1], Line(h[e + 1..]))
  {
  }

  /** The second rule, once its match is known. */
  lemma NextStepWord(h: string, i: nat, m: nat)
    requires i < m <= |h| && SkipWhile(h, 0, IsSpace) == i && h[i] != '<'
    requires SkipWhile(h, i, IsEqualsSign) == i && SkipWhile(h, i, IsKeyChar) == m
    ensures NextStep(h) == Attribute(h[i..m], AttributeValue(Line(h[m..])).value, AttributeValue(Line(h[m..])).rest)
  {
  }

  /** A `<...>` word is taken whole as a key without a value. */
  lemma NextStepAtLinkKey(pre: string, k: string, tail: string)
    requires pre == "" || pre == " "
    requires LinkKey(k) && FollowsPair(tail)
    ensures NextStep(pre + k + tail) == LinkTarget(k, tail)
  {
    var h := pre + k + tail;
    var i := |pre|;
    assert h[i..i + |k|] == k;
    SkipWhileAt(h, 0, IsSpace, i);
    forall j | i + 1 <= j < i + |k| - 1 ensures h[j] != '>' {
      assert h[j] == k[j - i];
    }
    assert h[i + |k| - 1] == '>';
    assert IndexOf(h, i + 1, '>') == i + |k| - 1;
    assert h[i] == '<';
    NextStepLink(h, i, i + |k| - 1);
    assert h[i + |k|..] == tail;
    LineOfSingleLine(tail);
  }

  /** A run of attribute characters is taken as a key, and the value
      patterns are tried on what follows it. */
  lemma NextStepAtPlainKey(pre: string, k: string, rest: string)
    requires pre == "" || pre == " "
    requires PlainKey(k) && '\n' !in rest && (rest == [] || !IsKeyChar(rest[0]))
    ensures NextStep(pre + k + rest) == Attribute(k, AttributeValue(rest).value, AttributeValue(rest).rest)
  {
    var h := pre + k + rest;
    var i := |pre|;
    assert h[i..i + |k|] == k;
    assert h[i] == k[0];
    SkipWhileAt(h, 0, IsSpace, i);
    SkipWhileAt(h, i, IsEqualsSign, i);
    forall j | i <= j < i + |k| ensures IsKeyChar(h[j]) {
      assert h[j] == k[j - i];
    }
    SkipWhileAt(h, i, IsKeyChar, i + |k|);
    NextStepWord(h, i, i + |k|);
    assert h[i + |k|..] == rest;
    LineOfSingleLine(rest);
  }

  /** A key written without `=value` reads back without a value. */
  lemma AttributeValueAbsent(tail: string)
    requires FollowsPair(tail)
    ensures AttributeValue(tail) == ValueParse(None, tail)
  {
    SkipWhileAt(tail, 0, IsSpace, 0);
  }

  /** The characters of a serialized value never end an unquoted value. */
  lemma TokenCharClasses(c: char)
    requires IsTokenChar(c)
    ensures IsUnquotedChar(c) && !IsTrimmed(c) && !IsSpace(c) && c != '"'
  {
  }

  /** A token written bare reads back as itself. */
  lemma AttributeValueToken(x: string, tail: string)
    requires IsToken(x) && FollowsPair(tail)
    ensures AttributeValue("=" + x + tail) == ValueParse(Some(x), tail)
  {
    var s := "=" + x + tail;
    SkipWhileAt(s, 0, IsSpace, 0);
    assert s[1] == x[0];
    TokenCharClasses(x[0]);
    SkipWhileAt(s, 1, IsSpace, 1);
    forall j | 1 <= j < 1 + |x| ensures IsUnquotedChar(s[j]) {
      assert s[j] == x[j - 1];
      TokenCharClasses(x[j - 1]);
    }
    SkipWhileAt(s, 1, IsUnquotedChar, 1 + |x|);
    assert s[1..1 + |x|] == x;
    forall j | 0 <= j < |x| ensures !IsTrimmed(x[j]) {
      TokenCharClasses(x[j]);
    }
    assert s[1 + |x|..] == tail;
    LineOfSingleLine(tail);
  }

  /** A value written quoted and escaped reads back as itself. */
  lemma AttributeValueQuoted(x: string, tail: string)
    requires FollowsPair(tail)
    ensures AttributeValue("=\"" + Escape(x) + "\"" + tail) == ValueParse(Some(x), tail)
  {
    var e := Escape(x);
    var s := "=\"" + e + "\"" + tail;
    QuotedParts(e, tail);
    QuotedEndOfEscaped(s, 2, x);
    QuotedValueAt(s, 2 + |e|);
    UnescapeEscape(x);
    LineOfSingleLine(tail);
  }

  /** `="e"tail` cut where the value pattern looks. */
  lemma QuotedParts(e: string, tail: string)
    ensures var s := "=\"" + e + "\"" + tail;
      s[0] == '=' && s[1] == '"' && s[2..2 + |e|] == e && s[2 + |e|] == '"' && s[3 + |e|..] == tail
  {
  }

  /** `="` followed by a closing quote at `close` is read as a quoted value. */
  lemma QuotedValueAt(s: string, close: nat)
    requires 2 <= close < |s| && s[0] == '=' && s[1] == '"' && QuotedEnd(s, 2) == Some(close)
    ensures AttributeValue(s) == ValueParse(Some(Unescape(s[2..close])), Line(s[close + 1..]))
  {
    SkipWhileAt(s, 0, IsSpace, 0);
    SkipWhileAt(s, 1, IsSpace, 1);
  }

  /** What join writes after a plain key is read back as the pair's value. */
  lemma JoinedValueReadsBack(v: Option<string>, tail: string)
    requires (v.Some? ==> '\n' !in v.value) && FollowsPair(tail)
    ensures JoinedValue(v) == [] || JoinedValue(v)[0] == '='
    ensures AttributeValue(JoinedValue(v) + tail) == ValueParse(v, tail)
  {
    match v {
      case None =>
        assert JoinedValue(v) + tail == tail;
        AttributeValueAbsent(tail);
      case Some(x) =>
        if MatchesTokenPattern(x) {
          assert JoinedValue(v) + tail == "=" + x + tail;
          AttributeValueToken(x, tail);
        } else {
          assert JoinedValue(v) + tail == "=\"" + Escape(x) + "\"" + tail;
          AttributeValueQuoted(x, tail);
        }
    }
  }

  lemma Regroup(a: string, b: string, c: string, d: string)
    ensures a + (b + c) + d == a + b + (c + d)
  {
  }

  lemma SplitLinkPair(pre: string, k: string, tail: string, cur: Group, acc: seq<Group>)
    requires pre == "" || pre == " "
    requires LinkKey(k) && FollowsPair(tail)
    ensures SplitFrom(pre + k + tail, cur, acc) == SplitFrom(tail, Put(cur, k, None), acc)
  {
    NextStepAtLinkKey(pre, k, tail);
    assert (pre + k + tail)[|pre|] == '<';
    StepLink(pre + k + tail, k, tail, cur, acc);
  }

  lemma SplitPlainWord(pre: string, k: string, rest: string, v: Option<string>, tail: string, cur: Group, acc: seq<Group>)
    requires pre == "" || pre == " "
    requires PlainKey(k) && '\n' !in rest && (rest == [] || !IsKeyChar(rest[0]))
    requires AttributeValue(rest) == ValueParse(v, tail)
    requires !Exhausted(pre + k + rest)
    ensures SplitFrom(pre + k + rest, cur, acc) == SplitFrom(tail, Put(cur, k, v), acc)
  {
    var h := pre + k + rest;
    NextStepAtPlainKey(pre, k, rest);
    assert h[|pre|] == k[0];
    StepAttribute(h, k, v, tail, cur, acc);
  }

  lemma SplitPlainValue(pre: string, k: string, v: Option<string>, tail: string, cur: Group, acc: seq<Group>)
    requires pre == "" || pre == " "
    requires PlainKey(k) && (v.Some? ==> '\n' !in v.value) && FollowsPair(tail)
    requires !Exhausted(pre + k + (JoinedValue(v) + tail))
    ensures SplitFrom(pre + k + (JoinedValue(v) + tail), cur, acc) == SplitFrom(tail, Put(cur, k, v), acc)
  {
    JoinPairSingleLine(Pair(k, v));
    assert '\n' !in JoinedValue(v);
    JoinedValueReadsBack(v, tail);
    SplitPlainWord(pre, k, JoinedValue(v) + tail, v, tail, cur, acc);
  }

  predicate ReadsBackPair(pre: string, p: Pair<Option<string>>, tail: string, cur: Group, acc: seq<Group>) {
    SplitFrom(pre + JoinPair(p) + tail, cur, acc) == SplitFrom(tail, Put(cur, p.key, p.value), acc)
  }

  lemma SplitPlainPair(pre: string, p: Pair<Option<string>>, tail: string, cur: Group, acc: seq<Group>)
    requires pre == "" || pre == " "
    requires PlainKey(p.key) && (p.value.Some? ==> '\n' !in p.value.value) && FollowsPair(tail)
    requires !Exhausted(pre + JoinPair(p) + tail)
    ensures ReadsBackPair(pre, p, tail, cur, acc)
  {
    Regroup(pre, p.key, JoinedValue(p.value), tail);
    SplitPlainValue(pre, p.key, p.value, tail, cur, acc);
  }

  /** One serialized pair, after an optional space, is read back as that pair. */
  lemma SplitPair(pre: string, p: Pair<Option<string>>, tail: string, cur: Group, acc: seq<Group>)
    requires pre == "" || pre == " "
    requires Reparsable(p) && FollowsPair(tail)
    requires !Exhausted(pre + JoinPair(p) + tail)
    ensures ReadsBackPair(pre, p, tail, cur, acc)
  {
    if LinkKey(p.key) && p.value.None? {
      assert JoinPair(p) == p.key + [] == p.key;
      SplitLinkPair(pre, p.key, tail, cur, acc);
    } else {
      SplitPlainPair(pre, p, tail, cur, acc);
    }
  }

  /** `; ` between two pairs is skipped. */
  lemma SplitSemicolon(rest: string, cur: Group, acc: seq<Group>)
    requires '\n' !in rest
    ensures SplitFrom("; " + rest, cur, acc) == SplitFrom(" " + rest, cur, acc)
  {
    var h := "; " + rest;
    NextStepAtSemicolon(h);
    assert h[1..] == " " + rest;
    LineOfSingleLine(" " + rest);
    StepSeparator(h, " " + rest, cur, acc);
  }

  /** `, ` between two groups closes the current one. */
  lemma SplitComma(rest: string, cur: Group, acc: seq<Group>)
    requires '\n' !in rest
    ensures SplitFrom(", " + rest, cur, acc) == SplitFrom(" " + rest, [], Close(acc, cur))
  {
    var h := ", " + rest;
    NextStepAtComma(h);
    assert h[1..] == " " + rest;
    LineOfSingleLine(" " + rest);
    StepGroupEnd(h, " " + rest, cur, acc);
  }

  lemma Regroup3(a: string, b: string, c: string)
    ensures a + b + c == a + (b + c)
  {
  }

  lemma Regroup5(pre: string, x: string, sep: string, m: string, tail: string)
    ensures pre + (x + sep + m) + tail == pre + x + (sep + (m + tail))
  {
  }

  lemma Regroup4(a: string, b: string, c: string, d: string)
    ensures a + (b + c + d) == a + b + (c + d)
  {
  }

  /** Appending a pair whose key is new is PHP's assignment to a new key. */
  lemma PutNewKey(done: Group, ps: Group)
    requires |ps| > 0 && DistinctKeys(done + ps)
    ensures Put(done, ps[0].key, ps[0].value) == done + [ps[0]]
  {
    forall j | 0 <= j < |done| ensures done[j].key != ps[0].key {
      assert (done + ps)[j] == done[j];
      assert (done + ps)[|done|] == ps[0];
    }
  }

  lemma PairsSingleLine(ps: Group)
    requires forall i :: 0 <= i < |ps| ==> Reparsable(ps[i])
    ensures '\n' !in Implode("; ", JoinedPairs(ps))
  {
    forall j | 0 <= j < |ps| ensures '\n' !in JoinedPairs(ps)[j] {
      JoinPairSingleLine(ps[j]);
    }
    ImplodeSingleLine("; ", JoinedPairs(ps));
  }

  /** The pairs `ps` that follow the already read pairs `done` of a group are
      read back into that group, up to the `,` or the end that follows. */
  lemma {:induction false} SplitPairsFrom(pre: string, done: Group, ps: Group, tail: string, acc: seq<Group>)
    requires pre == "" || pre == " "
    requires |ps| > 0 && (forall i :: 0 <= i < |ps| ==> Reparsable(ps[i])) && DistinctKeys(done + ps)
    requires FollowsPair(tail)
    requires !Exhausted(pre + Implode("; ", JoinedPairs(ps)) + tail)
    ensures SplitFrom(pre + Implode("; ", JoinedPairs(ps)) + tail, done, acc) == SplitFrom(tail, done + ps, acc)
    decreases |ps|
  {
    if |ps| == 1 {
      SplitOnlyPair(pre, done, ps, tail, acc);
    } else {
      SplitFirstPair(pre, done, ps, tail, acc);
      PutFirstPair(done, ps);
      assert forall i :: 0 <= i < |ps[1..]| ==> Reparsable(ps[1..][i]) by {
        forall i | 0 <= i < |ps[1..]| ensures Reparsable(ps[1..][i]) { assert ps[1..][i] == ps[i + 1]; }
      }
      SplitPairsFrom(" ", done + [ps[0]], ps[1..], tail, acc);
    }
  }

  /** A group's only pair is read back and added to it. */
  lemma SplitOnlyPair(pre: string, done: Group, ps: Group, tail: string, acc: seq<Group>)
    requires pre == "" || pre == " "
    requires |ps| == 1 && Reparsable(ps[0]) && DistinctKeys(done + ps)
    requires FollowsPair(tail)
    requires !Exhausted(pre + Implode("; ", JoinedPairs(ps)) + tail)
    ensures SplitFrom(pre + Implode("; ", JoinedPairs(ps)) + tail, done, acc) == SplitFrom(tail, done + ps, acc)
  {
    var p := ps[0];
    PutNewKey(done, ps);
    assert Implode("; ", JoinedPairs(ps)) == JoinPair(p);
    SplitPair(pre, p, tail, done, acc);
    assert ps == [p];
  }

  /** Moving the first of the pairs into the group read so far keeps the
      keys distinct. */
  lemma PutFirstPair(done: Group, ps: Group)
    requires |ps| > 1 && DistinctKeys(done + ps)
    ensures Put(done, ps[0].key, ps[0].value) == done + [ps[0]]
    ensures done + [ps[0]] + ps[1..] == done + ps
    ensures DistinctKeys(done + [ps[0]] + ps[1..])
  {
    PutNewKey(done, ps);
    assert done + [ps[0]] + ps[1..] == done + ps;
  }

  /** The first of several pairs is read, and so is the `; ` after it. */
  lemma SplitFirstPair(pre: string, done: Group, ps: Group, tail: string, acc: seq<Group>)
    requires pre == "" || pre == " "
    requires |ps| > 1 && (forall i :: 0 <= i < |ps| ==> Reparsable(ps[i]))
    requires FollowsPair(tail)
    requires !Exhausted(pre + Implode("; ", JoinedPairs(ps)) + tail)
    ensures !Exhausted(" " + Implode("; ", JoinedPairs(ps[1..])) + tail)
    ensures SplitFrom(pre + Implode("; ", JoinedPairs(ps)) + tail, done, acc) ==
      SplitFrom(" " + Implode("; ", JoinedPairs(ps[1..])) + tail, Put(done, ps[0].key, ps[0].value), acc)
  {
    var p := ps[0];
    var rest := ps[1..];
    var m := Implode("; ", JoinedPairs(rest));
    assert JoinedPairs(ps)[1..] == JoinedPairs(rest);
    assert Implode("; ", JoinedPairs(ps)) == JoinPair(p) + "; " + m;
    Regroup5(pre, JoinPair(p), "; ", m, tail);
    PairsSingleLine(rest);
    SplitPair(pre, p, "; " + (m + tail), done, acc);
    SplitSemicolon(m + tail, Put(done, p.key, p.value), acc);
    Regroup3(" ", m, tail);
  }

  /** Each group joined on its own. */
  function JoinedAll(gs: seq<Group>): (r: seq<string>)
    ensures |r| == |gs|
    ensures forall i :: 0 <= i < |gs| ==> r[i] == JoinGroup(gs[i])
  {
    seq(|gs|, i requires 0 <= i < |gs| => JoinGroup(gs[i]))
  }

  /** Without empty groups, join writes every group. */
  lemma {:induction false} JoinedGroupsOfNonEmpty(gs: seq<Group>)
    requires forall i :: 0 <= i < |gs| ==> |gs[i]| > 0
    ensures JoinedGroups(gs) == JoinedAll(gs)
    decreases |gs|
  {
    if gs != [] {
      var front := gs[..|gs| - 1];
      JoinedGroupsOfNonEmpty(front);
      var last := JoinGroup(gs[|gs| - 1]);
      assert JoinedGroups(gs) == JoinedAll(front) + [last];
      forall i | 0 <= i < |gs| ensures (JoinedAll(front) + [last])[i] == JoinedAll(gs)[i] {
        if i < |front| {
          assert front[i] == gs[i];
        }
      }
    }
  }

  lemma JoinedAllSingleLine(gs: seq<Group>)
    requires forall i :: 0 <= i < |gs| ==> ReparsableGroup(gs[i])
    ensures '\n' !in Implode(", ", JoinedAll(gs))
  {
    forall j | 0 <= j < |gs| ensures '\n' !in JoinedAll(gs)[j] {
      PairsSingleLine(gs[j]);
    }
    ImplodeSingleLine(", ", JoinedAll(gs));
  }

  /** The first of several groups is read back and closed by the `, `. */
  lemma SplitFirstGroup(pre: string, gs: seq<Group>, acc: seq<Group>)
    requires pre == "" || pre == " "
    requires |gs| > 1 && forall i :: 0 <= i < |gs| ==> ReparsableGroup(gs[i])
    requires !Exhausted(pre + Implode(", ", JoinedAll(gs)))
    ensures SplitFrom(pre + Implode(", ", JoinedAll(gs)), [], acc) ==
            SplitFrom(" " + Implode(", ", JoinedAll(gs[1..])), [], acc + [gs[0]])
  {
    var g := gs[0];
    var text := Implode("; ", JoinedPairs(g));
    var m := Implode(", ", JoinedAll(gs[1..]));
    assert JoinedAll(gs)[1..] == JoinedAll(gs[1..]);
    assert Implode(", ", JoinedAll(gs)) == text + ", " + m;
    Regroup4(pre, text, ", ", m);
    JoinedAllSingleLine(gs[1..]);
    assert [] + g == g;
    SplitPairsFrom(pre, [], g, ", " + m, acc);
    SplitComma(m, g, acc);
    assert Close(acc, g) == acc + [g];
  }

  /** The last group is read back and closed by the end of the text. */
  lemma SplitLastGroup(pre: string, g: Group, acc: seq<Group>)
    requires pre == "" || pre == " "
    requires ReparsableGroup(g)
    requires !Exhausted(pre + Implode(", ", JoinedAll([g])))
    ensures SplitFrom(pre + Implode(", ", JoinedAll([g])), [], acc) == Success(acc + [g])
  {
    var text := Implode("; ", JoinedPairs(g));
    assert Implode(", ", JoinedAll([g])) == text;
    assert pre + text == pre + text + "";
    assert [] + g == g;
    SplitPairsFrom(pre, [], g, "", acc);
  }

  /** The groups `gs` are read back, after those in `acc`. */
  lemma {:induction false} SplitGroupList(pre: string, gs: seq<Group>, acc: seq<Group>)
    requires pre == "" || pre == " "
    requires |gs| > 0 && forall i :: 0 <= i < |gs| ==> ReparsableGroup(gs[i])
    requires !Exhausted(pre + Implode(", ", JoinedAll(gs)))
    ensures SplitFrom(pre + Implode(", ", JoinedAll(gs)), [], acc) == Success(acc + gs)
    decreases |gs|
  {
    if |gs| == 1 {
      assert gs == [gs[0]];
      SplitLastGroup(pre, gs[0], acc);
    } else {
      SplitFirstGroup(pre, gs, acc);
      RestReparsable(gs, acc);
      SplitGroupList(" ", gs[1..], acc + [gs[0]]);
    }
  }

  /** What the recursive call on the remaining groups needs. */
  lemma RestReparsable(gs: seq<Group>, acc: seq<Group>)
    requires |gs| > 0 && forall i :: 0 <= i < |gs| ==> ReparsableGroup(gs[i])
    ensures forall i :: 0 <= i < |gs[1..]| ==> ReparsableGroup(gs[1..][i])
    ensures !Exhausted(" " + Implode(", ", JoinedAll(gs[1..])))
    ensures acc + [gs[0]] + gs[1..] == acc + gs
  {
    assert (" " + Implode(", ", JoinedAll(gs[1..])))[0] == ' ';
    forall i | 0 <= i < |gs[1..]| ensures ReparsableGroup(gs[1..][i]) {
      assert gs[1..][i] == gs[i + 1];
    }
  }

  /** Join is the inverse of split: groups of keys that split reads back as
      keys (a `<...>` Link target without a value, or a run of attribute
      characters), with distinct keys and values on one line, are recovered
      exactly from their serialization. Spacing and quoting are normalised
      by join, so only this direction holds. The serialization "0" is the
      one exception: PHP's `while ($header)` reads it as the end of input. */
  lemma SplitJoinRoundTrip(gs: seq<Group>)
    requires forall i :: 0 <= i < |gs| ==> ReparsableGroup(gs[i])
    requires Join(gs) != "0"
    ensures Split([Join(gs)]) == Success(gs)
  {
    var j := Join(gs);
    assert SplitFrom(j, [], []) == Success(gs) by {
      if gs == [] {
        assert j == "";
      } else {
        JoinedGroupsOfNonEmpty(gs);
        assert "" + Implode(", ", JoinedAll(gs)) == j;
        SplitGroupList("", gs, []);
        assert [] + gs == gs;
      }
    }
    SplitOneString(j, gs);
  }

  /** The parameter text explode leaves after a MIME type written as
      `mime; params`: a space, the joined group, and the `;` appended before
      exploding. Split reads the group back. */
  lemma SplitParamsText(g: Group)
    requires ReparsableGroup(g)
    ensures Split([" " + JoinGroup(g) + ";"]) == Success([g])
  {
    var text := Implode("; ", JoinedPairs(g));
    var h := " " + text + ";";
    assert h[0] == ' ';
    assert [] + g == g;
    SplitPairsFrom(" ", [], g, ";", []);
    assert SplitFrom(h, [], []) == SplitFrom(";", g, []);
    SemicolonEnds(g);
    SplitOneString(h, [g]);
  }

  /** A trailing `;` closes the group being built. */
  lemma SemicolonEnds(g: Group)
    requires |g| > 0
    ensures SplitFrom(";", g, []) == Success([g])
  {
    NextStepAtSemicolon(";");
    assert Line(";"[1..]) == "";
    StepSeparator(";", "", g, []);
    assert SplitFrom("", g, []) == Success(Close([], g));
    assert [] + [g] == [g];
  }

  lemma SplitOneString(h: string, gs: seq<Group>)
    requires SplitFrom(h, [], []) == Success(gs)
    ensures Split([h]) == Success(gs)
  {
    assert [h][0] == h && [h][1..] == [];
    assert SplitValues([h], []) == SplitValues([], gs);
  }
}
