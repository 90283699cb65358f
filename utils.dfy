/** The header-word codec of src/Utils.php: `splitHttpHeaderWords`,
    `joinHttpHeaderWords` and the case-insensitive get and set over PHP
    arrays with string keys.

    A PHP array with string keys is an ordered association: it is modelled
    as a sequence of key/value pairs in insertion order. */
module Utils {
  import opened Wrappers
  import opened Text

  /** One entry of a PHP array with string keys. */
  datatype Pair<V> = Pair(key: string, value: V)

  /** One parsed group of header words (`array<string, ?string>`): the keys in
      the order first seen; a key written without `=value` maps to None. */
  type Group = seq<Pair<Option<string>>>

  /** The exception thrown when no rule of the grammar applies; it carries
      the unconsumed remainder. */
  datatype SplitError = MalformedHeaderWords(remainder: string)

  // ---------------------------------------------------------------------
  // Case-insensitive lookup and update (getByCaseInsensitiveKey,
  // setByCaseInsensitiveKey) and PHP's own exact-key assignment.
  // ---------------------------------------------------------------------

  /** Position of the first key equal to `key` ignoring ASCII case. */
  function KeyIndex<V>(words: seq<Pair<V>>, key: string): (r: Option<nat>)
    ensures r.Some? ==> r.value < |words| && CaseEq(words[r.value].key, key)
    ensures r.Some? ==> forall j :: 0 <= j < r.value ==> !CaseEq(words[j].key, key)
    ensures r.None? ==> forall j :: 0 <= j < |words| ==> !CaseEq(words[j].key, key)
  {
    var p := (i: nat) => i < |words| && CaseEq(words[i].key, key);
    var r := FirstWhere(0, |words|, p);
    assert forall j :: 0 <= j < |words| && !p(j) ==> !CaseEq(words[j].key, key);
    r
  }

  /** Which entry a key selects depends on the keys alone. */
  lemma KeyIndexOfSameKeys<V, W>(a: seq<Pair<V>>, b: seq<Pair<W>>, key: string)
    requires |a| == |b| && forall j :: 0 <= j < |a| ==> a[j].key == b[j].key
    ensures KeyIndex(a, key) == KeyIndex(b, key)
  {
  }

  /** The value stored under the first key that equals `key` ignoring ASCII
      case; None when there is no such key. */
  function GetCI<V>(words: seq<Pair<V>>, key: string): (r: Option<V>)
    ensures r.None? <==> forall j :: 0 <= j < |words| ==> !CaseEq(words[j].key, key)
    ensures r.Some? ==>
      exists j :: 0 <= j < |words| && CaseEq(words[j].key, key) &&
        r.value == words[j].value && forall i :: 0 <= i < j ==> !CaseEq(words[i].key, key)
  {
    match KeyIndex(words, key)
    case Some(i) => Some(words[i].value)
    case None => None
  }

  /** Lookup of a header word: a key present without a value reads as absent,
      as PHP's null does. */
  function GetWord(g: Group, key: string): (r: Option<string>)
    ensures r.Some? ==> GetCI(g, key) == Some(r)
    ensures r.None? ==> GetCI(g, key) == None || GetCI(g, key) == Some(None)
  {
    match GetCI(g, key)
    case Some(v) => v
    case None => None
  }

  /** Case-preserving update: the first key equal to `key` ignoring case keeps
      its spelling and position and takes the new value; without one, the
      caller's key is appended. */
  function SetCI<V>(words: seq<Pair<V>>, key: string, v: V): (r: seq<Pair<V>>)
    ensures forall k :: CaseEq(k, key) ==> GetCI(r, k) == Some(v)
    ensures forall k :: !CaseEq(k, key) ==> GetCI(r, k) == GetCI(words, k)
    ensures KeyIndex(words, key).Some? ==> |r| == |words|
    ensures KeyIndex(words, key).None? ==> r == words + [Pair(key, v)]
    ensures forall j :: 0 <= j < |words| ==> r[j].key == words[j].key
    ensures forall j :: 0 <= j < |words| && KeyIndex(words, key) != Some(j) ==> r[j] == words[j]
  {
    match KeyIndex(words, key)
    case Some(i) =>
      SetAtFirstMatch(words, key, i, v);
      words[i := Pair(words[i].key, v)]
    case None =>
      AppendNewKey(words, key, v);
      words + [Pair(key, v)]
  }

  /** Updating the value of the entry a key selects: that key, under any
      spelling, now reads the new value; every other key reads as before. */
  lemma SetAtFirstMatch<V>(words: seq<Pair<V>>, key: string, i: nat, v: V)
    requires KeyIndex(words, key) == Some(i)
    ensures forall k :: CaseEq(k, key) ==> GetCI(words[i := Pair(words[i].key, v)], k) == Some(v)
    ensures forall k :: !CaseEq(k, key) ==> GetCI(words[i := Pair(words[i].key, v)], k) == GetCI(words, k)
  {
    var r := words[i := Pair(words[i].key, v)];
    forall k ensures KeyIndex(r, k) == KeyIndex(words, k) {
      KeyIndexOfSameKeys(r, words, k);
    }
    forall k | CaseEq(k, key) ensures KeyIndex(words, k) == Some(i) {
      assert CaseEq(words[i].key, k);
    }
  }

  /** Appending an entry under a key no entry matches. */
  lemma AppendNewKey<V>(words: seq<Pair<V>>, key: string, v: V)
    requires KeyIndex(words, key).None?
    ensures forall k :: CaseEq(k, key) ==> GetCI(words + [Pair(key, v)], k) == Some(v)
    ensures forall k :: !CaseEq(k, key) ==> GetCI(words + [Pair(key, v)], k) == GetCI(words, k)
  {
    var r := words + [Pair(key, v)];
    forall k | CaseEq(k, key) ensures KeyIndex(r, k) == Some(|words|) {
      assert CaseEq(r[|words|].key, k);
    }
    forall k | !CaseEq(k, key) ensures KeyIndex(r, k) == KeyIndex(words, k) {
      assert !CaseEq(r[|words|].key, k);
      if KeyIndex(words, k).Some? {
        assert CaseEq(r[KeyIndex(words, k).value].key, k);
      }
    }
  }

  /** getByCaseInsensitiveKey: scan the entries, returning at the first key
      equal to `key` ignoring case. */
  method GetByCaseInsensitiveKey<V>(words: seq<Pair<V>>, key: string) returns (r: Option<V>)
    ensures r == GetCI(words, key)
  {
    for i := 0 to |words|
      invariant forall j :: 0 <= j < i ==> !CaseEq(words[j].key, key)
    {
      if CaseEq(words[i].key, key) {
        return Some(words[i].value);
      }
    }
    return None;
  }

  /** setByCaseInsensitiveKey: find the stored spelling of the key, then
      assign under it in a copy of the array. */
  method SetByCaseInsensitiveKey<V>(words: seq<Pair<V>>, key: string, newValue: V)
    returns (r: seq<Pair<V>>)
    ensures r == SetCI(words, key, newValue)
  {
    var stored := key;
    var at := |words|;
    for i := 0 to |words|
      invariant forall j :: 0 <= j < i ==> !CaseEq(words[j].key, key)
    {
      if CaseEq(words[i].key, key) {
        stored, at := words[i].key, i;
        break;
      }
    }
    // `$words[$key] = $newValue` under the stored spelling
    if at < |words| {
      r := words[at := Pair(stored, newValue)];
    } else {
      r := words + [Pair(stored, newValue)];
    }
  }

  /** Position of the entry whose key is exactly `key`. */
  function ExactIndex<V>(words: seq<Pair<V>>, key: string): (r: Option<nat>)
    ensures r.Some? ==> r.value < |words| && words[r.value].key == key
    ensures r.None? ==> forall j :: 0 <= j < |words| ==> words[j].key != key
  {
    var p := (i: nat) => i < |words| && words[i].key == key;
    var r := FirstWhere(0, |words|, p);
    assert forall j :: 0 <= j < |words| && !p(j) ==> words[j].key != key;
    r
  }

  /** PHP's `$array[$key] = $value`: an existing key keeps its position and
      takes the new value; a new key is appended. */
  function Put<V>(words: seq<Pair<V>>, key: string, v: V): (r: seq<Pair<V>>)
    ensures ExactIndex(words, key).None? ==> r == words + [Pair(key, v)]
    ensures ExactIndex(words, key).Some? ==> r == words[ExactIndex(words, key).value := Pair(key, v)]
  {
    match ExactIndex(words, key)
    case Some(i) => words[i := Pair(key, v)]
    case None => words + [Pair(key, v)]
  }

  /** No key occurs twice, as in every PHP array. */
  predicate DistinctKeys<V>(words: seq<Pair<V>>) {
    forall i, j :: 0 <= i < j < |words| ==> words[i].key != words[j].key
  }

  lemma PutKeepsKeysDistinct<V>(words: seq<Pair<V>>, key: string, v: V)
    requires DistinctKeys(words)
    ensures DistinctKeys(Put(words, key, v))
    ensures exists j :: 0 <= j < |Put(words, key, v)| && Put(words, key, v)[j] == Pair(key, v)
  {
    var r := Put(words, key, v);
    match ExactIndex(words, key)
    case Some(i) => assert r[i] == Pair(key, v);
    case None => assert r[|words|] == Pair(key, v);
  }

  // ---------------------------------------------------------------------
  // splitHttpHeaderWords
  // ---------------------------------------------------------------------

  /** `[^\s=;,]`: a character of a token or parameter attribute. */
  predicate IsKeyChar(c: char) {
    !IsSpace(c) && c != '=' && c != ';' && c != ','
  }

  predicate IsEqualsSign(c: char) {
    c == '='
  }

  /** `[^;,\s]`: a character of an unquoted value. */
  predicate IsUnquotedChar(c: char) {
    !IsSpace(c) && c != ';' && c != ','
  }

  /** The rule of the loop body that applied to the remaining text, with what
      it consumed and what remains (a trailing `(.*)`, so up to the first line
      feed). */
  datatype Step =
    | LinkTarget(key: string, rest: string)                      // `<...>`, no value
    | Attribute(key: string, value: Option<string>, rest: string) // token or attribute
    | GroupEnd(rest: string)                                     // `,`
    | Separator(rest: string)                                    // `;` or white space
    | Stuck                                                      // no rule applies

  /** The value that may follow an attribute. */
  datatype ValueParse = ValueParse(value: Option<string>, rest: string)

  /** Index of the `"` that closes a quoted string whose content starts at
      `p`: `[^"\\]*(?:\\.[^"\\]*)*"`, where a backslash escapes any character
      except a line feed. */
  function QuotedEnd(s: string, p: nat): (r: Option<nat>)
    requires p <= |s|
    decreases |s| - p
    ensures r.Some? ==> p <= r.value < |s| && s[r.value] == '"'
  {
    if p == |s| then None
    else if s[p] == '"' then Some(p)
    else if s[p] == '\\' then
      if p + 1 < |s| && s[p + 1] != '\n' then QuotedEnd(s, p + 2) else None
    else QuotedEnd(s, p + 1)
  }

  /** `preg_replace('/\\\\(.)/', '$1', $val)`: drop each backslash that is
      followed by a character other than a line feed, keeping that character. */
  function Unescape(s: string): (r: string)
    decreases |s|
  {
    if s == [] then []
    else if s[0] == '\\' && |s| >= 2 && s[1] != '\n' then [s[1]] + Unescape(s[2..])
    else [s[0]] + Unescape(s[1..])
  }

  /** The value patterns tried after an attribute: first
      `^\s*=\s*"(...)"(.*)`, then `^\s*=\s*([^;,\s]*)(.*)` (trimmed);
      neither matching leaves the attribute without a value. */
  function AttributeValue(s: string): (r: ValueParse)
    ensures |r.rest| <= |s|
  {
    var a := SkipWhile(s, 0, IsSpace);
    if a < |s| && s[a] == '=' then
      var b := SkipWhile(s, a + 1, IsSpace);
      var close := if b < |s| && s[b] == '"' then QuotedEnd(s, b + 1) else None;
      if close.Some? then
        ValueParse(Some(Unescape(s[b + 1..close.value])), Line(s[close.value + 1..]))
      else
        var d := SkipWhile(s, b, IsUnquotedChar);
        ValueParse(Some(Trim(s[b..d])), Line(s[d..]))
    else
      ValueParse(None, s)
  }

  /** One pass of the loop body: the first of the five patterns that matches
      the remaining text `h`. */
  function NextStep(h: string): (t: Step)
    ensures !t.Stuck? ==> |t.rest| < |h|
  {
    var i := SkipWhile(h, 0, IsSpace);
    var close := if i < |h| then IndexOf(h, i + 1, '>') else |h|;
    if i < |h| && h[i] == '<' && close < |h| then
      // ^\s*(<[^>]*>)(.*)
      LinkTarget(h[i..close + 1], Line(h[close + 1..]))
    else
      // ^\s*(=*[^\s=;,]+)(.*)
      var j := SkipWhile(h, i, IsEqualsSign);
      var m := SkipWhile(h, j, IsKeyChar);
      if j < m then
        var v := AttributeValue(Line(h[m..]));
        Attribute(h[i..m], v.value, v.rest)
      else if i < |h| && h[i] == ',' then GroupEnd(Line(h[i + 1..]))
      else if i < |h| && h[i] == ';' then Separator(Line(h[i + 1..]))
      else if 0 < i then Separator(Line(h[i..]))
      else Stuck
  }

  /** PHP's `while ($header)`: both "" and "0" are false. */
  predicate Exhausted(h: string) {
    h == "" || h == "0"
  }

  /** `if (count($cur)) $result[] = $cur;` */
  function Close(acc: seq<Group>, cur: Group): (r: seq<Group>)
    ensures |cur| > 0 ==> r == acc + [cur]
    ensures |cur| == 0 ==> r == acc
  {
    if |cur| > 0 then acc + [cur] else acc
  }

  /** The `while` loop over one header string, from remaining text `h`, the
      group being built `cur` and the groups already emitted `acc`. */
  function SplitFrom(h: string, cur: Group, acc: seq<Group>): Result<seq<Group>, SplitError>
    decreases |h|
  {
    if Exhausted(h) then Success(Close(acc, cur))
    else
      match NextStep(h)
      case LinkTarget(k, rest) => SplitFrom(rest, Put(cur, k, None), acc)
      case Attribute(k, v, rest) => SplitFrom(rest, Put(cur, k, v), acc)
      case GroupEnd(rest) => SplitFrom(rest, [], Close(acc, cur))
      case Separator(rest) => SplitFrom(rest, cur, acc)
      case Stuck => Failure(MalformedHeaderWords(h))
  }

  /** The `foreach` over the header strings, each parsed on its own. */
  function SplitValues(values: seq<string>, acc: seq<Group>): Result<seq<Group>, SplitError>
    decreases |values|
  {
    if values == [] then Success(acc)
    else
      match SplitFrom(values[0], [], acc)
      case Failure(e) => Failure(e)
      case Success(next) => SplitValues(values[1..], next)
  }

  /** splitHttpHeaderWords; a single string is passed as a one-element list. */
  function Split(values: seq<string>): Result<seq<Group>, SplitError> {
    SplitValues(values, [])
  }

  /** splitHttpHeaderWords as the PHP code runs it: a `foreach` over the
      strings and a `while` loop consuming each. */
  method SplitHttpHeaderWords(headerValues: seq<string>) returns (r: Result<seq<Group>, SplitError>)
    ensures r == Split(headerValues)
  {
    var result: seq<Group> := [];
    for n := 0 to |headerValues|
      invariant SplitValues(headerValues[n..], result) == Split(headerValues)
    {
      var header := headerValues[n];
      var cur: Group := [];
      ghost var start := result;
      while !Exhausted(header)
        invariant SplitFrom(header, cur, result) == SplitFrom(headerValues[n], [], start)
        decreases |header|
      {
        match NextStep(header)
        case LinkTarget(k, rest) =>
          cur := Put(cur, k, None);
          header := rest;
        case Attribute(k, v, rest) =>
          cur := Put(cur, k, v);
          header := rest;
        case GroupEnd(rest) =>
          if |cur| > 0 {
            result := result + [cur];
          }
          cur := [];
          header := rest;
        case Separator(rest) =>
          header := rest;
        case Stuck =>
          assert headerValues[n..][1..] == headerValues[n + 1..];
          return Failure(MalformedHeaderWords(header));
      }
      if |cur| > 0 {
        result := result + [cur];
      }
      assert headerValues[n..][1..] == headerValues[n + 1..];
    }
    return Success(result);
  }

  // ---------------------------------------------------------------------
  // joinHttpHeaderWords
  // ---------------------------------------------------------------------

  /** A character the serializer may leave unquoted: not white space, not a
      control character, and not one of `()<>@,;:/[]?.="\`. */
  predicate IsTokenChar(c: char) {
    32 < c as int && c as int != 127 && !IsTokenSpecial(c)
  }

  /** The separators of the token pattern: `()<>@,;:/[]?.="\`. */
  predicate IsTokenSpecial(c: char) {
    c == '(' || c == ')' || c == '<' || c == '>' || c == '@' || c == ',' || c == ';' ||
    c == ':' || c == '/' || c == '[' || c == ']' || c == '?' || c == '.' || c == '=' ||
    c == '"' || c == '\\'
  }

  predicate IsToken(v: string) {
    |v| > 0 && forall i :: 0 <= i < |v| ==> IsTokenChar(v[i])
  }

  /** `preg_match($tokenPattern, $val)` with `#^[^...]+$#`: PCRE's `$` also
      matches just before a final line feed, so a token followed by one line
      feed passes too. */
  predicate MatchesTokenPattern(v: string) {
    IsToken(v) || (|v| >= 2 && v[|v| - 1] == '\n' && IsToken(v[..|v| - 1]))
  }

  /** `preg_replace('/(["\\\\])/', '\\\\$1', $val)`: a backslash before each
      `"` and `\`. */
  function Escape(v: string): (r: string)
    decreases |v|
  {
    if v == [] then []
    else (if v[0] == '"' || v[0] == '\\' then ['\\', v[0]] else [v[0]]) + Escape(v[1..])
  }

  /** What follows the key in an `$attr[]` entry: nothing for a key without
      a value, `=value` bare when the value passes the token pattern, quoted
      and escaped otherwise. */
  function JoinedValue(v: Option<string>): string {
    match v
    case None => ""
    case Some(x) =>
      if MatchesTokenPattern(x) then "=" + x
      else "=\"" + Escape(x) + "\""
  }

  /** One `$attr[]` entry. */
  function JoinPair(p: Pair<Option<string>>): string {
    p.key + JoinedValue(p.value)
  }

  function JoinedPairs(g: Group): (r: seq<string>)
    ensures |r| == |g|
    ensures forall i :: 0 <= i < |g| ==> r[i] == JoinPair(g[i])
  {
    seq(|g|, i requires 0 <= i < |g| => JoinPair(g[i]))
  }

  /** One group: its pairs joined with "; ". */
  function JoinGroup(g: Group): string {
    Implode("; ", JoinedPairs(g))
  }

  /** The `$result` entries: one per non-empty group. */
  function JoinedGroups(gs: seq<Group>): seq<string>
    decreases |gs|
  {
    if gs == [] then []
    else
      var last := gs[|gs| - 1];
      JoinedGroups(gs[..|gs| - 1]) + (if |last| > 0 then [JoinGroup(last)] else [])
  }

  /** The groups joined with ", ". */
  function Join(gs: seq<Group>): string {
    Implode(", ", JoinedGroups(gs))
  }

  /** The argument of joinHttpHeaderWords: a list of groups, or one bare group
      (recognised by its first value not being an array). */
  datatype HeaderWords = GroupList(groups: seq<Group>) | BareGroup(group: Group)

  function AsGroups(w: HeaderWords): seq<Group> {
    match w
    case GroupList(gs) => gs
    case BareGroup(g) => [g]
  }

  /** The inner `foreach` of joinHttpHeaderWords: one `$attr[]` entry per
      pair of the group. */
  method JoinAttributes(header: Group) returns (attr: seq<string>)
    ensures attr == JoinedPairs(header)
  {
    attr := [];
    for j := 0 to |header|
      invariant attr == JoinedPairs(header[..j])
    {
      var key := header[j].key;
      match header[j].value {
        case Some(val) =>
          if MatchesTokenPattern(val) {
            key := key + ("=" + val);
          } else {
            key := key + ("=\"" + Escape(val) + "\"");
          }
        case None =>
      }
      assert key == JoinPair(header[j]);
      assert JoinedPairs(header[..j + 1]) == JoinedPairs(header[..j]) + [key];
      attr := attr + [key];
    }
    assert header[..|header|] == header;
  }

  /** joinHttpHeaderWords: the outer `foreach` over the groups. */
  method JoinHttpHeaderWords(headerValues: HeaderWords) returns (r: string)
    ensures r == Join(AsGroups(headerValues))
  {
    if headerValues == GroupList([]) || headerValues == BareGroup([]) {
      var empty: seq<Group> := [[]];
      assert JoinedGroups(empty) == [] by {
        assert empty[..0] == [];
      }
      return "";
    }
    var groups := AsGroups(headerValues);
    var result: seq<string> := [];
    for i := 0 to |groups|
      invariant result == JoinedGroups(groups[..i])
    {
      var attr := JoinAttributes(groups[i]);
      if |attr| > 0 {
        result := result + [Implode("; ", attr)];
      }
      assert groups[..i + 1][..i] == groups[..i];
    }
    assert groups[..|groups|] == groups;
    return Implode(", ", result);
  }
}
