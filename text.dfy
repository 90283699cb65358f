/** Character classes, scanners and the PHP string built-ins (`trim`,
    `implode`, `str_replace`, `strcasecmp`) that the header and body code
    relies on, over strings as sequences of characters.

    Regular-expression notes: the patterns are compiled without the UTF
    flag, so `\s` is the six ASCII white-space characters, case-insensitive
    matching folds only ASCII letters, and `.` matches anything except a
    line feed. */
module Text {
  import opened Wrappers

  /** PCRE `\s`: space, HT, LF, VT, FF, CR. */
  predicate IsSpace(c: char) {
    c == ' ' || 9 <= c as int <= 13
  }

  function LowerChar(c: char): char {
    if 'A' <= c <= 'Z' then (c as int + 32) as char else c
  }

  /** ASCII lower-casing, one character at a time. */
  function Lower(s: string): (r: string)
    ensures |r| == |s|
    ensures forall i :: 0 <= i < |s| ==> r[i] == LowerChar(s[i])
  {
    seq(|s|, i requires 0 <= i < |s| => LowerChar(s[i]))
  }

  /** `strcasecmp(a, b) === 0`: equal after ASCII case folding. */
  predicate CaseEq(a: string, b: string) {
    Lower(a) == Lower(b)
  }

  /** The case-insensitive literal `lit` (given in lower case) occurs in `s`
      at position `i`, as a PCRE literal under the `i` flag. */
  predicate StartsWithCI(s: string, i: nat, lit: string) {
    i + |lit| <= |s| && forall j :: 0 <= j < |lit| ==> LowerChar(s[i + j]) == lit[j]
  }

  /** The end of the greedy run of characters of class `p` that starts at
      `i`: `[class]*` in a pattern. */
  function SkipWhile(s: string, i: nat, p: char -> bool): (r: nat)
    requires i <= |s|
    decreases |s| - i
    ensures i <= r <= |s|
    ensures forall j :: i <= j < r ==> p(s[j])
    ensures r < |s| ==> !p(s[r])
  {
    if i == |s| || !p(s[i]) then i else SkipWhile(s, i + 1, p)
  }

  /** A run of characters of one class ends exactly where the class stops. */
  lemma SkipWhileAt(s: string, i: nat, p: char -> bool, r: nat)
    requires i <= r <= |s|
    requires forall j :: i <= j < r ==> p(s[j])
    requires r < |s| ==> !p(s[r])
    ensures SkipWhile(s, i, p) == r
  {
  }

  /** First index at or after `i` holding `c`, or `|s|` when there is none. */
  function IndexOf(s: string, i: nat, c: char): (r: nat)
    requires i <= |s|
    ensures i <= r <= |s|
    ensures forall j :: i <= j < r ==> s[j] != c
    ensures r < |s| ==> s[r] == c
    decreases |s| - i
  {
    if i == |s| || s[i] == c then i else IndexOf(s, i + 1, c)
  }

  /** The first `c` at or after `i` is the one at `r`. */
  lemma IndexOfAt(s: string, i: nat, c: char, r: nat)
    requires i <= r <= |s|
    requires forall j :: i <= j < r ==> s[j] != c
    requires r < |s| ==> s[r] == c
    ensures IndexOf(s, i, c) == r
  {
  }

  /** End of the line that contains position `i`: where a `.*` starting at
      `i` stops. */
  function LineEnd(s: string, i: nat): (r: nat)
    requires i <= |s|
    ensures i <= r <= |s|
    ensures forall j :: i <= j < r ==> s[j] != '\n'
    ensures r < |s| ==> s[r] == '\n'
  {
    IndexOf(s, i, '\n')
  }

  /** What a trailing `(.*)` captures: the text up to the first line feed. */
  function Line(s: string): (r: string)
    ensures |r| <= |s| && r == s[..|r|]
    ensures '\n' !in r
    ensures |r| < |s| ==> s[|r|] == '\n'
  {
    s[..LineEnd(s, 0)]
  }

  lemma LineOfSingleLine(s: string)
    requires '\n' !in s
    ensures Line(s) == s
  {
  }

  /** The characters PHP's `trim` removes by default: " \t\n\r\0\x0B". */
  predicate IsTrimmed(c: char) {
    c == ' ' || c == '\t' || c == '\n' || c == '\r' || c == '\0' || c as int == 11
  }

  /** PHP `trim($s)`: the text between the first and the last character
      that is not one of those. */
  function Trim(s: string): (r: string)
    ensures r != [] ==> !IsTrimmed(r[0]) && !IsTrimmed(r[|r| - 1])
    ensures (forall i :: 0 <= i < |s| ==> !IsTrimmed(s[i])) ==> r == s
    ensures exists a: nat, b: nat ::
      a <= b <= |s| && r == s[a..b] &&
      (forall i :: 0 <= i < a ==> IsTrimmed(s[i])) && (forall i :: b <= i < |s| ==> IsTrimmed(s[i]))
  {
    var a := SkipWhile(s, 0, IsTrimmed);
    var kept := (j: nat) => j < |s| && !IsTrimmed(s[j]);
    match LastWhere(a, |s|, kept)
    case None =>
      assert a < |s| ==> kept(a);
      assert s[a..a] == [];
      []
    case Some(b) =>
      assert forall j :: b + 1 <= j < |s| ==> IsTrimmed(s[j]) by {
        forall j | b + 1 <= j < |s| ensures IsTrimmed(s[j]) {
          assert !kept(j);
        }
      }
      s[a..b + 1]
  }

  /** Least position in [lo, hi) that satisfies `p`: how a pattern engine
      picks the leftmost start, or a lazy quantifier its shortest length. */
  function FirstWhere(lo: nat, hi: nat, p: nat -> bool): (r: Option<nat>)
    decreases hi - lo
    ensures r.Some? ==> lo <= r.value < hi && p(r.value)
    ensures r.Some? ==> forall j :: lo <= j < r.value ==> !p(j)
    ensures r.None? ==> forall j :: lo <= j < hi ==> !p(j)
  {
    if hi <= lo then None
    else if p(lo) then Some(lo)
    else FirstWhere(lo + 1, hi, p)
  }

  /** Greatest position in [lo, hi) that satisfies `p`: how a greedy
      quantifier picks its longest length. */
  function LastWhere(lo: nat, hi: nat, p: nat -> bool): (r: Option<nat>)
    decreases hi - lo
    ensures r.Some? ==> lo <= r.value < hi && p(r.value)
    ensures r.Some? ==> forall j :: r.value < j < hi ==> !p(j)
    ensures r.None? ==> forall j :: lo <= j < hi ==> !p(j)
  {
    if hi <= lo then None
    else if p(hi - 1) then Some(hi - 1)
    else LastWhere(lo, hi - 1, p)
  }

  /** PHP `implode($sep, $parts)`. */
  function Implode(sep: string, parts: seq<string>): (r: string)
    ensures |parts| == 1 ==> r == parts[0]
  {
    if |parts| == 0 then ""
    else if |parts| == 1 then parts[0]
    else parts[0] + sep + Implode(sep, parts[1..])
  }

  /** PHP `str_replace($needle, $replacement, $s)`: every occurrence, scanned
      left to right without overlap; an empty needle replaces nothing. */
  function ReplaceAll(s: string, needle: string, replacement: string): (r: string)
    decreases |s|
  {
    if needle == [] || s == [] then s
    else if needle <= s then replacement + ReplaceAll(s[|needle|..], needle, replacement)
    else [s[0]] + ReplaceAll(s[1..], needle, replacement)
  }

  /** `needle` occurs in `s` starting at `i`. */
  predicate OccursAt(s: string, needle: string, i: nat) {
    i + |needle| <= |s| && s[i..i + |needle|] == needle
  }

  /** Without an occurrence of the needle, str_replace leaves the text as it is. */
  lemma {:induction false} ReplaceAllAbsent(s: string, needle: string, replacement: string)
    requires forall i :: 0 <= i < |s| ==> !OccursAt(s, needle, i)
    ensures ReplaceAll(s, needle, replacement) == s
  {
    if needle == [] || s == [] {
    } else {
      assert !OccursAt(s, needle, 0);
      assert !(needle <= s);
      forall i | 0 <= i < |s[1..]|
        ensures !OccursAt(s[1..], needle, i)
      {
        assert !OccursAt(s, needle, i + 1);
        assert i + |needle| <= |s[1..]| ==> s[1..][i..i + |needle|] == s[i + 1..i + 1 + |needle|];
      }
      ReplaceAllAbsent(s[1..], needle, replacement);
    }
  }

  /** Replacing a needle by itself changes nothing. */
  lemma {:induction false} ReplaceAllSelf(s: string, needle: string)
    ensures ReplaceAll(s, needle, needle) == s
  {
    if needle == [] || s == [] {
    } else if needle <= s {
      ReplaceAllSelf(s[|needle|..], needle);
      assert s == needle + s[|needle|..];
    } else {
      ReplaceAllSelf(s[1..], needle);
      assert s == [s[0]] + s[1..];
    }
  }
}
