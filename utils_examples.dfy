/** The documented behaviour of the header-word codec on concrete header
    text: Link targets keep their separators, quoted values lose their
    escapes, single quotes are ordinary characters, and join quotes a value
    that holds a separator. */
module UtilsExamples {
  import opened Wrappers
  import opened Text
  import opened Utils
  import opened UtilsProperties

  /** The serialization of a single group with two or more pairs. */
  lemma JoinOfTwoPairs(p: Pair<Option<string>>, q: Pair<Option<string>>)
    ensures Join([[p, q]]) == JoinPair(p) + "; " + JoinPair(q)
  {
    var g := [p, q];
    assert [g][..0] == [];
    assert JoinedGroups([g]) == [JoinGroup(g)];
    assert JoinedPairs(g) == [JoinPair(p), JoinPair(q)];
    assert JoinedPairs(g)[1..] == [JoinPair(q)];
  }

  /** The serialization of a group with a single pair. */
  lemma JoinOfOnePair(p: Pair<Option<string>>)
    ensures Join([[p]]) == JoinPair(p)
  {
    var g := [p];
    assert [g][..0] == [];
    assert JoinedGroups([g]) == [JoinGroup(g)];
    assert JoinedPairs(g) == [JoinPair(p)];
  }

  /** `<foo,bar>; baz`: the `,` inside the angle brackets neither ends the
      group nor the key, and both keys have no value. */
  lemma LinkTargetKeepsSeparators()
    ensures Split(["<foo,bar>; baz"]) == Success([[Pair("<foo,bar>", None), Pair("baz", None)]])
  {
    var p: Pair<Option<string>> := Pair("<foo,bar>", None);
    var q: Pair<Option<string>> := Pair("baz", None);
    JoinOfTwoPairs(p, q);
    assert JoinPair(p) == "<foo,bar>" && JoinPair(q) == "baz";
    assert Join([[p, q]]) == "<foo,bar>; baz";
    assert Reparsable(p) && Reparsable(q);
    assert ReparsableGroup([p, q]);
    SplitJoinRoundTrip([[p, q]]);
  }

  /** `foo="\"bar\""`: the backslash escapes of a quoted value are removed. */
  lemma QuotedValueIsUnescaped()
    ensures Split(["foo=\"\\\"bar\\\"\""]) == Success([[Pair("foo", Some("\"bar\""))]])
  {
    var p: Pair<Option<string>> := Pair("foo", Some("\"bar\""));
    JoinOfOnePair(p);
    NotTokenAt("\"bar\"", 0);
    EscapedQuotes();
    assert Join([[p]]) == "foo=\"\\\"bar\\\"\"";
    assert ReparsableGroup([p]);
    SplitJoinRoundTrip([[p]]);
  }

  lemma EscapedQuotes()
    ensures Escape("\"bar\"") == "\\\"bar\\\""
  {
    assert Escape("\"") == "\\\"";
    assert Escape("r\"") == "r\\\"";
    assert Escape("ar\"") == "ar\\\"";
    assert Escape("bar\"") == "bar\\\"";
  }

  /** `foo='x'`, as in `foo='bar%20baz'`: single quotes do not quote; the
      value is the whole run of characters, quotes included. */
  lemma SingleQuotesAreOrdinary(x: string)
    requires IsToken(x)
    ensures Split(["foo='" + x + "'"]) == Success([[Pair("foo", Some("'" + x + "'"))]])
  {
    var v := "'" + x + "'";
    var p: Pair<Option<string>> := Pair("foo", Some(v));
    JoinOfOnePair(p);
    assert IsToken(v) by {
      assert forall i :: 1 <= i < |v| - 1 ==> v[i] == x[i - 1];
    }
    assert Join([[p]]) == "foo=" + v;
    assert "foo=" + v == "foo='" + x + "'";
    assert ReparsableGroup([p]);
    SplitJoinRoundTrip([[p]]);
  }

  /** A value holding a separator anywhere, such as the `/` of
      `iso-8859/1` or of `iso-8859/`, is written in double quotes; with no
      `"` or `\` in it, it is written unchanged between them. */
  lemma SeparatorValueIsQuoted(k: string, v: string, i: nat)
    requires i < |v| && IsTokenSpecial(v[i])
    requires forall j :: 0 <= j < |v| ==> v[j] != '"' && v[j] != '\\'
    ensures JoinPair(Pair(k, Some(v))) == k + "=\"" + v + "\""
  {
    NotTokenAt(v, i);
    EscapeUnchanged(v);
  }

  /** One character outside the token class is enough to fail the token
      pattern, unless it is the line feed that `$` allows at the end. */
  lemma NotTokenAt(v: string, i: nat)
    requires i < |v| && !IsTokenChar(v[i]) && v[i] != '\n'
    ensures !MatchesTokenPattern(v)
  {
    if i + 1 < |v| {
      assert v[..|v| - 1][i] == v[i];
    }
  }

  /** Escape leaves a text without `"` and `\` as it is. */
  lemma {:induction false} EscapeUnchanged(v: string)
    requires forall j :: 0 <= j < |v| ==> v[j] != '"' && v[j] != '\\'
    ensures Escape(v) == v
    decreases |v|
  {
    if v != [] {
      EscapeUnchanged(v[1..]);
      assert v == [v[0]] + v[1..];
    }
  }
}
