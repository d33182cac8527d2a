/**
 LIKE patterns: escaping a user's text, and what the escaped text matches. The matcher follows the MySQL 8.4
 Reference Manual, section 14.8.1 "String Comparison Functions and Operators"; characters are compared exactly.
 */
module LikePatterns {
  /** SQL LIKE with an escape character: `%` any text, `_` any one character. */
  predicate Like(pattern: string, escape: char, text: string)
    decreases |pattern| + |text|
  {
    if pattern == [] then text == []
    else if pattern[0] == escape && |pattern| > 1 then
      text != [] && text[0] == pattern[1] && Like(pattern[2..], escape, text[1..])
    else if pattern[0] == '%' then
      Like(pattern[1..], escape, text) || (text != [] && Like(pattern, escape, text[1..]))
    else
      text != [] && (pattern[0] == '_' || text[0] == pattern[0]) && Like(pattern[1..], escape, text[1..])
  }

  predicate IsWildcard(c: char) { c == '%' || c == '_' || c == '\\' }

  function EscapeLikeWildcards(value: string): string
  {
    if value == [] then []
    else (if IsWildcard(value[0]) then ['\\', value[0]] else [value[0]]) + EscapeLikeWildcards(value[1..])
  }

  method ComputeEscapeLikeWildcards(value: string) returns (escaped: string)
    ensures escaped == EscapeLikeWildcards(value)
  {
    hide EscapeLikeWildcards;
    escaped := "";
    assert value[0..] == value;
    for i := 0 to |value|
      invariant EscapeLikeWildcards(value) == escaped + EscapeLikeWildcards(value[i..])
    {
      EscapeOneMore(value, i, escaped);
      if IsWildcard(value[i]) {
        escaped := escaped + ['\\'];
      }
      escaped := escaped + [value[i]];
    }
    EscapeNothing();
    assert value[|value|..] == "" && escaped + "" == escaped;
  }

  lemma EscapeNothing()
    ensures EscapeLikeWildcards("") == ""
  {
  }

  lemma EscapeOneMore(value: string, i: nat, escaped: string)
    requires i < |value|
    ensures var before := if IsWildcard(value[i]) then escaped + ['\\'] else escaped;
            escaped + EscapeLikeWildcards(value[i..]) == before + [value[i]] + EscapeLikeWildcards(value[i + 1..])
  {
    assert value[i..][0] == value[i] && value[i..][1..] == value[i + 1..];
  }

  predicate OccursAt(value: string, text: string, k: nat)
  {
    k + |value| <= |text| && text[k..k + |value|] == value
  }

  function EscapedChar(c: char): string { if IsWildcard(c) then ['\\', c] else [c] }

  lemma LikeChar(c: char, rest: string, text: string)
    ensures Like(EscapedChar(c) + rest, '\\', text) <==> text != [] && text[0] == c && Like(rest, '\\', text[1..])
  {
    var pattern := EscapedChar(c) + rest;
    assert pattern[|EscapedChar(c)|..] == rest;
  }

  /** An escaped value consumes exactly itself. */
  lemma {:induction false} EscapedMatchesItself(value: string, tail: string, text: string)
    ensures Like(EscapeLikeWildcards(value) + tail, '\\', text) <==>
            value <= text && Like(tail, '\\', text[|value|..])
  {
    hide Like;
    if value == [] {
      assert EscapeLikeWildcards(value) + tail == tail;
      assert text[0..] == text;
    } else {
      var rest := EscapeLikeWildcards(value[1..]) + tail;
      assert EscapeLikeWildcards(value) + tail == EscapedChar(value[0]) + rest;
      LikeChar(value[0], rest, text);
      if text != [] && text[0] == value[0] {
        EscapedMatchesItself(value[1..], tail, text[1..]);
        assert value == [value[0]] + value[1..] && text == [text[0]] + text[1..];
        if value <= text {
          assert text[1..][|value[1..]|..] == text[|value|..];
        }
      }
    }
  }

  lemma {:induction false} PercentMatchesAnything(text: string)
    ensures Like("%", '\\', text)
  {
    if text != [] {
      PercentMatchesAnything(text[1..]);
    }
  }

  /** A leading `%` skips any number of characters. */
  lemma {:induction false} PercentSkips(tail: string, text: string)
    ensures Like("%" + tail, '\\', text) <==> exists k :: 0 <= k <= |text| && Like(tail, '\\', text[k..])
  {
    var pattern := "%" + tail;
    assert pattern[1..] == tail;
    assert text[0..] == text;
    if text == [] {
      assert forall k :: 0 <= k <= |text| ==> text[k..] == text;
    } else {
      PercentSkips(tail, text[1..]);
      if k :| 0 <= k <= |text[1..]| && Like(tail, '\\', text[1..][k..]) {
        assert text[1..][k..] == text[k + 1..];
      }
      if k :| 0 <= k <= |text| && Like(tail, '\\', text[k..]) {
        if k > 0 {
          assert text[k..] == text[1..][k - 1..];
        }
      }
    }
  }

  /** CONTAINS, STARTS_WITH and ENDS_WITH patterns mean literal substring, prefix and suffix. */
  lemma PatternsMeanLiteralText(value: string, text: string)
    ensures Like("%" + EscapeLikeWildcards(value) + "%", '\\', text) <==> exists k: nat :: OccursAt(value, text, k)
    ensures Like(EscapeLikeWildcards(value) + "%", '\\', text) <==> value <= text
    ensures Like("%" + EscapeLikeWildcards(value), '\\', text) <==>
            |value| <= |text| && text[|text| - |value|..] == value
  {
    hide Like, EscapeLikeWildcards;
    StartsWithMeans(value, text);
    ContainsMeans(value, text);
    var escaped := EscapeLikeWildcards(value);
    PercentSkips(escaped, text);
    forall k: nat | k <= |text| ensures Like(escaped, '\\', text[k..]) <==> text[k..] == value {
      EscapedMatchesAll(value, text[k..]);
    }
    if |value| <= |text| && text[|text| - |value|..] == value {
      assert Like(escaped, '\\', text[|text| - |value|..]);
    }
  }

  lemma StartsWithMeans(value: string, text: string)
    ensures Like(EscapeLikeWildcards(value) + "%", '\\', text) <==> value <= text
  {
    EscapedMatchesItself(value, "%", text);
    if |value| <= |text| {
      PercentMatchesAnything(text[|value|..]);
    }
  }

  lemma ContainsMeans(value: string, text: string)
    ensures Like("%" + EscapeLikeWildcards(value) + "%", '\\', text) <==> exists k: nat :: OccursAt(value, text, k)
  {
    hide Like, EscapeLikeWildcards;
    var tail := EscapeLikeWildcards(value) + "%";
    assert "%" + EscapeLikeWildcards(value) + "%" == "%" + tail;
    PercentSkips(tail, text);
    forall k: nat | k <= |text| ensures Like(tail, '\\', text[k..]) <==> OccursAt(value, text, k) {
      StartsWithMeans(value, text[k..]);
    }
  }

  lemma EscapedMatchesAll(value: string, text: string)
    ensures Like(EscapeLikeWildcards(value), '\\', text) <==> text == value
  {
    EscapedMatchesItself(value, "", text);
    assert EscapeLikeWildcards(value) + "" == EscapeLikeWildcards(value);
  }
}
