/** The LIKE patterns the message filters build, under SQLite's matching rules. */
module Like {
  import opened Text

  const ESCAPE := '\\'

  /**
   * LIKE with ESCAPE '\', ASCII letters without case: percent is any text, underscore any one character,
   * an escaped character itself.
   */
  predicate Matches(pattern: string, text: string)
    decreases |pattern| + |text|
  {
    if pattern == [] then text == []
    else if pattern[0] == '%' then
      Matches(pattern[1..], text) || (text != [] && Matches(pattern, text[1..]))
    else if pattern[0] == ESCAPE then
      |pattern| >= 2 && text != [] && LowerChar(pattern[1]) == LowerChar(text[0]) && Matches(pattern[2..], text[1..])
    else
      && text != [] && (pattern[0] == '_' || LowerChar(pattern[0]) == LowerChar(text[0]))
      && Matches(pattern[1..], text[1..])
  }

  predicate Special(c: char) {
    c == '\\' || c == '%' || c == '_'
  }

  function Escaped(value: string): string {
    if value == [] then []
    else (if Special(value[0]) then [ESCAPE, value[0]] else [value[0]]) + Escaped(value[1..])
  }

  /** The pattern for a value: lower-cased, its special characters escaped. */
  function LikePattern(value: string): string {
    "%" + Escaped(Lower(value)) + "%"
  }

  /** The text starts with the value, ASCII letters compared without case. */
  ghost predicate OpensWith(text: string, value: string) {
    |value| <= |text| && Lower(text[..|value|]) == Lower(value)
  }

  lemma {:induction false} PercentMatchesAll(text: string)
    ensures Matches("%", text)
  {
    if text == [] {
      assert Matches("%"[1..], []);
    } else {
      PercentMatchesAll(text[1..]);
    }
  }

  lemma OpensWithStep(text: string, value: string)
    requires value != []
    ensures OpensWith(text, value)
       <==> text != [] && LowerChar(value[0]) == LowerChar(text[0]) && OpensWith(text[1..], value[1..])
  {
    if text != [] && |value| <= |text| {
      var head, tail := text[..|value|], text[1..][..|value| - 1];
      assert Lower(head) == [LowerChar(text[0])] + Lower(tail);
      assert Lower(value) == [LowerChar(value[0])] + Lower(value[1..]);
      assert Lower(head)[1..] == Lower(tail) && Lower(value)[1..] == Lower(value[1..]);
      assert Lower(head)[0] == LowerChar(text[0]) && Lower(value)[0] == LowerChar(value[0]);
    }
  }

  lemma {:induction false} EscapedMatchesItself(value: string, text: string)
    ensures Matches(Escaped(value) + "%", text) <==> OpensWith(text, value)
    decreases |value|
  {
    if value == [] {
      PercentMatchesAll(text);
      assert Escaped(value) + "%" == "%";
    } else {
      var pattern, rest := Escaped(value) + "%", Escaped(value[1..]) + "%";
      if Special(value[0]) {
        assert pattern == [ESCAPE, value[0]] + rest;
        assert pattern[2..] == rest;
      } else {
        assert pattern == [value[0]] + rest;
        assert pattern[1..] == rest;
      }
      OpensWithStep(text, value);
      if text != [] {
        EscapedMatchesItself(value[1..], text[1..]);
      }
    }
  }

  lemma {:induction false} PercentSkips(pattern: string, text: string)
    ensures Matches("%" + pattern, text) <==> exists i :: 0 <= i <= |text| && Matches(pattern, text[i..])
    decreases |text|
  {
    assert ("%" + pattern)[1..] == pattern;
    assert text[0..] == text;
    if text != [] {
      PercentSkips(pattern, text[1..]);
      assert forall i :: 0 < i <= |text| ==> text[i..] == text[1..][i - 1..];
      if i :| 0 <= i <= |text[1..]| && Matches(pattern, text[1..][i..]) {
        assert Matches(pattern, text[i + 1..]);
      }
    }
  }

  /** Whatever the value and the text hold, the pattern finds exactly the texts with the value in them. */
  lemma PatternFindsSubstrings(value: string, text: string)
    ensures Matches(LikePattern(value), text) <==> Contains(Lower(text), Lower(value))
  {
    var lowered := Lower(value);
    var inner := Escaped(lowered) + "%";
    assert LikePattern(value) == "%" + inner;
    PercentSkips(inner, text);
    forall i: nat | i <= |text|
      ensures Matches(inner, text[i..]) <==> OccursAt(Lower(text), lowered, i)
    {
      LowerTwice(value);
      EscapedMatchesItself(lowered, text[i..]);
      if i + |value| <= |text| {
        assert Lower(text)[i..i + |value|] == Lower(text[i..][..|value|]);
      }
    }
  }

  lemma LowerTwice(s: string)
    ensures Lower(Lower(s)) == Lower(s)
  {
  }

  /** Against a column SQLite has lower-cased, a value is found exactly where it occurs but for case. */
  lemma LoweredPatternFinds(value: string, column: string)
    ensures Matches(LikePattern(value), Lower(column)) <==> Contains(Lower(column), Lower(value))
  {
    PatternFindsSubstrings(value, Lower(column));
    LowerTwice(column);
  }
}
