/** Text as lines ended by CRLF. */
module Crlf {
  import opened Common

  const CRLF: string := "\r\n"

  predicate CrlfAt(s: string, i: nat) {
    i + 1 < |s| && s[i] == '\r' && s[i + 1] == '\n'
  }

  /** The first CRLF at or after a position. */
  function FirstCrlf(s: string, from: nat): (at: Option<nat>)
    ensures at.Some? ==>
      from <= at.value && CrlfAt(s, at.value) && forall i: nat :: from <= i < at.value ==> !CrlfAt(s, i)
    ensures at.None? ==> forall i: nat :: from <= i ==> !CrlfAt(s, i)
    decreases |s| - from
  {
    if from + 1 >= |s| then None
    else if CrlfAt(s, from) then Some(from)
    else FirstCrlf(s, from + 1)
  }

  ghost predicate OneLine(s: string) {
    forall i: nat :: !CrlfAt(s, i)
  }

  /** A line, its end, and the rest of the stream. */
  function Line(line: string, rest: string): string {
    line + CRLF + rest
  }

  /** The first line of a stream that starts with a line is that line. */
  lemma LineFirst(line: string, rest: string)
    requires OneLine(line)
    ensures FirstCrlf(Line(line, rest), 0) == Some(|line|)
    ensures Line(line, rest)[..|line|] == line && Line(line, rest)[|line| + 2..] == rest
  {
    var s := Line(line, rest);
    assert CrlfAt(s, |line|);
    forall i: nat | i < |line|
      ensures !CrlfAt(s, i)
    {
      assert !CrlfAt(line, i);
    }
  }

  /** A stream is its first line and the rest. */
  lemma FirstLine(s: string)
    requires FirstCrlf(s, 0).Some?
    ensures var at := FirstCrlf(s, 0).value;
      OneLine(s[..at]) && s == Line(s[..at], s[at + 2..])
  {
    var at := FirstCrlf(s, 0).value;
    assert forall i: nat :: CrlfAt(s[..at], i) ==> CrlfAt(s, i);
  }

  lemma TailOneLine(line: string)
    requires OneLine(line) && line != []
    ensures OneLine(line[1..])
  {
    assert forall i: nat :: CrlfAt(line[1..], i) ==> CrlfAt(line, i + 1);
  }

  lemma LineStep(line: string, rest: string)
    requires OneLine(line) && line != []
    ensures var s := Line(line, rest);
      s[0] == line[0] && s[1..] == Line(line[1..], rest) && !CrlfAt(s, 0) && s == [line[0]] + Line(line[1..], rest)
  {
    LineFirst(line, rest);
  }

  lemma LineNests(a: string, b: string, c: string)
    ensures Line(Line(a, b), c) == Line(a, Line(b, c))
  {
  }
}
