/** The text taken from an attachment: white space in order, then cut to a byte limit. */
module Extract {
  import opened Common
  import opened Text
  import Utf8

  // ---------------------------------------------------------------- one replacement after another

  /** CRLF and CR become LF. */
  function LineEnds(s: string): string
    decreases |s|
  {
    if s == [] then []
    else if s[0] == '\r' then "\n" + LineEnds(if |s| > 1 && s[1] == '\n' then s[2..] else s[1..])
    else [s[0]] + LineEnds(s[1..])
  }

  /** White space within a line. */
  predicate Inner(c: char) {
    IsSpace(c) && c != '\n'
  }

  function SkipInner(s: string): (rest: string)
    ensures |rest| <= |s|
  {
    if s != [] && Inner(s[0]) then SkipInner(s[1..]) else s
  }

  /** Every run of white space within a line becomes one space. */
  function Runs(s: string): string
    decreases |s|
  {
    if s == [] then []
    else if Inner(s[0]) then " " + Runs(SkipInner(s[1..]))
    else [s[0]] + Runs(s[1..])
  }

  function SkipSpace(s: string): string {
    if s != [] && s[0] == ' ' then s[1..] else s
  }

  /** A space on either side of a line end goes. */
  function TightLines(s: string): string
    decreases |s|
  {
    if s == [] then []
    else if |s| > 1 && s[0] == ' ' && s[1] == '\n' then "\n" + TightLines(SkipSpace(s[2..]))
    else if s[0] == '\n' then "\n" + TightLines(SkipSpace(s[1..]))
    else [s[0]] + TightLines(s[1..])
  }

  function SkipLines(s: string): (rest: string)
    ensures |rest| <= |s|
  {
    if s != [] && s[0] == '\n' then SkipLines(s[1..]) else s
  }

  /** Three line ends or more become two. */
  function Paragraphs(s: string): string
    decreases |s|
  {
    if s == [] then []
    else if |s| > 2 && s[0] == '\n' && s[1] == '\n' && s[2] == '\n' then "\n\n" + Paragraphs(SkipLines(s[3..]))
    else [s[0]] + Paragraphs(s[1..])
  }

  function NormalizeWhitespace(raw: string): string {
    Trimmed(Paragraphs(TightLines(Runs(LineEnds(raw)))))
  }

  // ---------------------------------------------------------------- what is left

  /** The only white space is single spaces and line ends as such. */
  ghost predicate Plain(s: string) {
    forall i :: 0 <= i < |s| ==> !IsSpace(s[i]) || s[i] == ' ' || s[i] == '\n'
  }

  lemma {:induction false} RunsPlain(s: string)
    ensures Plain(Runs(s))
    decreases |s|
  {
    if s != [] {
      if Inner(s[0]) {
        RunsPlain(SkipInner(s[1..]));
      } else {
        RunsPlain(s[1..]);
      }
    }
  }

  lemma {:induction false} TightLinesPlain(s: string)
    requires Plain(s)
    ensures Plain(TightLines(s))
    decreases |s|
  {
    if s != [] {
      if |s| > 1 && s[0] == ' ' && s[1] == '\n' {
        TightLinesPlain(SkipSpace(s[2..]));
      } else if s[0] == '\n' {
        TightLinesPlain(SkipSpace(s[1..]));
      } else {
        TightLinesPlain(s[1..]);
      }
    }
  }

  lemma {:induction false} SkipLinesPlain(s: string)
    requires Plain(s)
    ensures Plain(SkipLines(s))
  {
    if s != [] && s[0] == '\n' {
      SkipLinesPlain(s[1..]);
    }
  }

  lemma {:induction false} ParagraphsPlain(s: string)
    requires Plain(s)
    ensures Plain(Paragraphs(s))
    decreases |s|
  {
    if s != [] {
      if |s| > 2 && s[0] == '\n' && s[1] == '\n' && s[2] == '\n' {
        SkipLinesPlain(s[3..]);
        ParagraphsPlain(SkipLines(s[3..]));
      } else {
        ParagraphsPlain(s[1..]);
      }
    }
  }

  lemma {:induction false} TrimmedPlain(s: string)
    requires Plain(s)
    ensures Plain(Trimmed(s))
    ensures Trimmed(s) != [] ==> !IsSpace(Trimmed(s)[0]) && !IsSpace(Trimmed(s)[|Trimmed(s)| - 1])
  {
    if s != [] && IsSpace(s[0]) {
      TrimmedPlain(s[1..]);
    } else if s != [] && IsSpace(s[|s| - 1]) {
      TrimmedPlain(s[..|s| - 1]);
    }
  }

  /** Normalised text has no other white space than spaces and line ends, and none at its ends. */
  lemma NormalizedPlain(raw: string)
    ensures Plain(NormalizeWhitespace(raw))
    ensures var text := NormalizeWhitespace(raw);
      text != [] ==> !IsSpace(text[0]) && !IsSpace(text[|text| - 1])
  {
    var runs := Runs(LineEnds(raw));
    RunsPlain(LineEnds(raw));
    TightLinesPlain(runs);
    ParagraphsPlain(TightLines(runs));
    TrimmedPlain(Paragraphs(TightLines(runs)));
  }

  // ---------------------------------------------------------------- the cut

  /** The longest prefix of whole characters within the limit. */
  function LongestPrefix(text: string, maxBytes: nat): string {
    Utf8.Chars(Utf8.Points(text)[..Utf8.Fitting(Utf8.Points(text), maxBytes)])
  }

  /** A text without a byte order mark is cut to its longest fitting prefix, whatever the limit. */
  lemma UnmarkedCut(text: string, maxBytes: nat)
    requires '\U{feff}' !in text
    ensures Utf8.TruncateUtf8(Utf8.Points(text), maxBytes)
         == Some(Utf8.Points(text)[..Utf8.Fitting(Utf8.Points(text), maxBytes)])
    ensures LongestPrefix(text, maxBytes) <= text
  {
    var points := Utf8.Points(text);
    Utf8.TruncationExact(points, maxBytes);
    if text != [] {
      assert text[0] in text && points[0] == Utf8.PointOf(text[0]);
      MarkIs(text[0]);
    } else {
      assert Utf8.Encode(points) == [];
    }
    var prefix := text[..Utf8.Fitting(points, maxBytes)];
    assert Utf8.Points(prefix) == points[..Utf8.Fitting(points, maxBytes)];
    Utf8.CharsOfPoints(prefix);
  }

  lemma MarkIs(c: char)
    ensures Utf8.PointOf(c) == Utf8.BOM <==> c == '\U{feff}'
  {
  }

  /** None where the source would put replacement characters. */
  function ExtractedText(raw: string, maxBytes: nat): Option<string> {
    var cut := Utf8.TruncateUtf8(Utf8.Points(NormalizeWhitespace(raw)), maxBytes);
    if cut.None? then None else Some(Utf8.Chars(cut.value))
  }

  /** What is stored of an extracted text is the longest prefix of its normal form that fits, whatever the limit. */
  lemma ExtractedIsLongestPrefix(raw: string, maxBytes: nat)
    ensures ExtractedText(raw, maxBytes) == Some(LongestPrefix(NormalizeWhitespace(raw), maxBytes))
    ensures LongestPrefix(NormalizeWhitespace(raw), maxBytes) <= NormalizeWhitespace(raw)
  {
    var text := NormalizeWhitespace(raw);
    NormalizedPlain(raw);
    assert IsSpace('\U{feff}');
    forall i | 0 <= i < |text|
      ensures text[i] != '\U{feff}'
    {
      assert IsSpace(text[i]) ==> text[i] == ' ' || text[i] == '\n';
    }
    UnmarkedCut(text, maxBytes);
  }
}
