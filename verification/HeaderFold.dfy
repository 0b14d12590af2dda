/** Folding long header fields, and the unfolding a reader does. */
module HeaderFold {
  import opened Common
  import opened Crlf

  const LINE_LIMIT: nat := 78
  const FOLD: string := "\r\n "

  /** A character outside the basic plane takes two units of a string's length. */
  function Units(s: string): nat {
    if s == [] then 0 else (if s[0] as int >= 0x1_0000 then 2 else 1) + Units(s[1..])
  }

  // ---------------------------------------------------------------- splitting and joining

  function Split(s: string, sep: char): (words: seq<string>)
    ensures words != []
  {
    if s == [] then [""]
    else
      var rest := Split(s[1..], sep);
      if s[0] == sep then [""] + rest else [[s[0]] + rest[0]] + rest[1..]
  }

  function SplitCrlf(s: string): (lines: seq<string>)
    ensures lines != []
    decreases |s|
  {
    var at := FirstCrlf(s, 0);
    if at.None? then [s] else [s[..at.value]] + SplitCrlf(s[at.value + 2..])
  }

  function Join(parts: seq<string>, sep: string): string {
    if parts == [] then "" else if |parts| == 1 then parts[0] else parts[0] + sep + Join(parts[1..], sep)
  }

  // ---------------------------------------------------------------- folding

  /** The last line takes each further word that keeps it within the limit; any other word starts a line. */
  function Fill(line: string, words: seq<string>): (lines: seq<string>)
    ensures lines != []
    decreases |words|
  {
    if words == [] then [line]
    else if Units(line + " " + words[0]) > LINE_LIMIT then [line] + Fill(words[0], words[1..])
    else Fill(line + " " + words[0], words[1..])
  }

  function FoldedLines(segment: string): (lines: seq<string>)
    ensures lines != []
  {
    var words := Split(segment, ' ');
    Fill(words[0], words[1..])
  }

  function FoldSegment(segment: string): string {
    Join(FoldedLines(segment), FOLD)
  }

  function FoldAll(segments: seq<string>): seq<string> {
    seq(|segments|, i requires 0 <= i < |segments| => FoldSegment(segments[i]))
  }

  function FoldHeader(name: string, value: string): string {
    Join(FoldAll(SplitCrlf(name + ": " + value)), CRLF)
  }

  // ---------------------------------------------------------------- unfolding

  predicate Wsp(c: char) {
    c == ' ' || c == '\t'
  }

  predicate StartsWsp(s: string) {
    s != [] && Wsp(s[0])
  }

  /** Section 2.2.3 of RFC 5322: a CRLF before white space goes. */
  function Unfold(s: string): string
    decreases |s|
  {
    if s == [] then []
    else if CrlfAt(s, 0) && StartsWsp(s[2..]) then Unfold(s[2..])
    else [s[0]] + Unfold(s[1..])
  }

  function Break(rest: string): string {
    if StartsWsp(rest) then "" else CRLF
  }

  lemma {:induction false} UnfoldOneLine(line: string)
    requires OneLine(line)
    ensures Unfold(line) == line
  {
    if line != [] {
      assert !CrlfAt(line, 0);
      assert forall i: nat :: CrlfAt(line[1..], i) ==> CrlfAt(line, i + 1);
      UnfoldOneLine(line[1..]);
    }
  }

  lemma UnfoldBreak(rest: string)
    ensures Unfold(Line("", rest)) == Break(rest) + Unfold(rest)
  {
    var s := Line("", rest);
    assert s[2..] == rest;
    if !StartsWsp(rest) {
      assert s[1..] == "\n" + rest && s[1..][1..] == rest;
      assert Unfold(s) == ['\r'] + (['\n'] + Unfold(rest));
    }
  }

  /** Unfolding goes line by line. */
  lemma {:induction false} UnfoldLine(line: string, rest: string)
    requires OneLine(line)
    ensures Unfold(Line(line, rest)) == line + (Break(rest) + Unfold(rest))
    decreases |line|
  {
    if line == [] {
      UnfoldBreak(rest);
    } else {
      var s := Line(line, rest);
      LineFirst(line, rest);
      assert !CrlfAt(s, 0);
      assert s[1..] == Line(line[1..], rest);
      assert forall i: nat :: CrlfAt(line[1..], i) ==> CrlfAt(line, i + 1);
      UnfoldLine(line[1..], rest);
    }
  }

  // ---------------------------------------------------------------- a segment and its lines

  lemma FirstGrows(c: char, parts: seq<string>, sep: string)
    requires parts != []
    ensures Join([[c] + parts[0]] + parts[1..], sep) == [c] + Join(parts, sep)
  {
    var grown := [[c] + parts[0]] + parts[1..];
    assert grown[1..] == parts[1..];
    if |parts| > 1 {
      var tail := sep + Join(parts[1..], sep);
      assert ([c] + parts[0]) + tail == [c] + (parts[0] + tail);
      assert parts[0] + sep + Join(parts[1..], sep) == parts[0] + tail;
      assert ([c] + parts[0]) + sep + Join(parts[1..], sep) == ([c] + parts[0]) + tail;
    }
  }

  lemma EmptyFirst(parts: seq<string>, sep: string)
    requires parts != []
    ensures Join([""] + parts, sep) == sep + Join(parts, sep)
  {
    assert ([""] + parts)[1..] == parts;
    assert "" + sep == sep;
  }

  lemma {:induction false} SplitJoins(s: string, sep: char)
    ensures Join(Split(s, sep), [sep]) == s
    ensures forall w :: w in Split(s, sep) ==> sep !in w
  {
    if s != [] {
      SplitJoins(s[1..], sep);
      var rest := Split(s[1..], sep);
      assert s == [s[0]] + s[1..];
      if s[0] == sep {
        EmptyFirst(rest, [sep]);
      } else {
        FirstGrows(s[0], rest, [sep]);
        assert rest[0] in rest;
      }
    }
  }

  /** Filling lines only turns some spaces into line ends. */
  lemma {:induction false} FillJoins(line: string, words: seq<string>)
    ensures Join(Fill(line, words), " ") == Join([line] + words, " ")
    decreases |words|
  {
    if words != [] {
      assert ([line] + words)[1..] == words;
      if Units(line + " " + words[0]) > LINE_LIMIT {
        FillJoins(words[0], words[1..]);
        assert [words[0]] + words[1..] == words;
        assert Fill(line, words)[1..] == Fill(words[0], words[1..]);
      } else {
        FillJoins(line + " " + words[0], words[1..]);
        var merged := [line + " " + words[0]] + words[1..];
        assert merged[1..] == words[1..];
      }
    }
  }

  lemma FoldedLinesJoin(segment: string)
    ensures Join(FoldedLines(segment), " ") == segment
  {
    SplitJoins(segment, ' ');
    var words := Split(segment, ' ');
    FillJoins(words[0], words[1..]);
    assert [words[0]] + words[1..] == words;
  }

  /** Every line is within the limit or one word. */
  lemma {:induction false} FillFits(line: string, words: seq<string>)
    requires Units(line) <= LINE_LIMIT || ' ' !in line
    requires forall w :: w in words ==> ' ' !in w
    ensures forall l :: l in Fill(line, words) ==> Units(l) <= LINE_LIMIT || ' ' !in l
    decreases |words|
  {
    if words != [] {
      assert words[0] in words;
      assert forall w :: w in words[1..] ==> w in words;
      if Units(line + " " + words[0]) > LINE_LIMIT {
        FillFits(words[0], words[1..]);
      } else {
        FillFits(line + " " + words[0], words[1..]);
      }
    }
  }

  lemma FoldedLinesFit(segment: string)
    ensures forall l :: l in FoldedLines(segment) ==> Units(l) <= LINE_LIMIT || ' ' !in l
  {
    SplitJoins(segment, ' ');
    var words := Split(segment, ' ');
    assert words[0] in words;
    assert forall w :: w in words[1..] ==> w in words;
    FillFits(words[0], words[1..]);
  }

  ghost predicate OneLines(lines: seq<string>) {
    forall i :: 0 <= i < |lines| ==> OneLine(lines[i])
  }

  lemma {:induction false} JoinedOneLine(parts: seq<string>)
    requires OneLine(Join(parts, " "))
    ensures OneLines(parts)
  {
    if |parts| == 1 {
      assert parts[0] == Join(parts, " ");
    } else if parts != [] {
      var all, rest := Join(parts, " "), Join(parts[1..], " ");
      assert all == parts[0] + " " + rest;
      assert forall i: nat :: CrlfAt(parts[0], i) ==> CrlfAt(all, i);
      forall i: nat
        ensures !CrlfAt(rest, i)
      {
        assert CrlfAt(rest, i) ==> CrlfAt(all, |parts[0]| + 1 + i);
      }
      JoinedOneLine(parts[1..]);
    }
  }

  // ---------------------------------------------------------------- unfolding what was folded

  /** Folded lines, a CRLF, and the rest: each fold goes back to the space it replaced. */
  lemma {:induction false} UnfoldFolds(lines: seq<string>, rest: string)
    requires lines != [] && OneLines(lines)
    ensures Unfold(Line(Join(lines, FOLD), rest)) == Join(lines, " ") + (Break(rest) + Unfold(rest))
    decreases |lines|
  {
    if |lines| == 1 {
      UnfoldLine(lines[0], rest);
    } else {
      var next := [" " + lines[1]] + lines[2..];
      NextLines(lines, FOLD);
      NextLines(lines, " ");
      UnfoldFolds(next, rest);
      var below := Line(Join(next, FOLD), rest);
      assert Line(Join(lines, FOLD), rest) == Line(lines[0], below);
      UnfoldLine(lines[0], below);
    }
  }

  /** The same with nothing after. */
  lemma {:induction false} UnfoldLastFolds(lines: seq<string>)
    requires lines != [] && OneLines(lines)
    ensures Unfold(Join(lines, FOLD)) == Join(lines, " ")
    decreases |lines|
  {
    if |lines| == 1 {
      UnfoldOneLine(lines[0]);
    } else {
      NextLines(lines, FOLD);
      NextLines(lines, " ");
      UnfoldLastFolds([" " + lines[1]] + lines[2..]);
      UnfoldFirstFold(lines);
    }
  }

  lemma JoinStartsWsp(next: seq<string>)
    requires next != [] && StartsWsp(next[0])
    ensures StartsWsp(Join(next, FOLD))
  {
  }

  lemma UnfoldFirstFold(lines: seq<string>)
    requires |lines| > 1 && OneLines(lines)
    ensures Unfold(Join(lines, FOLD)) == lines[0] + Unfold(Join([" " + lines[1]] + lines[2..], FOLD))
  {
    var next := [" " + lines[1]] + lines[2..];
    var below := Join(next, FOLD);
    NextLines(lines, FOLD);
    UnfoldLine(lines[0], below);
    assert StartsWsp(below) by {
      JoinStartsWsp(next);
    }
    assert Break(below) + Unfold(below) == Unfold(below);
  }

  /** The space of a separator belongs as well to the line below it. */
  lemma NextLines(lines: seq<string>, sep: string)
    requires |lines| > 1 && OneLines(lines) && (sep == FOLD || sep == " ")
    ensures var next := [" " + lines[1]] + lines[2..];
      && OneLines(next)
      && Join(lines, sep) == (if sep == FOLD then lines[0] + CRLF else lines[0]) + Join(next, sep)
  {
    var rest := lines[1..];
    FirstGrows(' ', rest, sep);
    assert [[' '] + rest[0]] + rest[1..] == [" " + lines[1]] + lines[2..];
    forall i: nat
      ensures !CrlfAt(" " + lines[1], i)
    {
      assert i > 0 ==> (CrlfAt(" " + lines[1], i) <==> CrlfAt(lines[1], i - 1));
    }
    assert FOLD == CRLF + " ";
  }

  // ---------------------------------------------------------------- whole headers

  /** A segment that starts with a space and then a word no line has room for beside that space. */
  predicate Misfolds(segment: string) {
    && segment != [] && segment[0] == ' '
    && Units(" " + Split(segment[1..], ' ')[0]) > LINE_LIMIT
  }

  function Misfolded(segments: seq<string>): nat {
    if segments == [] then 0 else (if Misfolds(segments[0]) then 1 else 0) + Misfolded(segments[1..])
  }

  /** Only a segment like that, folded, no longer starts with its white space. */
  lemma FoldKeepsStart(segment: string)
    ensures segment == [] ==> FoldSegment(segment) == []
    ensures Misfolds(segment) ==> StartsWsp(segment) && FoldSegment(segment) != [] && !StartsWsp(FoldSegment(segment))
    ensures !Misfolds(segment) && segment != [] ==>
      FoldSegment(segment) != [] && StartsWsp(FoldSegment(segment)) == StartsWsp(segment)
  {
    var words := Split(segment, ' ');
    if segment != [] {
      if segment[0] == ' ' {
        var rest := Split(segment[1..], ' ');
        assert words == [""] + rest && words[1..] == rest;
        if Misfolds(segment) {
          assert "" + " " + rest[0] == " " + rest[0];
          assert FoldedLines(segment) == [""] + Fill(rest[0], rest[1..]);
          EmptyFirst(Fill(rest[0], rest[1..]), FOLD);
        } else {
          assert "" + " " + rest[0] == " " + rest[0];
          FillStart(" " + rest[0], rest[1..]);
        }
      } else {
        FillStart(words[0], words[1..]);
      }
    }
  }

  /** A line only grows at its end. */
  lemma {:induction false} FillStart(line: string, words: seq<string>)
    requires line != []
    ensures Join(Fill(line, words), FOLD) != [] && Join(Fill(line, words), FOLD)[0] == line[0]
    decreases |words|
  {
    if words != [] && Units(line + " " + words[0]) <= LINE_LIMIT {
      FillStart(line + " " + words[0], words[1..]);
    }
  }

  lemma {:induction false} SplitCrlfJoins(s: string)
    ensures OneLines(SplitCrlf(s)) && Join(SplitCrlf(s), CRLF) == s
    decreases |s|
  {
    if FirstCrlf(s, 0).Some? {
      FirstLine(s);
      SplitCrlfJoins(s[FirstCrlf(s, 0).value + 2..]);
      assert SplitCrlf(s)[1..] == SplitCrlf(s[FirstCrlf(s, 0).value + 2..]);
    }
  }

  lemma FoldAllStep(segments: seq<string>)
    requires |segments| > 1
    ensures Join(FoldAll(segments), CRLF) == Line(FoldSegment(segments[0]), Join(FoldAll(segments[1..]), CRLF))
  {
    assert FoldAll(segments)[1..] == FoldAll(segments[1..]);
  }

  lemma UnfoldSegment(segment: string, rest: string)
    requires OneLine(segment)
    ensures Unfold(Line(FoldSegment(segment), rest)) == segment + (Break(rest) + Unfold(rest))
    ensures Unfold(FoldSegment(segment)) == segment
  {
    FoldedLinesJoin(segment);
    JoinedOneLine(FoldedLines(segment));
    UnfoldFolds(FoldedLines(segment), rest);
    UnfoldLastFolds(FoldedLines(segment));
  }

  /** After the first segment, folding changes the start of the rest exactly when its first segment misfolds. */
  lemma RestStarts(segments: seq<string>)
    requires segments != []
    ensures var plain, folded := Join(segments, CRLF), Join(FoldAll(segments), CRLF);
      if Misfolds(segments[0]) then StartsWsp(plain) && !StartsWsp(folded) else StartsWsp(plain) == StartsWsp(folded)
  {
    FoldKeepsStart(segments[0]);
    if |segments| > 1 {
      FoldAllStep(segments);
    }
  }

  /** Every misfolding segment after the first leaves one CRLF behind that unfolding cannot take back. */
  lemma {:induction false} UnfoldFoldedLength(segments: seq<string>)
    requires segments != [] && OneLines(segments)
    ensures var plain, folded := Unfold(Join(segments, CRLF)), Unfold(Join(FoldAll(segments), CRLF));
      && |folded| == |plain| + 2 * Misfolded(segments[1..])
      && (Misfolded(segments[1..]) == 0 ==> folded == plain)
    decreases |segments|
  {
    UnfoldSegment(segments[0], "");
    if |segments| == 1 {
      UnfoldOneLine(segments[0]);
    } else {
      var rest := segments[1..];
      var plain, folded := Join(rest, CRLF), Join(FoldAll(rest), CRLF);
      FoldAllStep(segments);
      UnfoldSegment(segments[0], folded);
      UnfoldLine(segments[0], plain);
      assert Join(segments, CRLF) == Line(segments[0], plain);
      RestStarts(rest);
      UnfoldFoldedLength(rest);
    }
  }

  /** Unfolding a folded header gives the unfolded input if and only if no segment after the first misfolds. */
  lemma FoldRoundTrip(name: string, value: string)
    ensures Unfold(FoldHeader(name, value)) == Unfold(name + ": " + value)
       <==> forall i :: 0 < i < |SplitCrlf(name + ": " + value)| ==> !Misfolds(SplitCrlf(name + ": " + value)[i])
  {
    var input := name + ": " + value;
    var segments := SplitCrlf(input);
    SplitCrlfJoins(input);
    UnfoldFoldedLength(segments);
    MisfoldedNone(segments[1..]);
    assert forall i :: 0 <= i < |segments[1..]| ==> segments[1..][i] == segments[i + 1];
  }

  lemma {:induction false} MisfoldedNone(segments: seq<string>)
    ensures Misfolded(segments) == 0 <==> forall i :: 0 <= i < |segments| ==> !Misfolds(segments[i])
  {
    if segments != [] {
      MisfoldedNone(segments[1..]);
      assert forall i :: 0 < i < |segments| ==> segments[i] == segments[1..][i - 1];
    }
  }

  lemma {:induction false} OneWordSplit(word: string)
    requires ' ' !in word
    ensures Split(word, ' ') == [word]
  {
    if word != [] {
      OneWordSplit(word[1..]);
      assert [word[0]] + word[1..] == word;
    }
  }

  /** What a misfolding segment turns into: an empty line, which on the wire ends the header. */
  lemma MisfoldedSegment(word: string)
    requires ' ' !in word && Units(" " + word) > LINE_LIMIT
    ensures Misfolds(" " + word) && FoldSegment(" " + word) == CRLF + " " + word
  {
    OneWordSplit(word);
    assert (" " + word)[1..] == word;
    assert Split(" " + word, ' ') == ["", word];
    assert "" + " " + word == " " + word;
    assert ["", word][1..] == [word];
    assert Fill("", [word]) == ["", word];
    assert [""] + [word] == ["", word];
    EmptyFirst([word], FOLD);
    assert FOLD + word == CRLF + " " + word;
  }

  lemma {:induction false} PlainUnits(s: string)
    requires forall i :: 0 <= i < |s| ==> s[i] as int < 0x1_0000
    ensures Units(s) == |s|
  {
    if s != [] {
      PlainUnits(s[1..]);
    }
  }

  /** 78 letters after a CRLF and a space are enough. */
  lemma MisfoldExample()
    ensures var word := seq(78, _ => 'x');
      !(Unfold(FoldHeader("X", "a\r\n " + word)) == Unfold("X: a\r\n " + word))
  {
    var word := seq(78, _ => 'x');
    var input := "X" + ": " + ("a\r\n " + word);
    assert input == Line("X: a", " " + word) && input == "X: a\r\n " + word;
    PlainUnits(" " + word);
    MisfoldedSegment(word);
    LineFirst("X: a", " " + word);
    assert FirstCrlf(" " + word, 0).None?;
    assert SplitCrlf(input) == ["X: a", " " + word];
    assert SplitCrlf(input)[1] == " " + word;
    FoldRoundTrip("X", "a\r\n " + word);
  }

  // ---------------------------------------------------------------- physical lines

  lemma SplitFirstLine(first: string, rest: string)
    requires OneLine(first)
    ensures SplitCrlf(Line(first, rest)) == [first] + SplitCrlf(rest)
  {
    LineFirst(first, rest);
  }

  lemma {:induction false} SplitOfLine(a: string, b: string)
    ensures SplitCrlf(Line(a, b)) == SplitCrlf(a) + SplitCrlf(b)
    decreases |a|
  {
    if FirstCrlf(a, 0).None? {
      SplitFirstLine(a, b);
    } else {
      FirstLine(a);
      var first, rest := a[..FirstCrlf(a, 0).value], a[FirstCrlf(a, 0).value + 2..];
      LineNests(first, rest, b);
      SplitFirstLine(first, Line(rest, b));
      SplitFirstLine(first, rest);
      SplitOfLine(rest, b);
      assert [first] + (SplitCrlf(rest) + SplitCrlf(b)) == [first] + SplitCrlf(rest) + SplitCrlf(b);
    }
  }

  /** Within the limit, or a single word after at most one space. */
  predicate Within(line: string, limit: nat) {
    Units(line) <= limit || forall i :: 0 < i < |line| ==> line[i] != ' '
  }

  /** A segment's lines as they go out: each but the first after the space of its fold. */
  function Physical(lines: seq<string>): seq<string> {
    seq(|lines|, i requires 0 <= i < |lines| => if i == 0 then lines[0] else " " + lines[i])
  }

  lemma PhysicalStep(lines: seq<string>)
    requires |lines| > 1
    ensures Physical(lines) == [lines[0]] + Physical([" " + lines[1]] + lines[2..])
  {
  }

  lemma {:induction false} FoldSplits(lines: seq<string>)
    requires lines != [] && OneLines(lines)
    ensures SplitCrlf(Join(lines, FOLD)) == Physical(lines)
    decreases |lines|
  {
    if |lines| > 1 {
      var next := [" " + lines[1]] + lines[2..];
      NextLines(lines, FOLD);
      assert Join(lines, FOLD) == Line(lines[0], Join(next, FOLD));
      SplitFirstLine(lines[0], Join(next, FOLD));
      FoldSplits(next);
      PhysicalStep(lines);
    }
  }

  lemma SegmentSplits(segment: string)
    requires OneLine(segment)
    ensures SplitCrlf(FoldSegment(segment)) == Physical(FoldedLines(segment))
  {
    FoldedLinesJoin(segment);
    JoinedOneLine(FoldedLines(segment));
    FoldSplits(FoldedLines(segment));
  }

  function AllPhysical(segments: seq<string>): seq<string> {
    if segments == [] then [] else Physical(FoldedLines(segments[0])) + AllPhysical(segments[1..])
  }

  lemma {:induction false} SegmentsSplit(segments: seq<string>)
    requires segments != [] && OneLines(segments)
    ensures SplitCrlf(Join(FoldAll(segments), CRLF)) == AllPhysical(segments)
    decreases |segments|
  {
    SegmentSplits(segments[0]);
    if |segments| == 1 {
      assert AllPhysical(segments[1..]) == [];
      assert Join(FoldAll(segments), CRLF) == FoldSegment(segments[0]);
    } else {
      FoldAllStep(segments);
      SegmentsSplit(segments[1..]);
      SplitOfLine(FoldSegment(segments[0]), Join(FoldAll(segments[1..]), CRLF));
    }
  }

  // ---------------------------------------------------------------- lines as runs of words

  /** The words from i up to j with the spaces between them. */
  function Run(words: seq<string>, i: nat, j: nat): string
    requires i <= j <= |words|
  {
    Join(words[i..j], " ")
  }

  /** The words from i up to j are one word or fit a line, and with the next word they would not. */
  predicate LongestRun(words: seq<string>, i: nat, j: nat) {
    && i < j <= |words|
    && (j == i + 1 || Units(Run(words, i, j)) <= LINE_LIMIT)
    && (j < |words| ==> Units(Run(words, i, j + 1)) > LINE_LIMIT)
  }

  /** Longest runs one after another, up to the last word. */
  ghost predicate LongestRuns(words: seq<string>, breaks: seq<nat>) {
    && breaks != [] && breaks[|breaks| - 1] == |words|
    && forall k :: 0 <= k < |breaks| - 1 ==> LongestRun(words, breaks[k], breaks[k + 1])
  }

  /** In its longest runs of words, a run of two or more words other than the first has exactly 78 units. */
  ghost predicate Overflows(segment: string) {
    var words := Split(segment, ' ');
    exists breaks, k :: LongestRuns(words, breaks) && breaks[0] == 0 && FullRun(words, breaks, k)
  }

  ghost predicate FullRun(words: seq<string>, breaks: seq<nat>, k: nat) {
    && 1 <= k < |breaks| - 1 && breaks[k] + 2 <= breaks[k + 1] <= |words|
    && Units(Run(words, breaks[k], breaks[k + 1])) == LINE_LIMIT
  }

  lemma {:induction false} UnitsAdd(a: string, b: string)
    ensures Units(a + b) == Units(a) + Units(b)
  {
    if a == [] {
      assert a + b == b;
    } else {
      assert (a + b)[1..] == a[1..] + b;
      UnitsAdd(a[1..], b);
    }
  }

  lemma {:induction false} RunGrows(words: seq<string>, i: nat, j: nat)
    requires i < j < |words|
    ensures Run(words, i, j + 1) == Run(words, i, j) + " " + words[j]
    decreases j - i
  {
    var longer, shorter := words[i..j + 1], words[i..j];
    assert longer[1..] == words[i + 1..j + 1] && shorter[1..] == words[i + 1..j];
    if i + 1 == j {
      assert Run(words, i, j + 1) == words[i] + " " + Run(words, i + 1, j + 1);
    } else {
      RunGrows(words, i + 1, j);
      assert words[i] + " " + (Run(words, i + 1, j) + " " + words[j])
          == words[i] + " " + Run(words, i + 1, j) + " " + words[j];
    }
  }

  lemma {:induction false} RunWithin(words: seq<string>, i: nat, m: nat, j: nat)
    requires i < m <= j <= |words|
    ensures Units(Run(words, i, m)) <= Units(Run(words, i, j))
    decreases j - m
  {
    if m < j {
      RunGrows(words, i, m);
      UnitsAdd(Run(words, i, m) + " ", words[m]);
      UnitsAdd(Run(words, i, m), " ");
      RunWithin(words, i, m + 1, j);
    }
  }

  /** A line begun within a longest run is filled up to its end. */
  lemma {:induction false} FillsRun(words: seq<string>, i: nat, m: nat, j: nat)
    requires LongestRun(words, i, j) && i < m <= j
    ensures Fill(Run(words, i, m), words[m..]) ==
      [Run(words, i, j)] + if j == |words| then [] else Fill(words[j], words[j + 1..])
    decreases j - m
  {
    if m < |words| {
      RunGrows(words, i, m);
      assert words[m..][0] == words[m] && words[m..][1..] == words[m + 1..];
      if m < j {
        RunWithin(words, i, m + 1, j);
        FillsRun(words, i, m + 1, j);
      }
    }
  }

  ghost function FillFrom(words: seq<string>, i: nat): seq<string>
    requires i <= |words|
  {
    if i == |words| then [] else Fill(words[i], words[i + 1..])
  }

  lemma FillsFirstRun(words: seq<string>, i: nat, j: nat)
    requires LongestRun(words, i, j)
    ensures FillFrom(words, i) == [Run(words, i, j)] + FillFrom(words, j)
  {
    FillsRun(words, i, i + 1, j);
  }

  ghost function Runs(words: seq<string>, breaks: seq<nat>): seq<string>
    requires LongestRuns(words, breaks)
  {
    seq(|breaks| - 1, k requires 0 <= k < |breaks| - 1 =>
      assert LongestRun(words, breaks[k], breaks[k + 1]); Run(words, breaks[k], breaks[k + 1]))
  }

  lemma {:induction false} FillsRuns(words: seq<string>, breaks: seq<nat>)
    requires LongestRuns(words, breaks)
    ensures breaks[0] <= |words| && FillFrom(words, breaks[0]) == Runs(words, breaks)
    decreases |breaks|
  {
    if |breaks| > 1 {
      LaterRuns(words, breaks);
      FillsFirstRun(words, breaks[0], breaks[1]);
      FillsRuns(words, breaks[1..]);
    }
  }

  lemma LaterRuns(words: seq<string>, breaks: seq<nat>)
    requires LongestRuns(words, breaks) && |breaks| > 1
    ensures LongestRun(words, breaks[0], breaks[1]) && LongestRuns(words, breaks[1..])
    ensures Runs(words, breaks) == [Run(words, breaks[0], breaks[1])] + Runs(words, breaks[1..])
  {
    var rest := breaks[1..];
    forall k | 0 <= k < |rest| - 1
      ensures LongestRun(words, rest[k], rest[k + 1])
    {
      assert LongestRun(words, breaks[k + 1], breaks[k + 2]);
    }
  }

  /** The lines of a segment are its longest runs of words, first come first served. */
  lemma FoldsLongestRuns(segment: string, breaks: seq<nat>)
    requires LongestRuns(Split(segment, ' '), breaks) && breaks[0] == 0
    ensures |breaks| > 1 && FoldedLines(segment) == Runs(Split(segment, ' '), breaks)
  {
    FillsRuns(Split(segment, ' '), breaks);
  }

  ghost function RunEnd(words: seq<string>, i: nat, m: nat): (j: nat)
    requires i < m <= |words| && (m == i + 1 || Units(Run(words, i, m)) <= LINE_LIMIT)
    ensures LongestRun(words, i, j)
    decreases |words| - m
  {
    if m == |words| || Units(Run(words, i, m + 1)) > LINE_LIMIT then m else RunEnd(words, i, m + 1)
  }

  ghost function RunBreaks(words: seq<string>, i: nat): (breaks: seq<nat>)
    requires i <= |words|
    ensures LongestRuns(words, breaks) && breaks[0] == i
    decreases |words| - i
  {
    if i == |words| then [i] else [i] + RunBreaks(words, RunEnd(words, i, i + 1))
  }

  lemma {:induction false} JoinSpaced(parts: seq<string>)
    requires forall p :: p in parts ==> ' ' !in p
    ensures ' ' in Join(parts, " ") <==> |parts| > 1
  {
    if |parts| == 1 {
      assert parts[0] in parts;
    } else if parts != [] {
      assert Join(parts, " ")[|parts[0]|] == ' ';
    }
  }

  lemma RunSpaced(segment: string, i: nat, j: nat)
    requires i < j <= |Split(segment, ' ')|
    ensures ' ' in Run(Split(segment, ' '), i, j) <==> i + 2 <= j
  {
    SplitJoins(segment, ' ');
    JoinSpaced(Split(segment, ' ')[i..j]);
  }

  /** Such a run is a line of several words that fills its 78 units and gets the fold's space on top. */
  lemma OverflowsLine(segment: string)
    ensures Overflows(segment) <==> exists k :: 1 <= k < |FoldedLines(segment)| && FullLine(FoldedLines(segment)[k])
  {
    var words := Split(segment, ' ');
    if Overflows(segment) {
      var breaks, k :| LongestRuns(words, breaks) && breaks[0] == 0 && FullRun(words, breaks, k);
      FullRunLine(segment, breaks, k);
    }
    if k :| 1 <= k < |FoldedLines(segment)| && FullLine(FoldedLines(segment)[k]) {
      var breaks := RunBreaks(words, 0);
      FoldsLongestRuns(segment, breaks);
      FullRunLine(segment, breaks, k);
    }
  }

  ghost predicate FullLine(line: string) {
    Units(line) == LINE_LIMIT && ' ' in line
  }

  lemma FullRunLine(segment: string, breaks: seq<nat>, k: nat)
    requires LongestRuns(Split(segment, ' '), breaks) && breaks[0] == 0 && 1 <= k < |breaks| - 1
    ensures k < |FoldedLines(segment)|
    ensures FullRun(Split(segment, ' '), breaks, k) <==> FullLine(FoldedLines(segment)[k])
  {
    FoldsLongestRuns(segment, breaks);
    assert LongestRun(Split(segment, ' '), breaks[k], breaks[k + 1]);
    RunSpaced(segment, breaks[k], breaks[k + 1]);
  }

  lemma SpacedUnits(line: string)
    ensures Units(" " + line) == Units(line) + 1
    ensures (forall i :: 0 < i < |" " + line| ==> (" " + line)[i] != ' ') <==> ' ' !in line
  {
    assert (" " + line)[1..] == line;
    forall i | 0 < i < |" " + line|
      ensures (" " + line)[i] in line
    {
      assert (" " + line)[i] == line[i - 1];
    }
    if ' ' in line {
      var k :| 0 <= k < |line| && line[k] == ' ';
      assert (" " + line)[k + 1] == ' ';
    }
  }

  lemma SegmentFits(segment: string)
    ensures forall l :: l in Physical(FoldedLines(segment)) ==> Within(l, LINE_LIMIT + 1)
    ensures (forall l :: l in Physical(FoldedLines(segment)) ==> Within(l, LINE_LIMIT)) <==> !Overflows(segment)
  {
    FoldedLinesFit(segment);
    var lines, physical := FoldedLines(segment), Physical(FoldedLines(segment));
    forall k | 0 <= k < |lines|
      ensures Within(physical[k], LINE_LIMIT + 1)
      ensures !Within(physical[k], LINE_LIMIT) <==> k >= 1 && FullLine(lines[k])
    {
      assert lines[k] in lines;
      SpacedUnits(lines[k]);
    }
    OverflowsLine(segment);
    if Overflows(segment) {
      var k :| 1 <= k < |lines| && FullLine(lines[k]);
      assert physical[k] in physical;
    }
  }

  lemma {:induction false} AllFit(segments: seq<string>)
    ensures forall l :: l in AllPhysical(segments) ==> Within(l, LINE_LIMIT + 1)
    ensures (forall l :: l in AllPhysical(segments) ==> Within(l, LINE_LIMIT))
       <==> forall i :: 0 <= i < |segments| ==> !Overflows(segments[i])
  {
    if segments != [] {
      SegmentFits(segments[0]);
      AllFit(segments[1..]);
      var first, rest := Physical(FoldedLines(segments[0])), AllPhysical(segments[1..]);
      assert forall l :: l in AllPhysical(segments) <==> l in first || l in rest;
      assert forall i :: 0 < i < |segments| ==> segments[i] == segments[1..][i - 1];
    }
  }

  /**
   * Every line a folded header puts on the wire is at most 79 long or one word that could not be broken; and all are
   * at most 78 long or one word if and only if no longest run of several words after the first is of exactly 78 units.
   */
  lemma LinesFit(name: string, value: string)
    ensures forall l :: l in SplitCrlf(FoldHeader(name, value)) ==> Within(l, LINE_LIMIT + 1)
    ensures var segments := SplitCrlf(name + ": " + value);
      (forall l :: l in SplitCrlf(FoldHeader(name, value)) ==> Within(l, LINE_LIMIT))
        <==> forall i :: 0 <= i < |segments| ==> !Overflows(segments[i])
  {
    SplitCrlfJoins(name + ": " + value);
    SegmentsSplit(SplitCrlf(name + ": " + value));
    AllFit(SplitCrlf(name + ": " + value));
  }

  // ---------------------------------------------------------------- a line of 79

  function Letters(c: char, n: nat): string {
    seq(n, _ => c)
  }

  /** 70 letters have no room beside the name; 38 and 39 more, with a space between, make 78 on the line after. */
  const LONG_SUBJECT: string := Letters('x', 70) + " " + (Letters('y', 38) + " " + Letters('z', 39))

  lemma {:induction false} SplitAtSpace(word: string, rest: string)
    requires ' ' !in word
    ensures Split(word + " " + rest, ' ') == [word] + Split(rest, ' ')
  {
    if word == [] {
      assert word + " " + rest == " " + rest && (" " + rest)[1..] == rest;
    } else {
      assert (word + " " + rest)[1..] == word[1..] + " " + rest;
      SplitAtSpace(word[1..], rest);
      assert [word[0]] + word[1..] == word;
    }
  }

  lemma LongSubjectWords()
    ensures Split("Subject: " + LONG_SUBJECT, ' ')
         == ["Subject:", Letters('x', 70), Letters('y', 38), Letters('z', 39)]
  {
    var x, y, z := Letters('x', 70), Letters('y', 38), Letters('z', 39);
    FourWords("Subject:", x, y, z);
    assert "Subject: " == "Subject:" + " ";
    assert "Subject: " + LONG_SUBJECT == "Subject:" + " " + LONG_SUBJECT;
  }

  lemma FourWords(a: string, b: string, c: string, d: string)
    requires ' ' !in a && ' ' !in b && ' ' !in c && ' ' !in d
    ensures Split(a + " " + (b + " " + (c + " " + d)), ' ') == [a, b, c, d]
  {
    OneWordSplit(d);
    SplitAtSpace(c, d);
    SplitAtSpace(b, c + " " + d);
    SplitAtSpace(a, b + " " + (c + " " + d));
    assert [a] + ([b] + ([c] + [d])) == [a, b, c, d];
  }

  lemma LongSubjectLines()
    ensures FoldedLines("Subject: " + LONG_SUBJECT)
         == ["Subject:", Letters('x', 70), Letters('y', 38) + " " + Letters('z', 39)]
  {
    var x, y, z := Letters('x', 70), Letters('y', 38), Letters('z', 39);
    LongSubjectWords();
    PlainUnits("Subject:" + " " + x);
    PlainUnits(x + " " + y);
    PlainUnits(y + " " + z);
    assert Fill(y + " " + z, []) == [y + " " + z];
    assert Fill(y, [z]) == [y + " " + z] by {
      assert [z][1..] == [];
    }
    assert Fill(x, [y, z]) == [x] + Fill(y, [z]) by {
      assert [y, z][1..] == [z];
    }
    assert Fill("Subject:", [x, y, z]) == ["Subject:"] + Fill(x, [y, z]) by {
      assert [x, y, z][1..] == [y, z];
    }
    assert ["Subject:", x, y, z][1..] == [x, y, z];
  }

  /** That subject goes out with a line of 79 units and two words. */
  lemma LongSubjectOverflows()
    ensures exists l :: l in SplitCrlf(FoldHeader("Subject", LONG_SUBJECT))
                     && Units(l) == LINE_LIMIT + 1 && !Within(l, LINE_LIMIT)
  {
    var input, second := "Subject" + ": " + LONG_SUBJECT, Letters('y', 38) + " " + Letters('z', 39);
    LongSubjectOneLine();
    assert input == "Subject: " + LONG_SUBJECT;
    LongSubjectLines();
    SegmentsSplit([input]);
    assert AllPhysical([input]) == Physical(FoldedLines(input)) + AllPhysical([input][1..]);
    PlainUnits(second);
    SpacedUnits(second);
    assert Physical(FoldedLines(input))[2] == " " + second;
    assert (" " + second)[39] == ' ';
    assert " " + second in AllPhysical([input]);
  }

  lemma LongSubjectOneLine()
    ensures OneLine("Subject" + ": " + LONG_SUBJECT)
  {
    var input := "Subject" + ": " + LONG_SUBJECT;
    assert forall i :: 0 <= i < |LONG_SUBJECT| ==> LONG_SUBJECT[i] != '\r';
    assert forall i :: 0 <= i < |"Subject: "| ==> "Subject: "[i] != '\r';
    assert forall i :: 0 <= i < |input| ==> input[i] != '\r';
  }
}
