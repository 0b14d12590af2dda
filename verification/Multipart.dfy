/** Multipart bodies as they are rendered, and as a reader takes them apart. */
module Multipart {
  import opened Common
  import opened Crlf
  import opened HeaderFold
  import opened Text

  datatype Part = Part(headers: seq<string>, body: string)

  // ---------------------------------------------------------------- rendering

  function RenderPart(part: Part): string {
    Join(part.headers + ["", part.body], CRLF)
  }

  function Opening(mark: string): string {
    "--" + mark
  }

  function Closing(mark: string): string {
    "--" + mark + "--"
  }

  function Encapsulations(parts: seq<Part>, mark: string): seq<string> {
    seq(|parts|, i requires 0 <= i < |parts| => Join([Opening(mark), RenderPart(parts[i])], CRLF))
  }

  function MultipartBody(parts: seq<Part>, mark: string): string {
    Join(Encapsulations(parts, mark) + [Closing(mark), ""], CRLF)
  }

  function MultipartHeader(subtype: string, mark: string): string {
    "Content-Type: multipart/" + subtype + "; boundary=\"" + mark + "\""
  }

  function Enclosed(subtype: string, parts: seq<Part>, mark: string): Part {
    Part([MultipartHeader(subtype, mark)], MultipartBody(parts, mark))
  }

  // ---------------------------------------------------------------- reading

  /** Section 5.1.1 of RFC 2046: the beginning of the line decides. */
  predicate Delimits(line: string, mark: string) {
    StartsWith(line, Opening(mark))
  }

  function FirstDelimiter(lines: seq<string>, mark: string): (at: nat)
    ensures at <= |lines| && (at < |lines| ==> Delimits(lines[at], mark))
    ensures forall i :: 0 <= i < at ==> !Delimits(lines[i], mark)
  {
    if lines == [] || Delimits(lines[0], mark) then 0 else 1 + FirstDelimiter(lines[1..], mark)
  }

  /** From below a delimiter on: the lines up to each next one; None when the closing one never comes. */
  function ReadParts(lines: seq<string>, mark: string): Option<seq<string>>
    decreases |lines|
  {
    var at := FirstDelimiter(lines, mark);
    if at == |lines| then None
    else if StartsWith(lines[at], Closing(mark)) then Some([Join(lines[..at], CRLF)])
    else
      var rest := ReadParts(lines[at + 1..], mark);
      if rest.None? then None else Some([Join(lines[..at], CRLF)] + rest.value)
  }

  function ReceiveMultipart(body: string, mark: string): Option<seq<string>> {
    var lines := SplitCrlf(body);
    var at := FirstDelimiter(lines, mark);
    if at == |lines| then None
    else if StartsWith(lines[at], Closing(mark)) then Some([])
    else ReadParts(lines[at + 1..], mark)
  }

  function RenderedParts(parts: seq<Part>): seq<string> {
    seq(|parts|, i requires 0 <= i < |parts| => RenderPart(parts[i]))
  }

  // ---------------------------------------------------------------- the lines of a body

  /** The same body, told from its first delimiter on. */
  function Body(parts: seq<Part>, mark: string): string {
    if parts == [] then Line(Closing(mark), "")
    else Line(Opening(mark), Line(RenderPart(parts[0]), Body(parts[1..], mark)))
  }

  lemma {:induction false} BodyIsJoined(parts: seq<Part>, mark: string)
    ensures MultipartBody(parts, mark) == Body(parts, mark)
  {
    var pieces := Encapsulations(parts, mark) + [Closing(mark), ""];
    if parts == [] {
      assert pieces == [Closing(mark), ""] && pieces[1..] == [""];
      assert Join([""], CRLF) == "" && Join(pieces, CRLF) == Closing(mark) + CRLF + "";
    } else {
      BodyIsJoined(parts[1..], mark);
      assert pieces[1..] == Encapsulations(parts[1..], mark) + [Closing(mark), ""];
      var first := [Opening(mark), RenderPart(parts[0])];
      assert first[1..] == [RenderPart(parts[0])];
      assert pieces[0] == Join(first, CRLF) == Line(Opening(mark), RenderPart(parts[0]));
      LineNests(Opening(mark), RenderPart(parts[0]), Body(parts[1..], mark));
    }
  }

  lemma DashedOneLine(mark: string, tail: string)
    requires OneLine(mark) && (tail == "" || tail == "--")
    ensures OneLine(Opening(mark) + tail)
  {
    var line := Opening(mark) + tail;
    forall i: nat
      ensures !CrlfAt(line, i)
    {
      if 2 <= i < |mark| + 2 {
        assert CrlfAt(line, i) == CrlfAt(mark, i - 2);
      }
    }
  }

  lemma MarksOneLine(mark: string)
    requires OneLine(mark)
    ensures OneLine(Opening(mark)) && OneLine(Closing(mark))
    ensures Delimits(Opening(mark), mark) && Delimits(Closing(mark), mark)
    ensures StartsWith(Closing(mark), Closing(mark)) && !StartsWith(Opening(mark), Closing(mark))
  {
    DashedOneLine(mark, "");
    DashedOneLine(mark, "--");
    assert Opening(mark) + "" == Opening(mark);
    assert Closing(mark)[..|mark| + 2] == Opening(mark);
  }

  /** A body's first line and what follows it. */
  lemma BodyLines(parts: seq<Part>, mark: string)
    requires OneLine(mark)
    ensures parts == [] ==> SplitCrlf(Body(parts, mark)) == [Closing(mark), ""]
    ensures parts != [] ==>
      SplitCrlf(Body(parts, mark))
        == [Opening(mark)] + (SplitCrlf(RenderPart(parts[0])) + SplitCrlf(Body(parts[1..], mark)))
  {
    MarksOneLine(mark);
    if parts == [] {
      SplitOfLine(Closing(mark), "");
    } else {
      SplitOfLine(Opening(mark), Line(RenderPart(parts[0]), Body(parts[1..], mark)));
      SplitOfLine(RenderPart(parts[0]), Body(parts[1..], mark));
    }
  }

  lemma {:induction false} FirstDelimiterAfter(front: seq<string>, rest: seq<string>, mark: string)
    requires rest != [] && Delimits(rest[0], mark)
    ensures FirstDelimiter(front + rest, mark) == FirstDelimiter(front, mark)
  {
    if front == [] {
      assert front + rest == rest;
    } else {
      assert (front + rest)[1..] == front[1..] + rest;
      FirstDelimiterAfter(front[1..], rest, mark);
    }
  }

  // ---------------------------------------------------------------- the round trip

  /** No line of the rendered part begins like a delimiter. */
  ghost predicate Clean(part: Part, mark: string) {
    forall i :: 0 <= i < |SplitCrlf(RenderPart(part))| ==> !Delimits(SplitCrlf(RenderPart(part))[i], mark)
  }

  lemma {:induction false} PrefixShorter(lines: seq<string>, at: nat)
    requires at < |lines| && lines[at] != []
    ensures |Join(lines[..at], CRLF)| < |Join(lines, CRLF)|
  {
    if at == 0 {
      assert lines[..at] == [];
    } else {
      PrefixShorter(lines[1..], at - 1);
      assert lines[..at][1..] == lines[1..][..at - 1];
    }
  }

  /** Below an opening delimiter, a clean part is read whole, and any other part is cut short. */
  lemma {:induction false} PartsReadBack(parts: seq<Part>, mark: string)
    requires OneLine(mark) && parts != []
    ensures ReadParts(SplitCrlf(RenderPart(parts[0])) + SplitCrlf(Body(parts[1..], mark)), mark)
         == Some(RenderedParts(parts))
       <==> forall i :: 0 <= i < |parts| ==> Clean(parts[i], mark)
    decreases |parts|
  {
    var front, rest := SplitCrlf(RenderPart(parts[0])), SplitCrlf(Body(parts[1..], mark));
    MarksOneLine(mark);
    BodyLines(parts[1..], mark);
    FirstDelimiterAfter(front, rest, mark);
    SplitCrlfJoins(RenderPart(parts[0]));
    var at := FirstDelimiter(front, mark);
    if at < |front| {
      assert !Clean(parts[0], mark);
      assert (front + rest)[..at] == front[..at];
      PrefixShorter(front, at);
      CutShort(front + rest, mark, RenderedParts(parts));
    } else {
      assert (front + rest)[..at] == front && (front + rest)[at] == rest[0];
      assert (front + rest)[at + 1..] == rest[1..];
      assert Clean(parts[0], mark);
      if |parts| == 1 {
        assert RenderedParts(parts) == [RenderPart(parts[0])];
      } else {
        assert rest[1..] == SplitCrlf(RenderPart(parts[1])) + SplitCrlf(Body(parts[1..][1..], mark));
        PartsReadBack(parts[1..], mark);
        FirstAndRest(parts, mark, ReadParts(rest[1..], mark));
      }
    }
  }

  lemma CutShort(lines: seq<string>, mark: string, wanted: seq<string>)
    requires wanted != [] && Join(lines[..FirstDelimiter(lines, mark)], CRLF) != wanted[0]
    ensures ReadParts(lines, mark) != Some(wanted)
  {
  }

  lemma FirstAndRest(parts: seq<Part>, mark: string, rest: Option<seq<string>>)
    requires |parts| > 1 && Clean(parts[0], mark)
    requires rest == Some(RenderedParts(parts[1..]))
        <==> forall i :: 0 <= i < |parts[1..]| ==> Clean(parts[1..][i], mark)
    ensures (rest.Some? && [RenderPart(parts[0])] + rest.value == RenderedParts(parts))
       <==> forall i :: 0 <= i < |parts| ==> Clean(parts[i], mark)
  {
    assert RenderedParts(parts) == [RenderPart(parts[0])] + RenderedParts(parts[1..]);
    if rest.Some? && [RenderPart(parts[0])] + rest.value == RenderedParts(parts) {
      assert rest.value == RenderedParts(parts)[1..];
    }
    assert forall i :: 0 < i < |parts| ==> parts[i] == parts[1..][i - 1];
  }

  /** A reader gets exactly the rendered parts if and only if no line of any of them begins like a delimiter. */
  lemma MultipartRoundTrip(parts: seq<Part>, mark: string)
    requires OneLine(mark)
    ensures ReceiveMultipart(MultipartBody(parts, mark), mark) == Some(RenderedParts(parts))
       <==> forall i :: 0 <= i < |parts| ==> Clean(parts[i], mark)
  {
    BodyIsJoined(parts, mark);
    BodyLines(parts, mark);
    MarksOneLine(mark);
    if parts == [] {
      assert RenderedParts(parts) == [];
    } else {
      var lines := SplitCrlf(Body(parts, mark));
      assert lines[1..] == SplitCrlf(RenderPart(parts[0])) + SplitCrlf(Body(parts[1..], mark));
      PartsReadBack(parts, mark);
    }
  }

  // ---------------------------------------------------------------- one part

  function FirstEmpty(lines: seq<string>): (at: nat)
    ensures at <= |lines|
  {
    if lines == [] || lines[0] == "" then 0 else 1 + FirstEmpty(lines[1..])
  }

  /** Headers up to the first empty line, and the rest is the body. */
  function ParsePart(rendered: string): Part {
    var lines := SplitCrlf(rendered);
    var at := FirstEmpty(lines);
    if at == |lines| then Part(lines, "") else Part(lines[..at], Join(lines[at + 1..], CRLF))
  }

  ghost predicate GoodHeaders(headers: seq<string>) {
    forall i :: 0 <= i < |headers| ==> headers[i] != "" && OneLine(headers[i])
  }

  lemma {:induction false} PartLines(headers: seq<string>, body: string)
    requires forall i :: 0 <= i < |headers| ==> OneLine(headers[i])
    ensures SplitCrlf(Join(headers + ["", body], CRLF)) == headers + ([""] + SplitCrlf(body))
  {
    if headers == [] {
      assert headers + ["", body] == ["", body];
      assert ["", body][1..] == [body];
      SplitOfLine("", body);
    } else {
      var rest := headers[1..] + ["", body];
      assert (headers + ["", body])[1..] == rest;
      PartLines(headers[1..], body);
      SplitOfLine(headers[0], Join(rest, CRLF));
      assert Join(headers + ["", body], CRLF) == Line(headers[0], Join(rest, CRLF));
    }
  }

  lemma {:induction false} FirstEmptyAfter(headers: seq<string>, rest: seq<string>)
    requires forall i :: 0 <= i < |headers| ==> headers[i] != ""
    ensures FirstEmpty(headers + ([""] + rest)) == |headers|
  {
    var lines := headers + ([""] + rest);
    if headers != [] {
      assert lines[1..] == headers[1..] + ([""] + rest);
      FirstEmptyAfter(headers[1..], rest);
    }
  }

  lemma PartRoundTrip(part: Part)
    requires GoodHeaders(part.headers)
    ensures ParsePart(RenderPart(part)) == part
  {
    PartLines(part.headers, part.body);
    FirstEmptyAfter(part.headers, SplitCrlf(part.body));
    var lines := SplitCrlf(RenderPart(part));
    assert lines[|part.headers| + 1..] == SplitCrlf(part.body);
    SplitCrlfJoins(part.body);
  }
}
