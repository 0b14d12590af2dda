/** The body of an outgoing message: texts, alternatives and attachments, nested, and read back whole. */
module MessageBody {
  import opened Common
  import opened Crlf
  import opened HeaderFold
  import opened Text
  import opened Multipart
  import Base64

  /** name and filename are the parameters as they are written in the headers. */
  datatype Attachment = Attachment(contentType: string, name: string, filename: string, content: Bytes)

  datatype Leaf = Leaf(headers: seq<string>, content: Option<Bytes>)

  const CONTENT_TYPE: string := "Content-Type: "
  const MULTIPART: string := CONTENT_TYPE + "multipart/"
  const TRANSFER_ENCODING: string := "Content-Transfer-Encoding: base64"

  // ---------------------------------------------------------------- writing

  function TextHeaders(contentType: string): seq<string> {
    [CONTENT_TYPE + contentType + "; charset=utf-8", TRANSFER_ENCODING]
  }

  function TextPart(content: Bytes, contentType: string): Part {
    Part(TextHeaders(contentType), Base64.Lines(content))
  }

  function AttachmentHeaders(a: Attachment): seq<string> {
    [CONTENT_TYPE + a.contentType + "; " + a.name, TRANSFER_ENCODING, "Content-Disposition: attachment; " + a.filename]
  }

  function AttachmentPart(a: Attachment): Part {
    Part(AttachmentHeaders(a), Base64.Lines(a.content))
  }

  function AttachmentParts(attachments: seq<Attachment>): seq<Part> {
    seq(|attachments|, i requires 0 <= i < |attachments| => AttachmentPart(attachments[i]))
  }

  function TextParts(text: Option<Bytes>, html: Option<Bytes>): seq<Part> {
    (if text.None? then [] else [TextPart(text.value, "text/plain")])
      + if html.None? then [] else [TextPart(html.value, "text/html")]
  }

  /** One text stands alone; none or two make an alternative. */
  function AlternativePart(parts: seq<Part>, mark: string): Part {
    if |parts| == 1 then parts[0] else Enclosed("alternative", parts, mark)
  }

  function BodyPart(text: Option<Bytes>, html: Option<Bytes>, attachments: seq<Attachment>,
                    inner: string, outer: string): Part {
    var alternative := AlternativePart(TextParts(text, html), inner);
    if attachments == [] then alternative
    else Enclosed("mixed", [alternative] + AttachmentParts(attachments), outer)
  }

  // ---------------------------------------------------------------- reading

  function FirstQuote(s: string): (at: nat)
    ensures at <= |s|
  {
    if s == [] || s[0] == '"' then 0 else 1 + FirstQuote(s[1..])
  }

  /** The quoted boundary of a multipart Content-Type, the first header of a part. */
  function BoundaryOf(headers: seq<string>): Option<string> {
    if headers == [] || !StartsWith(headers[0], MULTIPART) then None
    else
      var header := headers[0];
      var at := FirstQuote(header);
      if at + 1 >= |header| || header[|header| - 1] != '"' then None else Some(header[at + 1..|header| - 1])
  }

  /** The parts that are not multipart, in order, with their decoded contents; depth bounds the nesting read. */
  function Leaves(part: Part, depth: nat): Option<seq<Leaf>>
    decreases depth, 0, 0
  {
    var mark := BoundaryOf(part.headers);
    if mark.None? then Some([Leaf(part.headers, Base64.Decode(part.body))])
    else if depth == 0 then None
    else
      var inner := ReceiveMultipart(part.body, mark.value);
      if inner.None? then None else LeavesOf(inner.value, depth - 1)
  }

  function LeavesOf(rendered: seq<string>, depth: nat): Option<seq<Leaf>>
    decreases depth, 1, |rendered|
  {
    if rendered == [] then Some([])
    else
      var first, rest := Leaves(ParsePart(rendered[0]), depth), LeavesOf(rendered[1..], depth);
      if first.None? || rest.None? then None else Some(first.value + rest.value)
  }

  // ---------------------------------------------------------------- nothing begins like the outer delimiter

  lemma {:induction false} NoDashLines(s: string)
    requires '-' !in s
    ensures forall i :: 0 <= i < |SplitCrlf(s)| ==> '-' !in SplitCrlf(s)[i]
    decreases |s|
  {
    if FirstCrlf(s, 0).Some? {
      NoDashLines(s[FirstCrlf(s, 0).value + 2..]);
    }
  }

  lemma {:induction false} WrappedNoDash(s: string)
    requires '-' !in s
    ensures '-' !in Base64.Wrapped(s)
    decreases |s|
  {
    if |s| > Base64.BASE64_LINE {
      WrappedNoDash(s[Base64.BASE64_LINE..]);
    }
  }

  lemma ContentNoDash(content: Bytes)
    ensures '-' !in Base64.Lines(content)
  {
    Base64.EncodedClean(content);
    WrappedNoDash(Base64.Encode(content));
  }

  ghost predicate PlainHeaders(headers: seq<string>) {
    forall i :: 0 <= i < |headers| ==> headers[i] != "" && headers[i][0] != '-' && OneLine(headers[i])
  }

  lemma DelimitersDash(line: string, mark: string)
    ensures Delimits(line, mark) ==> line != "" && line[0] == '-'
  {
    assert |Opening(mark)| <= |line| ==> line[..|Opening(mark)|][0] == line[0];
  }

  lemma LeafClean(headers: seq<string>, content: Bytes, mark: string)
    requires PlainHeaders(headers)
    ensures Clean(Part(headers, Base64.Lines(content)), mark)
  {
    var body := Base64.Lines(content);
    PartLines(headers, body);
    ContentNoDash(content);
    NoDashLines(body);
    var lines := SplitCrlf(RenderPart(Part(headers, body)));
    forall i | 0 <= i < |lines|
      ensures !Delimits(lines[i], mark)
    {
      DelimitersDash(lines[i], mark);
      if i > |headers| {
        assert lines[i] == SplitCrlf(body)[i - |headers| - 1];
      }
    }
  }

  ghost predicate DistinctMarks(inner: string, outer: string) {
    |inner| == |outer| && inner != outer && OneLine(inner) && OneLine(outer)
  }

  lemma OtherMark(inner: string, outer: string)
    requires DistinctMarks(inner, outer)
    ensures !Delimits(Opening(inner), outer) && !Delimits(Closing(inner), outer)
  {
    assert Opening(inner)[2..] == inner && Opening(outer)[2..] == outer;
    assert Closing(inner)[..|inner| + 2] == Opening(inner);
    assert Opening(inner)[..|outer| + 2] == Opening(inner);
  }

  /** No line of a body with its own mark begins like a delimiter of another mark. */
  lemma {:induction false} BodyClean(parts: seq<Part>, inner: string, outer: string)
    requires DistinctMarks(inner, outer) && forall i :: 0 <= i < |parts| ==> Clean(parts[i], outer)
    ensures forall i :: 0 <= i < |SplitCrlf(Body(parts, inner))| ==> !Delimits(SplitCrlf(Body(parts, inner))[i], outer)
    decreases |parts|
  {
    BodyLines(parts, inner);
    OtherMark(inner, outer);
    if parts != [] {
      BodyClean(parts[1..], inner, outer);
      var own, rest := SplitCrlf(RenderPart(parts[0])), SplitCrlf(Body(parts[1..], inner));
      var lines := SplitCrlf(Body(parts, inner));
      assert Clean(parts[0], outer);
      forall i | 0 <= i < |lines|
        ensures !Delimits(lines[i], outer)
      {
        if i > |own| {
          assert lines[i] == rest[i - |own| - 1];
        } else if i > 0 {
          assert lines[i] == own[i - 1];
        }
      }
    }
  }

  lemma NestedClean(subtype: string, parts: seq<Part>, inner: string, outer: string)
    requires DistinctMarks(inner, outer) && OneLine(MultipartHeader(subtype, inner))
    requires forall i :: 0 <= i < |parts| ==> Clean(parts[i], outer)
    ensures Clean(Enclosed(subtype, parts, inner), outer)
  {
    var part := Enclosed(subtype, parts, inner);
    PartLines(part.headers, part.body);
    BodyIsJoined(parts, inner);
    BodyClean(parts, inner, outer);
    var lines := SplitCrlf(RenderPart(part));
    assert part.headers[0][0] == 'C';
    forall i | 0 <= i < |lines|
      ensures !Delimits(lines[i], outer)
    {
      DelimitersDash(lines[i], outer);
      if i > 1 {
        assert lines[i] == SplitCrlf(part.body)[i - 2];
      }
    }
  }

  // ---------------------------------------------------------------- reading back

  lemma {:induction false} QuoteFound(before: string, rest: string)
    requires '"' !in before
    ensures FirstQuote(before + "\"" + rest) == |before|
  {
    if before == [] {
      assert before + "\"" + rest == "\"" + rest;
    } else {
      assert (before + "\"" + rest)[1..] == before[1..] + "\"" + rest;
      QuoteFound(before[1..], rest);
    }
  }

  lemma MultipartHeaderParts(subtype: string, mark: string)
    ensures MultipartHeader(subtype, mark) == MULTIPART + (subtype + "; boundary=") + "\"" + (mark + "\"")
    ensures StartsWith(MultipartHeader(subtype, mark), MULTIPART)
  {
    assert "Content-Type: multipart/" == MULTIPART;
    assert MultipartHeader(subtype, mark) == MULTIPART + ((subtype + "; boundary=") + "\"" + (mark + "\""));
    assert (MULTIPART + ((subtype + "; boundary=") + "\"" + (mark + "\"")))[..|MULTIPART|] == MULTIPART;
  }

  lemma BoundaryRead(subtype: string, mark: string)
    requires '"' !in subtype
    ensures BoundaryOf([MultipartHeader(subtype, mark)]) == Some(mark)
  {
    var before := MULTIPART + (subtype + "; boundary=");
    var header := MultipartHeader(subtype, mark);
    MultipartHeaderParts(subtype, mark);
    QuoteFound(before, mark + "\"");
    assert header[|before| + 1..|header| - 1] == mark;
    assert header[|header| - 1] == '"';
  }

  /** A rendered multipart reads as the leaves of its parts, one level deeper. */
  lemma MultipartLeaves(subtype: string, parts: seq<Part>, mark: string, depth: nat)
    requires OneLine(mark) && '"' !in subtype && depth > 0
    requires forall i :: 0 <= i < |parts| ==> Clean(parts[i], mark)
    ensures Leaves(Enclosed(subtype, parts, mark), depth) == LeavesOf(RenderedParts(parts), depth - 1)
  {
    BoundaryRead(subtype, mark);
    MultipartRoundTrip(parts, mark);
  }

  ghost predicate LeafHeaders(headers: seq<string>) {
    PlainHeaders(headers) && BoundaryOf(headers).None?
  }

  function LeafOf(headers: seq<string>, content: Bytes): Leaf {
    Leaf(headers, Some(content))
  }

  lemma LeafReads(headers: seq<string>, content: Bytes, depth: nat)
    requires LeafHeaders(headers)
    ensures Leaves(ParsePart(RenderPart(Part(headers, Base64.Lines(content)))), depth)
         == Some([LeafOf(headers, content)])
    ensures Leaves(Part(headers, Base64.Lines(content)), depth) == Some([LeafOf(headers, content)])
  {
    PartRoundTrip(Part(headers, Base64.Lines(content)));
    Base64.LinesRoundTrip(content);
  }

  lemma LeavesJoin(first: Part, rest: seq<Part>, depth: nat)
    ensures LeavesOf(RenderedParts([first] + rest), depth) ==
      var a, b := Leaves(ParsePart(RenderPart(first)), depth), LeavesOf(RenderedParts(rest), depth);
      if a.None? || b.None? then None else Some(a.value + b.value)
  {
    var all := RenderedParts([first] + rest);
    assert all[0] == RenderPart(first) && all[1..] == RenderedParts(rest);
  }

  ghost predicate GoodAttachment(a: Attachment) {
    LeafHeaders(AttachmentHeaders(a))
  }

  ghost predicate AllGood(attachments: seq<Attachment>) {
    forall i :: 0 <= i < |attachments| ==> GoodAttachment(attachments[i])
  }

  function AttachmentLeaves(attachments: seq<Attachment>): seq<Leaf> {
    seq(|attachments|, i requires 0 <= i < |attachments| =>
      LeafOf(AttachmentHeaders(attachments[i]), attachments[i].content))
  }

  lemma AttachmentsStep(attachments: seq<Attachment>)
    requires attachments != []
    ensures AttachmentParts(attachments) == [AttachmentPart(attachments[0])] + AttachmentParts(attachments[1..])
    ensures AttachmentLeaves(attachments)
         == [LeafOf(AttachmentHeaders(attachments[0]), attachments[0].content)] + AttachmentLeaves(attachments[1..])
  {
  }

  lemma {:induction false} AttachmentsRead(attachments: seq<Attachment>, depth: nat)
    requires AllGood(attachments)
    ensures LeavesOf(RenderedParts(AttachmentParts(attachments)), depth) == Some(AttachmentLeaves(attachments))
  {
    if attachments == [] {
      assert RenderedParts(AttachmentParts(attachments)) == [];
      assert AttachmentLeaves(attachments) == [];
    } else {
      var first := attachments[0];
      AttachmentsRead(attachments[1..], depth);
      LeafReads(AttachmentHeaders(first), first.content, depth);
      LeavesJoin(AttachmentPart(first), AttachmentParts(attachments[1..]), depth);
      AttachmentsStep(attachments);
    }
  }

  function TextLeaves(text: Option<Bytes>, html: Option<Bytes>): seq<Leaf> {
    (if text.None? then [] else [LeafOf(TextHeaders("text/plain"), text.value)])
      + if html.None? then [] else [LeafOf(TextHeaders("text/html"), html.value)]
  }

  lemma NoReturnOneLine(s: string)
    requires '\r' !in s
    ensures OneLine(s)
  {
    forall i: nat | i < |s|
      ensures !CrlfAt(s, i)
    {
      assert s[i] in s;
    }
  }

  lemma TextHeadersPlain(contentType: string)
    requires contentType == "text/plain" || contentType == "text/html"
    ensures LeafHeaders(TextHeaders(contentType))
  {
    var headers := TextHeaders(contentType);
    NoReturnOneLine(headers[0]);
    NoReturnOneLine(headers[1]);
    assert |CONTENT_TYPE| == 14 && |MULTIPART| == 24;
    assert headers[0][14] == contentType[0] == 't' && MULTIPART[14] == 'm';
  }

  lemma TextReads(content: Bytes, contentType: string, depth: nat)
    requires contentType == "text/plain" || contentType == "text/html"
    ensures Leaves(TextPart(content, contentType), depth) == Some([LeafOf(TextHeaders(contentType), content)])
    ensures LeavesOf(RenderedParts([TextPart(content, contentType)]), depth)
         == Some([LeafOf(TextHeaders(contentType), content)])
  {
    TextHeadersPlain(contentType);
    LeafReads(TextHeaders(contentType), content, depth);
    var part := TextPart(content, contentType);
    LeavesJoin(part, [], depth);
    assert [part] + [] == [part];
    assert LeavesOf(RenderedParts([]), depth) == Some([]);
    assert [LeafOf(TextHeaders(contentType), content)] + [] == [LeafOf(TextHeaders(contentType), content)];
  }

  lemma TextPartsRead(text: Option<Bytes>, html: Option<Bytes>, depth: nat)
    ensures LeavesOf(RenderedParts(TextParts(text, html)), depth) == Some(TextLeaves(text, html))
  {
    if text.Some? {
      TextReads(text.value, "text/plain", depth);
    }
    if html.Some? {
      TextReads(html.value, "text/html", depth);
    }
    if text.Some? && html.Some? {
      var plain, rich := TextPart(text.value, "text/plain"), TextPart(html.value, "text/html");
      LeavesJoin(plain, [rich], depth);
      TextHeadersPlain("text/plain");
      LeafReads(TextHeaders("text/plain"), text.value, depth);
      assert TextParts(text, html) == [plain] + [rich];
    } else if text.None? && html.None? {
      assert TextParts(text, html) == [];
    } else if text.Some? {
      assert TextParts(text, html) == [TextPart(text.value, "text/plain")];
      assert TextLeaves(text, html) == [LeafOf(TextHeaders("text/plain"), text.value)];
    } else {
      assert TextParts(text, html) == [TextPart(html.value, "text/html")];
      assert TextLeaves(text, html) == [LeafOf(TextHeaders("text/html"), html.value)];
    }
  }

  lemma TextPartsClean(text: Option<Bytes>, html: Option<Bytes>, mark: string)
    ensures forall i :: 0 <= i < |TextParts(text, html)| ==> Clean(TextParts(text, html)[i], mark)
  {
    TextHeadersPlain("text/plain");
    TextHeadersPlain("text/html");
    if text.Some? {
      LeafClean(TextHeaders("text/plain"), text.value, mark);
    }
    if html.Some? {
      LeafClean(TextHeaders("text/html"), html.value, mark);
    }
  }

  /** The texts of a message, alone or as alternatives, are read back in order. */
  lemma AlternativeReads(text: Option<Bytes>, html: Option<Bytes>, mark: string, depth: nat)
    requires OneLine(mark) && depth > 0
    ensures Leaves(AlternativePart(TextParts(text, html), mark), depth) == Some(TextLeaves(text, html))
  {
    var parts := TextParts(text, html);
    if |parts| == 1 {
      if text.Some? {
        TextReads(text.value, "text/plain", depth);
        assert TextLeaves(text, html) == [LeafOf(TextHeaders("text/plain"), text.value)];
      } else {
        TextReads(html.value, "text/html", depth);
        assert TextLeaves(text, html) == [LeafOf(TextHeaders("text/html"), html.value)];
      }
    } else {
      TextPartsClean(text, html, mark);
      MultipartLeaves("alternative", parts, mark, depth);
      TextPartsRead(text, html, depth - 1);
    }
  }

  lemma HeaderOneLine(subtype: string, mark: string)
    requires OneLine(mark) && (subtype == "alternative" || subtype == "mixed")
    ensures OneLine(MultipartHeader(subtype, mark))
  {
    var before := "Content-Type: multipart/" + subtype + "; boundary=\"";
    var header := before + mark + "\"";
    assert header == MultipartHeader(subtype, mark);
    assert forall i :: 0 <= i < |before| ==> before[i] != '\r';
    forall i: nat
      ensures !CrlfAt(header, i)
    {
      if |before| <= i < |before| + |mark| {
        assert CrlfAt(header, i) == CrlfAt(mark, i - |before|);
      }
    }
  }

  /** The alternative part survives being a part itself. */
  lemma AlternativeNests(text: Option<Bytes>, html: Option<Bytes>, inner: string, outer: string)
    requires DistinctMarks(inner, outer)
    ensures var part := AlternativePart(TextParts(text, html), inner);
      ParsePart(RenderPart(part)) == part && Clean(part, outer)
  {
    var parts := TextParts(text, html);
    TextPartsClean(text, html, outer);
    if |parts| == 1 {
      TextHeadersPlain("text/plain");
      TextHeadersPlain("text/html");
      PartRoundTrip(parts[0]);
    } else {
      HeaderOneLine("alternative", inner);
      NestedClean("alternative", parts, inner, outer);
      PartRoundTrip(Enclosed("alternative", parts, inner));
    }
  }

  lemma MixedClean(first: Part, attachments: seq<Attachment>, mark: string)
    requires Clean(first, mark) && AllGood(attachments)
    ensures var parts := [first] + AttachmentParts(attachments);
      forall i :: 0 <= i < |parts| ==> Clean(parts[i], mark)
  {
    var parts := [first] + AttachmentParts(attachments);
    forall i | 0 < i < |parts|
      ensures Clean(parts[i], mark)
    {
      LeafClean(AttachmentHeaders(attachments[i - 1]), attachments[i - 1].content, mark);
    }
  }

  lemma MixedParts(first: Part, leaves: seq<Leaf>, attachments: seq<Attachment>, depth: nat)
    requires ParsePart(RenderPart(first)) == first && Leaves(first, depth) == Some(leaves)
    requires AllGood(attachments)
    ensures LeavesOf(RenderedParts([first] + AttachmentParts(attachments)), depth)
         == Some(leaves + AttachmentLeaves(attachments))
  {
    LeavesJoin(first, AttachmentParts(attachments), depth);
    AttachmentsRead(attachments, depth);
  }

  /** The part can be enclosed between marks and read back as these leaves. */
  ghost predicate Nests(part: Part, leaves: seq<Leaf>, mark: string, depth: nat) {
    Clean(part, mark) && ParsePart(RenderPart(part)) == part && Leaves(part, depth) == Some(leaves)
  }

  lemma MixedReads(subtype: string, first: Part, leaves: seq<Leaf>, attachments: seq<Attachment>, mark: string,
                   depth: nat)
    requires OneLine(mark) && depth > 0 && '"' !in subtype && Nests(first, leaves, mark, depth - 1)
    requires AllGood(attachments)
    ensures Leaves(Enclosed(subtype, [first] + AttachmentParts(attachments), mark), depth)
         == Some(leaves + AttachmentLeaves(attachments))
  {
    MixedClean(first, attachments, mark);
    MixedParts(first, leaves, attachments, depth - 1);
    MultipartLeaves(subtype, [first] + AttachmentParts(attachments), mark, depth);
  }

  lemma MixedBody(first: Part, leaves: seq<Leaf>, attachments: seq<Attachment>, mark: string, depth: nat)
    requires OneLine(mark) && depth > 0 && Nests(first, leaves, mark, depth - 1)
    requires AllGood(attachments)
    ensures Leaves(Enclosed("mixed", [first] + AttachmentParts(attachments), mark), depth)
         == Some(leaves + AttachmentLeaves(attachments))
  {
    MixedReads("mixed", first, leaves, attachments, mark, depth);
  }

  lemma AlternativeReady(text: Option<Bytes>, html: Option<Bytes>, inner: string, outer: string, depth: nat)
    requires DistinctMarks(inner, outer) && depth > 0
    ensures Nests(AlternativePart(TextParts(text, html), inner), TextLeaves(text, html), outer, depth)
  {
    AlternativeReads(text, html, inner, depth);
    AlternativeNests(text, html, inner, outer);
  }

  lemma PlainBodyReads(text: Option<Bytes>, html: Option<Bytes>, mark: string, depth: nat)
    requires OneLine(mark) && depth > 0
    ensures Leaves(AlternativePart(TextParts(text, html), mark), depth)
         == Some(TextLeaves(text, html) + AttachmentLeaves([]))
  {
    AlternativeReads(text, html, mark, depth);
    assert TextLeaves(text, html) + AttachmentLeaves([]) == TextLeaves(text, html);
  }

  /** A reader of the whole body finds every text and every attachment, in order, byte for byte. */
  lemma BodyReadsBack(text: Option<Bytes>, html: Option<Bytes>, attachments: seq<Attachment>,
                      inner: string, outer: string, depth: nat)
    requires DistinctMarks(inner, outer) && depth >= 2
    requires AllGood(attachments)
    ensures Leaves(BodyPart(text, html, attachments, inner, outer), depth)
         == Some(TextLeaves(text, html) + AttachmentLeaves(attachments))
  {
    if attachments == [] {
      PlainBodyReads(text, html, inner, depth);
    } else {
      AlternativeReady(text, html, inner, outer, depth - 1);
      MixedBody(AlternativePart(TextParts(text, html), inner), TextLeaves(text, html), attachments, outer, depth);
    }
  }
}
