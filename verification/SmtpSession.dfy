/** The client's end of an SMTP connection: a line buffer filled by whatever chunks arrive. */
module SmtpSession {
  import opened Common
  import opened Crlf
  import opened Smtp

  function Joined(chunks: seq<string>): string {
    if chunks == [] then "" else chunks[0] + Joined(chunks[1..])
  }

  class SmtpSession {
    var buffer: string
    /** What the reader has not delivered yet, chunk by chunk; then the stream ends. */
    var chunks: seq<string>
    /** What the socket will deliver once TLS has started. */
    var secured: seq<string>
    var sent: seq<string>

    constructor (chunks: seq<string>, secured: seq<string>)
      ensures Pending() == Joined(chunks) && this.secured == secured && sent == []
    {
      buffer, this.chunks, this.secured, sent := "", chunks, secured, [];
    }

    /** The buffer and the unread chunks: what the server has said and nobody has consumed. */
    function Pending(): string
      reads this
    {
      buffer + Joined(chunks)
    }

    method ReadLine() returns (line: Option<string>)
      modifies `buffer, `chunks
      ensures var was := old(Pending());
        match FirstCrlf(was, 0)
        case Some(at) => line == Some(was[..at]) && Pending() == was[at + 2..]
        case None => line == None && Pending() == was
      decreases |chunks|
    {
      ghost var was := Pending();
      var index := FirstCrlf(buffer, 0);
      if index.Some? {
        FoundInFront(buffer, Joined(chunks));
        line := Some(buffer[..index.value]);
        buffer := buffer[index.value + 2..];
        return;
      }
      if chunks == [] {
        assert was == buffer;
        return None;
      }
      assert buffer + (chunks[0] + Joined(chunks[1..])) == (buffer + chunks[0]) + Joined(chunks[1..]);
      buffer := buffer + chunks[0];
      chunks := chunks[1..];
      line := ReadLine();
    }

    /** Gathers lines until one that is not continued. */
    method Collect(lines: seq<string>) returns (reply: Option<Reply>)
      modifies `buffer, `chunks
      ensures match ReadReply(old(Pending()), lines)
        case Some(read) => reply == Some(read.reply) && Pending() == read.rest
        case None => reply == None
      decreases |Pending()|
    {
      var line := ReadLine();
      if line.None? {
        return None;
      }
      var next := lines + [line.value];
      if Continued(line.value) {
        reply := Collect(next);
      } else {
        reply := Some(Reply(Code(line.value), next));
      }
    }

    /** The next whole reply, however the chunks cut it up. */
    method Read() returns (reply: Option<Reply>)
      modifies `buffer, `chunks
      ensures match ReadReply(old(Pending()), [])
        case Some(read) => reply == Some(read.reply) && Pending() == read.rest
        case None => reply == None
    {
      reply := Collect([]);
    }

    method Write(payload: string)
      modifies `sent
      ensures sent == old(sent) + [payload]
    {
      sent := sent + [payload];
    }

    method Command(line: string) returns (reply: Option<Reply>)
      modifies `buffer, `chunks, `sent
      ensures sent == old(sent) + [line + CRLF]
      ensures match ReadReply(old(Pending()), [])
        case Some(read) => reply == Some(read.reply) && Pending() == read.rest
        case None => reply == None
    {
      Write(line + CRLF);
      reply := Read();
    }

    /** Nothing said before TLS started is read after it. */
    method Upgrade()
      modifies `buffer, `chunks
      ensures Pending() == Joined(secured)
    {
      chunks := secured;
      buffer := "";
    }
  }

  lemma FoundInFront(front: string, back: string)
    requires FirstCrlf(front, 0).Some?
    ensures FirstCrlf(front + back, 0) == FirstCrlf(front, 0)
    ensures var at := FirstCrlf(front, 0).value;
      (front + back)[..at] == front[..at] && (front + back)[at + 2..] == front[at + 2..] + back
  {
    var at := FirstCrlf(front, 0).value;
    assert CrlfAt(front + back, at);
    forall i: nat | i < at
      ensures !CrlfAt(front + back, i)
    {
      assert !CrlfAt(front, i);
    }
  }

  /** Every reply of a conversation, one after the other. */
  function RenderedAll(codes: seq<string>, texts: seq<seq<string>>): string
    requires |codes| == |texts|
  {
    if codes == [] then "" else Rendered(codes[0], texts[0]) + RenderedAll(codes[1..], texts[1..])
  }

  ghost predicate WellRendered(codes: seq<string>, texts: seq<seq<string>>) {
    && |codes| == |texts|
    && (forall i :: 0 <= i < |codes| ==>
         && ThreeDigits(codes[i]) && texts[i] != []
         && forall k :: 0 <= k < |texts[i]| ==> OneLine(texts[i][k]))
  }

  function WrittenReply(code: string, texts: seq<string>): Reply
    requires ThreeDigits(code)
  {
    assert code == [code[0], code[1], code[2]];
    Reply(Some(Number(code)), RenderedLines(code, texts))
  }

  /** The replies as they were written. */
  function WrittenReplies(codes: seq<string>, texts: seq<seq<string>>): seq<Reply>
    requires |codes| == |texts| && forall i :: 0 <= i < |codes| ==> ThreeDigits(codes[i])
  {
    seq(|codes|, i requires 0 <= i < |codes| => WrittenReply(codes[i], texts[i]))
  }

  /** A whole conversation, cut into any chunks, reads back as the replies that were written. */
  method ReadAll(session: SmtpSession, codes: seq<string>, texts: seq<seq<string>>) returns (replies: seq<Reply>)
    requires WellRendered(codes, texts)
    requires session.Pending() == RenderedAll(codes, texts)
    modifies session
    ensures replies == WrittenReplies(codes, texts) && session.Pending() == ""
  {
    replies := [];
    var i := 0;
    while i < |codes|
      invariant 0 <= i <= |codes| && replies == WrittenReplies(codes, texts)[..i]
      invariant session.Pending() == RenderedAll(codes[i..], texts[i..])
    {
      FirstReplyReads(codes, texts, i);
      var reply := session.Read();
      replies := replies + [reply.value];
      i := i + 1;
    }
  }

  lemma FirstReplyReads(codes: seq<string>, texts: seq<seq<string>>, i: nat)
    requires WellRendered(codes, texts) && i < |codes|
    ensures ReadReply(RenderedAll(codes[i..], texts[i..]), [])
         == Some(Smtp.Read(Reply(Some(Number(codes[i])), RenderedLines(codes[i], texts[i])),
                           RenderedAll(codes[i + 1..], texts[i + 1..])))
  {
    assert codes[i..][1..] == codes[i + 1..] && texts[i..][1..] == texts[i + 1..];
    ReplyRoundTrip(codes[i], texts[i], [], RenderedAll(codes[i + 1..], texts[i + 1..]));
    assert [] + RenderedLines(codes[i], texts[i]) == RenderedLines(codes[i], texts[i]);
  }
}
