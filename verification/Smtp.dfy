/** What goes over an SMTP connection, and how each end reads it. */
module Smtp {
  import opened Common
  import opened Crlf
  import opened Text

  // ---------------------------------------------------------------- the body of a message

  /** Every dot after a CRLF is doubled. */
  function DoubleDots(raw: string): string {
    if raw == [] then []
    else if |raw| >= 3 && CrlfAt(raw, 0) && raw[2] == '.' then CRLF + ".." + DoubleDots(raw[3..])
    else [raw[0]] + DoubleDots(raw[1..])
  }

  function DotStuff(raw: string): string {
    if raw != [] && raw[0] == '.' then "." + DoubleDots(raw) else DoubleDots(raw)
  }

  function Transmitted(raw: string): string {
    DotStuff(raw) + CRLF + "." + CRLF
  }

  datatype Mail = Mail(text: string, rest: string)

  /** Section 4.5.2 of RFC 5321: a lone dot ends the mail, a leading dot is dropped from any other line. */
  function ReceiveMail(stream: string): Option<Mail>
    decreases |stream|
  {
    var end := FirstCrlf(stream, 0);
    if end.None? then None
    else
      var line, rest := stream[..end.value], stream[end.value + 2..];
      if line == "." then Some(Mail("", rest))
      else
        var more := ReceiveMail(rest);
        var text := if line != [] && line[0] == '.' then line[1..] else line;
        if more.None? then None else Some(Mail(text + CRLF + more.value.text, more.value.rest))
  }

  lemma {:induction false} OneLineUnchanged(raw: string)
    requires OneLine(raw)
    ensures DoubleDots(raw) == raw
  {
    if raw != [] {
      assert !CrlfAt(raw, 0);
      assert forall i: nat :: CrlfAt(raw[1..], i) ==> CrlfAt(raw, i + 1);
      OneLineUnchanged(raw[1..]);
    }
  }

  /** A line as it is sent. */
  function Stuffed(line: string): string {
    if line != [] && line[0] == '.' then "." + line else line
  }

  lemma EmptyLineDoubles(rest: string)
    ensures DoubleDots(Line("", rest)) == Line("", DotStuff(rest))
  {
    var raw := Line("", rest);
    assert raw[0] == '\r' && raw[1] == '\n' && raw[1..][1..] == rest;
    if rest != [] && rest[0] == '.' {
      assert raw[3..] == rest[1..];
      assert DoubleDots(rest) == "." + DoubleDots(rest[1..]);
    } else {
      assert DoubleDots(raw[1..]) == "\n" + DoubleDots(rest);
    }
  }

  /** Dots are doubled line by line. */
  lemma {:induction false} DoublesByLine(line: string, rest: string)
    requires OneLine(line)
    ensures DoubleDots(Line(line, rest)) == Line(line, DotStuff(rest))
    decreases |line|
  {
    if line == [] {
      EmptyLineDoubles(rest);
    } else {
      TailOneLine(line);
      LineStep(line, rest);
      DoublesByLine(line[1..], rest);
      LineStep(line, DotStuff(rest));
    }
  }

  lemma StuffsByLine(line: string, rest: string)
    requires OneLine(line)
    ensures DotStuff(Line(line, rest)) == Line(Stuffed(line), DotStuff(rest))
  {
    DoublesByLine(line, rest);
    assert Line(line, rest)[0] == if line == [] then '\r' else line[0];
    assert "." + Line(line, DotStuff(rest)) == Line("." + line, DotStuff(rest));
  }

  /** One stuffed line and what follows it: the receiver takes the line back and goes on. */
  lemma ReceivesLine(line: string, rest: string)
    requires OneLine(line) && ReceiveMail(rest).Some?
    ensures ReceiveMail(Line(Stuffed(line), rest))
         == Some(Mail(Line(line, ReceiveMail(rest).value.text), ReceiveMail(rest).value.rest))
  {
    var sent := Stuffed(line);
    forall i: nat
      ensures !CrlfAt(sent, i)
    {
      assert sent != line && i > 0 ==> (CrlfAt(sent, i) <==> CrlfAt(line, i - 1));
    }
    LineFirst(sent, rest);
    assert sent != line ==> sent[1..] == line;
  }

  lemma ReceivesEnd(rest: string)
    ensures ReceiveMail(Line(".", rest)) == Some(Mail("", rest))
  {
    LineFirst(".", rest);
  }

  /** Stuffed text, then the terminator, then whatever comes after. */
  lemma {:induction false} StuffedReceived(raw: string, after: string)
    ensures ReceiveMail(Line(DotStuff(raw), Line(".", after))) == Some(Mail(Line(raw, ""), after))
    decreases |raw|
  {
    ReceivesEnd(after);
    if FirstCrlf(raw, 0).None? {
      OneLineUnchanged(raw);
      ReceivesLine(raw, Line(".", after));
    } else {
      FirstLine(raw);
      var line, rest := raw[..FirstCrlf(raw, 0).value], raw[FirstCrlf(raw, 0).value + 2..];
      StuffsByLine(line, rest);
      StuffedReceived(rest, after);
      ReceivesLine(line, Line(DotStuff(rest), Line(".", after)));
      LineNests(Stuffed(line), DotStuff(rest), Line(".", after));
      LineNests(line, rest, "");
    }
  }

  /** Whatever the text, the receiver finds the end where it was put and takes back the text and one CRLF. */
  lemma MailRoundTrip(raw: string, after: string)
    ensures ReceiveMail(Transmitted(raw) + after) == Some(Mail(raw + CRLF, after))
  {
    StuffedReceived(raw, after);
    assert Transmitted(raw) + after == Line(DotStuff(raw), Line(".", after));
    assert Line(raw, "") == raw + CRLF;
  }

  // ---------------------------------------------------------------- replies

  /** code is None when the line does not start with a number. */
  datatype Reply = Reply(code: Option<int>, lines: seq<string>)

  datatype Read = Read(reply: Reply, rest: string)

  predicate Digit(c: char) {
    '0' <= c <= '9'
  }

  function Digits(s: string): nat {
    if s == [] || !Digit(s[0]) then 0 else 1 + Digits(s[1..])
  }

  function Number(s: string): nat
    requires forall i :: 0 <= i < |s| ==> Digit(s[i])
  {
    if s == [] then 0
    else
      var last := s[|s| - 1];
      assert Digit(last);
      Number(s[..|s| - 1]) * 10 + (last as int - '0' as int)
  }

  lemma {:induction false} DigitsPrefix(s: string)
    ensures Digits(s) <= |s| && forall i :: 0 <= i < Digits(s) ==> Digit(s[i])
  {
    if s != [] && Digit(s[0]) {
      DigitsPrefix(s[1..]);
      assert forall i :: 0 < i < Digits(s) ==> s[i] == s[1..][i - 1];
    }
  }

  /** Leading blanks, a sign, and as many digits as there are. */
  function ParseInt(s: string): Option<int> {
    if s == [] then None
    else if IsSpace(s[0]) then ParseInt(s[1..])
    else
      var signed := s[0] == '-' || s[0] == '+';
      var digits := if signed then s[1..] else s;
      var n := Digits(digits);
      DigitsPrefix(digits);
      if n == 0 then None
      else Some(if s[0] == '-' then -(Number(digits[..n]) as int) else Number(digits[..n]))
  }

  predicate Continued(line: string) {
    |line| > 3 && line[3] == '-'
  }

  function Code(line: string): Option<int> {
    ParseInt(if |line| < 3 then line else line[..3])
  }

  /** Lines up to the first one that is not continued; None when the stream ends before. */
  function ReadReply(stream: string, lines: seq<string>): Option<Read>
    decreases |stream|
  {
    var end := FirstCrlf(stream, 0);
    if end.None? then None
    else
      var line, rest := stream[..end.value], stream[end.value + 2..];
      if Continued(line) then ReadReply(rest, lines + [line])
      else Some(Read(Reply(Code(line), lines + [line]), rest))
  }

  /** A line of a multi-line reply: code, a hyphen or on the last line a space, text. */
  function ReplyLine(code: string, text: string, last: bool): string {
    code + (if last then " " else "-") + text
  }

  /** Section 4.2.1 of RFC 5321: every line but the last carries a hyphen after the code. */
  function Rendered(code: string, texts: seq<string>): string {
    if texts == [] then ""
    else ReplyLine(code, texts[0], |texts| == 1) + CRLF + Rendered(code, texts[1..])
  }

  function RenderedLines(code: string, texts: seq<string>): seq<string> {
    seq(|texts|, i requires 0 <= i < |texts| => ReplyLine(code, texts[i], i == |texts| - 1))
  }

  ghost predicate ThreeDigits(code: string) {
    |code| == 3 && Digit(code[0]) && Digit(code[1]) && Digit(code[2])
  }

  lemma ReplyLineReads(code: string, text: string, last: bool)
    requires ThreeDigits(code) && OneLine(text)
    ensures OneLine(ReplyLine(code, text, last)) && Continued(ReplyLine(code, text, last)) == !last
    ensures Code(ReplyLine(code, text, last)) == Some(Number(code))
  {
    var line := ReplyLine(code, text, last);
    assert line[..3] == code;
    assert code[1..][0] == code[1] && code[1..][1..][0] == code[2];
    assert Digits(code[1..][1..][1..]) == 0 && Digits(code[1..][1..]) == 1 && Digits(code) == 3;
    forall i: nat
      ensures !CrlfAt(line, i)
    {
      assert i >= 4 && CrlfAt(line, i) ==> CrlfAt(text, i - 4);
    }
    assert code[..3] == code;
  }

  lemma RenderedStep(code: string, texts: seq<string>, before: seq<string>, rest: string)
    requires texts != []
    ensures var line := ReplyLine(code, texts[0], |texts| == 1);
      && Rendered(code, texts) + rest == Line(line, Rendered(code, texts[1..]) + rest)
      && before + [line] + RenderedLines(code, texts[1..]) == before + RenderedLines(code, texts)
  {
    var line, lines := ReplyLine(code, texts[0], |texts| == 1), RenderedLines(code, texts);
    assert RenderedLines(code, texts[1..]) == lines[1..];
    assert lines[0] == line;
  }

  /** A reply written line by line reads back whole, whatever follows it. */
  lemma {:induction false} ReplyRoundTrip(code: string, texts: seq<string>, before: seq<string>, rest: string)
    requires ThreeDigits(code) && texts != [] && forall i :: 0 <= i < |texts| ==> OneLine(texts[i])
    ensures ReadReply(Rendered(code, texts) + rest, before)
         == Some(Read(Reply(Some(Number(code)), before + RenderedLines(code, texts)), rest))
    decreases |texts|
  {
    var line, more := ReplyLine(code, texts[0], |texts| == 1), Rendered(code, texts[1..]) + rest;
    ReplyLineReads(code, texts[0], |texts| == 1);
    RenderedStep(code, texts, before, rest);
    LineFirst(line, more);
    if |texts| == 1 {
      assert more == rest;
      assert before + [line] + RenderedLines(code, texts[1..]) == before + [line];
    } else {
      ReplyRoundTrip(code, texts[1..], before + [line], rest);
    }
  }
}
