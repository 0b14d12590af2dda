/** Sending one message over SMTP: what is asked, in which order, and what a success means. */
module SmtpDelivery {
  import opened Common
  import opened Crlf
  import opened Smtp
  import opened SmtpSession
  import opened Text
  import Base64

  /** What a reply must say for the conversation to go on. */
  datatype Need = Exactly(code: int) | BelowFailure | Anything

  /** A payload to write and what its reply must say. */
  datatype Ask = Ask(payload: string, need: Need)

  datatype Settings = Settings(username: string, plainToken: string, userToken: string, passwordToken: string,
                               starttls: bool, ehloName: string)

  datatype Message = Message(from: string, recipients: seq<string>, raw: string)

  /** A reply without a number is neither below nor above a limit, so it does not count as a failure. */
  predicate Met(need: Need, reply: Reply) {
    match need
    case Exactly(code) => reply.code == Some(code)
    case BelowFailure => reply.code.None? || reply.code.value < 400
    case Anything => true
  }

  /** What was written, the replies read, whether every need was met, and what is left of the stream. */
  datatype Talked = Talked(sent: seq<string>, heard: seq<Reply>, done: bool, rest: string)

  /** Asks one thing after another until a reply is missing or not what is needed. */
  function Talk(stream: string, asks: seq<Ask>): Talked
    decreases |asks|
  {
    if asks == [] then Talked([], [], true, stream)
    else
      var read := ReadReply(stream, []);
      if read.None? then Talked([asks[0].payload], [], false, stream)
      else if !Met(asks[0].need, read.value.reply) then
        Talked([asks[0].payload], [read.value.reply], false, read.value.rest)
      else
        var more := Talk(read.value.rest, asks[1..]);
        Talked([asks[0].payload] + more.sent, [read.value.reply] + more.heard, more.done, more.rest)
  }

  // ---------------------------------------------------------------- the script

  predicate LineSupports(line: string, mechanism: string) {
    |line| >= 4 && StartsWith(Upper(line[4..]), "AUTH") && Contains(Upper(line), mechanism)
  }

  predicate Supports(reply: Reply, mechanism: string) {
    exists i :: 0 <= i < |reply.lines| && LineSupports(reply.lines[i], mechanism)
  }

  function Command(line: string, need: Need): Ask {
    Ask(line + CRLF, need)
  }

  function Hello(s: Settings): seq<Ask> {
    [Command("EHLO " + s.ehloName, Exactly(250))]
  }

  function AuthAsks(s: Settings, greeting: Reply): seq<Ask> {
    if s.username == "" then []
    else if Supports(greeting, "LOGIN") && !Supports(greeting, "PLAIN") then
      [Command("AUTH LOGIN", Exactly(334)), Command(s.userToken, Exactly(334)), Command(s.passwordToken, Exactly(235))]
    else [Command("AUTH PLAIN " + s.plainToken, Exactly(235))]
  }

  function RecipientAsks(recipients: seq<string>): seq<Ask> {
    seq(|recipients|, i requires 0 <= i < |recipients| => Command("RCPT TO:<" + recipients[i] + ">", BelowFailure))
  }

  function EnvelopeAsks(m: Message): seq<Ask> {
    [Command("MAIL FROM:<" + m.from + ">", BelowFailure)] + RecipientAsks(m.recipients)
  }

  function DataAsks(m: Message): seq<Ask> {
    [Command("DATA", Exactly(354)), Ask(Transmitted(m.raw), Exactly(250))]
  }

  /** Everything after the greetings, up to the server taking the message. */
  function MailAsks(s: Settings, greeting: Reply, m: Message): seq<Ask> {
    AuthAsks(s, greeting) + (EnvelopeAsks(m) + DataAsks(m))
  }

  const QUIT: Ask := Command("QUIT", Anything)

  // ---------------------------------------------------------------- how conversations compose

  function Then(first: Talked, more: Talked): Talked {
    if !first.done then first
    else Talked(first.sent + more.sent, first.heard + more.heard, more.done, more.rest)
  }

  /** One script after another is the same as both in one, as long as the first gets through. */
  lemma {:induction false} TalkJoins(stream: string, a: seq<Ask>, b: seq<Ask>)
    ensures Talk(stream, a + b) == Then(Talk(stream, a), Talk(Talk(stream, a).rest, b))
    decreases |a|
  {
    if a == [] {
      assert a + b == b;
      var more := Talk(stream, b);
      assert [] + more.sent == more.sent && [] + more.heard == more.heard;
    } else {
      assert (a + b)[0] == a[0] && (a + b)[1..] == a[1..] + b;
      var read := ReadReply(stream, []);
      if read.Some? && Met(a[0].need, read.value.reply) {
        TalkJoins(read.value.rest, a[1..], b);
        var first := Talk(read.value.rest, a[1..]);
        ThenPrepends(a[0].payload, read.value.reply, first, Talk(first.rest, b));
      }
    }
  }

  lemma ThenPrepends(payload: string, reply: Reply, first: Talked, more: Talked)
    ensures Then(Talked([payload] + first.sent, [reply] + first.heard, first.done, first.rest), more)
         == var t := Then(first, more); Talked([payload] + t.sent, [reply] + t.heard, t.done, t.rest)
  {
    assert [payload] + first.sent + more.sent == [payload] + (first.sent + more.sent);
    assert [reply] + first.heard + more.heard == [reply] + (first.heard + more.heard);
  }

  /** Payloads go out in script order, and each only after every need before it was met. */
  lemma {:induction false} TalkInOrder(stream: string, asks: seq<Ask>)
    ensures var t := Talk(stream, asks);
      && |t.heard| <= |t.sent| <= |asks| && |t.sent| <= |t.heard| + 1
      && (forall i :: 0 <= i < |t.sent| ==> t.sent[i] == asks[i].payload)
      && (forall i :: 0 <= i < |t.sent| - 1 ==> Met(asks[i].need, t.heard[i]))
    ensures var t := Talk(stream, asks);
      t.done <==> |t.heard| == |asks| && forall i :: 0 <= i < |asks| ==> Met(asks[i].need, t.heard[i])
    decreases |asks|
  {
    if asks != [] {
      var read := ReadReply(stream, []);
      if read.Some? && Met(asks[0].need, read.value.reply) {
        TalkInOrder(read.value.rest, asks[1..]);
        var t, more := Talk(stream, asks), Talk(read.value.rest, asks[1..]);
        assert forall i :: 0 < i < |t.sent| ==> t.sent[i] == more.sent[i - 1] && asks[i] == asks[1..][i - 1];
        assert forall i :: 0 < i < |t.heard| ==> t.heard[i] == more.heard[i - 1];
        assert forall i :: 0 < i < |asks| ==> asks[i] == asks[1..][i - 1];
      }
    }
  }

  // ---------------------------------------------------------------- the client

  /** The greeting that lists what the server supports, and the stream after it. */
  datatype Opened = Opened(greeting: Reply, rest: string)

  function Start(stream: string): Option<string> {
    var greeting := ReadReply(stream, []);
    if greeting.None? || greeting.value.reply.code != Some(220) then None else Some(greeting.value.rest)
  }

  function Greet(stream: string, s: Settings): Option<Opened> {
    var t := Talk(stream, Hello(s));
    if t.done && |t.heard| == 1 then Some(Opened(t.heard[0], t.rest)) else None
  }

  /** With STARTTLS the second greeting comes from the secured stream alone. */
  function Open(stream: string, secured: string, s: Settings): Option<Opened> {
    var started := Start(stream);
    if started.None? then None
    else
      var first := Greet(started.value, s);
      if first.None? || !s.starttls then first
      else if Talk(first.value.rest, [Command("STARTTLS", Exactly(220))]).done then Greet(secured, s)
      else None
  }

  /** Writes one command; whether its reply was what is needed. */
  method Say(session: SmtpSession, ask: Ask) returns (reply: Option<Reply>, met: bool)
    modifies session
    ensures session.secured == old(session.secured)
    ensures var t := Talk(old(session.Pending()), [ask]);
      && session.sent == old(session.sent) + t.sent && met == t.done
      && (met ==> session.Pending() == t.rest && reply == Some(t.heard[0]) && |t.heard| == 1)
  {
    ghost var stream := session.Pending();
    session.Write(ask.payload);
    reply := session.Read();
    met := reply.Some? && Met(ask.need, reply.value);
    ghost var read := ReadReply(stream, []);
    assert Talk(stream, [ask]).sent == [ask.payload];
    assert read.Some? ==> Talk(read.value.rest, [ask][1..]) == Talked([], [], true, read.value.rest);
  }

  method StartSession(session: SmtpSession, s: Settings) returns (greeting: Option<Reply>)
    modifies session
    ensures match Open(old(session.Pending()), Joined(old(session.secured)), s)
      case Some(begun) => greeting == Some(begun.greeting) && session.Pending() == begun.rest
      case None => greeting == None
  {
    greeting := session.Read();
    if greeting.None? || greeting.value.code != Some(220) {
      return None;
    }
    var met;
    greeting, met := Say(session, Hello(s)[0]);
    if !met {
      return None;
    }
    if s.starttls {
      var _, upgraded := Say(session, Command("STARTTLS", Exactly(220)));
      if !upgraded {
        return None;
      }
      session.Upgrade();
      greeting, met := Say(session, Hello(s)[0]);
      if !met {
        return None;
      }
    }
  }

  /** Goes through a script; the source spells out each of these calls and maps each refusal to its own error. */
  method Follow(session: SmtpSession, asks: seq<Ask>) returns (done: bool)
    modifies session
    ensures var t := Talk(old(session.Pending()), asks);
      session.sent == old(session.sent) + t.sent && done == t.done && (done ==> session.Pending() == t.rest)
    decreases |asks|
  {
    if asks == [] {
      assert session.sent + [] == session.sent;
      return true;
    }
    ghost var stream := session.Pending();
    var _, met := Say(session, asks[0]);
    assert [asks[0]] + asks[1..] == asks;
    TalkJoins(stream, [asks[0]], asks[1..]);
    if !met {
      return false;
    }
    ghost var sent := session.sent;
    done := Follow(session, asks[1..]);
  }

  ghost predicate EndsWith(all: seq<string>, end: seq<string>) {
    |end| <= |all| && all[|all| - |end|..] == end
  }

  /** Whether the source returns a message id; accepted tells whether the server took the message. */
  method Deliver(session: SmtpSession, s: Settings, m: Message) returns (returned: bool, ghost accepted: bool)
    modifies session
    ensures var begun := Open(old(session.Pending()), Joined(old(session.secured)), s);
      && accepted == (begun.Some? && Talk(begun.value.rest, MailAsks(s, begun.value.greeting, m)).done)
      && returned == (begun.Some? && Talk(begun.value.rest, MailAsks(s, begun.value.greeting, m) + [QUIT]).done)
    ensures var begun := Open(old(session.Pending()), Joined(old(session.secured)), s);
      begun.Some? ==> EndsWith(session.sent, Talk(begun.value.rest, MailAsks(s, begun.value.greeting, m) + [QUIT]).sent)
  {
    accepted := false;
    var greeting := StartSession(session, s);
    if greeting.None? {
      return false, false;
    }
    ghost var stream := session.Pending();
    var asks := MailAsks(s, greeting.value, m);
    TalkJoins(stream, asks, [QUIT]);
    var done := Follow(session, asks);
    if !done {
      return false, false;
    }
    accepted := true;
    var _, met := Say(session, QUIT);
    returned := met;
  }

  // ---------------------------------------------------------------- what a delivery means

  ghost predicate Accepted(stream: string, s: Settings, greeting: Reply, m: Message) {
    Talk(stream, MailAsks(s, greeting, m)).done
  }

  ghost predicate Returned(stream: string, s: Settings, greeting: Reply, m: Message) {
    Talk(stream, MailAsks(s, greeting, m) + [QUIT]).done
  }

  /** An accepted message is reported as sent exactly when the server goes on to answer QUIT. */
  lemma ReturnedExactly(stream: string, s: Settings, greeting: Reply, m: Message)
    ensures Returned(stream, s, greeting, m) <==>
      Accepted(stream, s, greeting, m) && ReadReply(Talk(stream, MailAsks(s, greeting, m)).rest, []).Some?
  {
    var asks := MailAsks(s, greeting, m);
    TalkJoins(stream, asks, [QUIT]);
    var rest := Talk(stream, asks).rest;
    var read := ReadReply(rest, []);
    assert [QUIT][1..] == [];
    assert Talk(rest, [QUIT]).done == read.Some?;
  }

  /** So a server that takes the message and hangs up makes an accepted message a failed one. */
  lemma AcceptedThenClosed(stream: string, s: Settings, greeting: Reply, m: Message)
    requires Accepted(stream, s, greeting, m) && FirstCrlf(Talk(stream, MailAsks(s, greeting, m)).rest, 0).None?
    ensures !Returned(stream, s, greeting, m)
  {
    ReturnedExactly(stream, s, greeting, m);
  }

  /** The text goes out only after the sender and each recipient, in order, were not refused and DATA got a 354. */
  lemma TextOnlyAfterEveryRecipient(stream: string, s: Settings, greeting: Reply, m: Message, i: nat)
    requires |Talk(stream, MailAsks(s, greeting, m)).sent| == |MailAsks(s, greeting, m)| && i < |m.recipients|
    ensures var t, at := Talk(stream, MailAsks(s, greeting, m)), |AuthAsks(s, greeting)|;
      && t.sent[|t.sent| - 1] == Transmitted(m.raw)
      && at + |m.recipients| + 1 < |t.heard|
      && t.sent[at + 1 + i] == "RCPT TO:<" + m.recipients[i] + ">" + CRLF
      && Met(BelowFailure, t.heard[at]) && Met(BelowFailure, t.heard[at + 1 + i])
      && t.heard[at + 1 + |m.recipients|].code == Some(354)
  {
    TalkInOrder(stream, MailAsks(s, greeting, m));
    var asks, at := MailAsks(s, greeting, m), |AuthAsks(s, greeting)|;
    AskPlaces(s, greeting, m, i);
    assert Met(asks[at].need, Talk(stream, asks).heard[at]);
    assert Met(asks[at + 1 + i].need, Talk(stream, asks).heard[at + 1 + i]);
    assert Met(asks[at + 1 + |m.recipients|].need, Talk(stream, asks).heard[at + 1 + |m.recipients|]);
  }

  lemma AskPlaces(s: Settings, greeting: Reply, m: Message, i: nat)
    requires i < |m.recipients|
    ensures var asks, at := MailAsks(s, greeting, m), |AuthAsks(s, greeting)|;
      && |asks| == at + |m.recipients| + 3
      && asks[at].need == BelowFailure && asks[at + 1 + i] == RecipientAsks(m.recipients)[i]
      && asks[at + 1 + |m.recipients|] == Command("DATA", Exactly(354))
      && asks[|asks| - 1] == Ask(Transmitted(m.raw), Exactly(250))
  {
    var mail := EnvelopeAsks(m) + DataAsks(m);
    assert mail[0] == EnvelopeAsks(m)[0] && mail[1 + i] == RecipientAsks(m.recipients)[i];
    assert mail[|m.recipients| + 1] == DataAsks(m)[0] && mail[|m.recipients| + 2] == DataAsks(m)[1];
  }

  // ---------------------------------------------------------------- a server that takes the mail and hangs up

  function AnswerCode(need: Need): string {
    match need
    case Exactly(220) => "220"
    case Exactly(235) => "235"
    case Exactly(334) => "334"
    case Exactly(354) => "354"
    case _ => "250"
  }

  /** A one-line reply that meets a need. */
  function Answer(need: Need): string {
    Rendered(AnswerCode(need), [""])
  }

  function Answers(asks: seq<Ask>): string {
    if asks == [] then "" else Answer(asks[0].need) + Answers(asks[1..])
  }

  predicate Answerable(need: Need) {
    need.Exactly? ==> need.code in {220, 235, 250, 334, 354}
  }

  lemma Numbers()
    ensures Number("220") == 220 && Number("235") == 235 && Number("250") == 250
    ensures Number("334") == 334 && Number("354") == 354
  {
    NumberOf("220");
    NumberOf("235");
    NumberOf("250");
    NumberOf("334");
    NumberOf("354");
  }

  lemma NumberOf(code: string)
    requires ThreeDigits(code)
    ensures Number(code)
         == (code[0] as int - '0' as int) * 100 + (code[1] as int - '0' as int) * 10 + (code[2] as int - '0' as int)
  {
    var two, one := code[..2], code[..1];
    assert two[..1] == one && one[..0] == [];
    assert Number(one) == one[0] as int - '0' as int;
    assert Number(two) == Number(one) * 10 + (two[1] as int - '0' as int);
  }

  lemma AnswerMeets(need: Need, rest: string)
    requires Answerable(need)
    ensures var read := ReadReply(Answer(need) + rest, []);
      read.Some? && Met(need, read.value.reply) && read.value.rest == rest
  {
    Numbers();
    assert OneLine("");
    ReplyRoundTrip(AnswerCode(need), [""], [], rest);
  }

  lemma {:induction false} AnswersGetThrough(asks: seq<Ask>, rest: string)
    requires forall i :: 0 <= i < |asks| ==> Answerable(asks[i].need)
    ensures Talk(Answers(asks) + rest, asks).done && Talk(Answers(asks) + rest, asks).rest == rest
    decreases |asks|
  {
    if asks == [] {
      assert Answers(asks) + rest == rest;
    } else {
      assert Answers(asks) + rest == Answer(asks[0].need) + (Answers(asks[1..]) + rest);
      AnswerMeets(asks[0].need, Answers(asks[1..]) + rest);
      AnswersGetThrough(asks[1..], rest);
    }
  }

  /** For every message there is a server that accepts it, says nothing more, and so has it reported as failed. */
  lemma AcceptedReportedFailed(s: Settings, greeting: Reply, m: Message)
    ensures exists stream :: Accepted(stream, s, greeting, m) && !Returned(stream, s, greeting, m)
  {
    var asks := MailAsks(s, greeting, m);
    AsksAnswerable(s, greeting, m);
    var stream := Answers(asks) + "";
    AnswersGetThrough(asks, "");
    assert FirstCrlf("", 0).None?;
    AcceptedThenClosed(stream, s, greeting, m);
  }

  lemma AsksAnswerable(s: Settings, greeting: Reply, m: Message)
    ensures forall i :: 0 <= i < |MailAsks(s, greeting, m)| ==> Answerable(MailAsks(s, greeting, m)[i].need)
  {
    assert forall i :: 0 <= i < |AuthAsks(s, greeting)| ==> Answerable(AuthAsks(s, greeting)[i].need);
    assert forall i :: 0 <= i < |EnvelopeAsks(m)| ==> Answerable(EnvelopeAsks(m)[i].need);
    assert forall i :: 0 <= i < |DataAsks(m)| ==> Answerable(DataAsks(m)[i].need);
  }
}
