/**
 * `forward_email`: extract the plain-text body, wrap it in a new message
 * from the account to the configured recipients with the subject marked
 * `FWD: `, and submit it over SMTP. The SMTP session is reduced to whether
 * it went through.
 */
module Forwarder {
  import opened Wrappers
  import opened Text
  import opened Mime

  datatype Envelope = Envelope(sender: string, to: string, subject: string, body: string)

  /** Whether connecting, `EHLO`, `STARTTLS`, login and sending all succeeded. */
  datatype SmtpReply = Delivered | Refused

  /**
   * `ComposeFailed`: a field of the new message would span several lines,
   * which the message refuses with a `ValueError` when the field is set.
   */
  datatype Forwarding =
    | Forwarded(envelope: Envelope)
    | ExtractFailed
    | ComposeFailed(envelope: Envelope)
    | SendFailed(envelope: Envelope)

  /** The recipient list read from the `FORWARD_TO` setting: `value.split(',')`. */
  function Recipients(value: string): (r: seq<string>)
    ensures |r| >= 1
    ensures forall i :: 0 <= i < |r| ==> ',' !in r[i]
  {
    SplitAt(value, ',')
  }

  /** `f"{msg['Subject']}"`: the first `Subject` field, or the text `None` when the message has none. */
  function SubjectOf(m: Message): (r: string)
    ensures (forall i :: 0 <= i < |m.headers| ==> Lower(m.headers[i].0) != "subject") ==> r == "None"
    ensures (exists i :: 0 <= i < |m.headers| && Lower(m.headers[i].0) == "subject") ==>
              exists i :: 0 <= i < |m.headers| && Lower(m.headers[i].0) == "subject" && r == m.headers[i].1
                          && forall j :: 0 <= j < i ==> Lower(m.headers[j].0) != "subject"
  {
    LowerSubject();
    match GetHeader(m.headers, "Subject")
    case Some(v) => v
    case None => "None"
  }

  lemma LowerSubject()
    ensures Lower("Subject") == "subject"
  {
    var tail := "ubject";
    assert "Subject" == ['S'] + tail && "subject" == ['s'] + tail;
    assert ("Subject")[1..] == tail;
    LowerNoUpper(tail);
  }

  /** Every field of the envelope is a single line, as `EmailMessage` demands of a value it stores. */
  predicate Storable(e: Envelope)
  {
    LineCount(e.sender) <= 1 && LineCount(e.to) <= 1 && LineCount(e.subject) <= 1
  }

  function Compose(account: string, recipients: seq<string>, m: Message, body: string): (e: Envelope)
    ensures e.sender == account && e.body == body
    ensures |e.subject| >= 5 && e.subject[..5] == "FWD: " && e.subject[5..] == SubjectOf(m)
    ensures e.to == Join(recipients, ", ")
  {
    Envelope(account, Join(recipients, ", "), "FWD: " + SubjectOf(m), body)
  }

  /** What one call of `forward_email` does; every failure is caught and reported, so none escapes. */
  function ForwardOutcome(account: string, recipients: seq<string>, m: Message, codec: Codec, smtp: SmtpReply): (f: Forwarding)
    ensures f.ExtractFailed? <==> BodyText(m.body, codec).None?
    ensures !f.ExtractFailed? ==> f.envelope == Compose(account, recipients, m, BodyText(m.body, codec).value)
    ensures f.ComposeFailed? <==> !f.ExtractFailed? && !Storable(f.envelope)
    ensures f.Forwarded? <==> BodyText(m.body, codec).Some? && Storable(f.envelope) && smtp == Delivered
  {
    match BodyText(m.body, codec)
    case None => ExtractFailed
    case Some(body) =>
      var e := Compose(account, recipients, m, body);
      if !Storable(e) then ComposeFailed(e)
      else if smtp == Delivered then Forwarded(e) else SendFailed(e)
  }

  /** `forward_email` statement by statement; its outcome is `ForwardOutcome`. */
  method ForwardEmail(account: string, recipients: seq<string>, m: Message, codec: Codec, smtp: SmtpReply)
    returns (f: Forwarding)
    ensures f == ForwardOutcome(account, recipients, m, codec, smtp)
  {
    var body := ExtractBody(m.body, codec);
    if body.None? {
      return ExtractFailed;
    }
    var e := Compose(account, recipients, m, body.value);
    if !Storable(e) {
      return ComposeFailed(e);
    }
    if smtp == Delivered {
      f := Forwarded(e);
    } else {
      f := SendFailed(e);
    }
  }

  /** The `To` field is the `FORWARD_TO` setting with each comma followed by a space. */
  lemma {:induction false} ToFromSetting(value: string)
    ensures Join(Recipients(value), ", ") == Replace(value, ',', ", ")
  {
    JoinSplit(value, ',', ", ");
  }

  /** A list of addresses without commas, written as `FORWARD_TO=a,b,...`, is read back unchanged. */
  lemma {:induction false} SettingRoundTrip(addresses: seq<string>)
    requires |addresses| >= 1
    requires forall i :: 0 <= i < |addresses| ==> ',' !in addresses[i]
    ensures Recipients(Join(addresses, ",")) == addresses
  {
    SplitJoin(addresses, ',');
  }

  /** Two recipients and the subject "Hello" give `To: a@x.com, b@x.com` and `Subject: FWD: Hello`. */
  lemma TwoRecipients(account: string, body: string, m: Message)
    requires m.headers == [("Subject", "Hello")]
    ensures var e := Compose(account, ["a@x.com", "b@x.com"], m, body);
            e.to == "a@x.com, b@x.com" && e.subject == "FWD: Hello"
  {
  }

  /** A message without a `Subject` field is forwarded with the subject `FWD: None`. */
  lemma MissingSubject(account: string, recipients: seq<string>, body: string, m: Message)
    requires forall i :: 0 <= i < |m.headers| ==> Lower(m.headers[i].0) != "subject"
    ensures Compose(account, recipients, m, body).subject == "FWD: None"
  {
  }

  /**
   * A subject folded over two lines keeps its line break, so the forward
   * is refused while it is being composed and nothing is sent.
   */
  lemma FoldedSubjectNotSent(account: string, recipients: seq<string>, m: Message, codec: Codec, smtp: SmtpReply)
    requires m.headers == [("Subject", "Long" + "\r\n" + " subject")]
    requires BodyText(m.body, codec).Some?
    ensures ForwardOutcome(account, recipients, m, codec, smtp).ComposeFailed?
  {
    var subject := "FWD: " + ("Long" + "\r\n" + " subject");
    assert Compose(account, recipients, m, BodyText(m.body, codec).value).subject == subject;
    assert subject == "FWD: Long" + "\r\n" + " subject";
    LineCountCrlf("FWD: Long", " subject");
    assert LineCount(" subject") > 0;
  }

  /** A subject that ends in one line ending is still a single line and does not stop the forward. */
  lemma TrailingNewlineSent(account: string, recipients: seq<string>, m: Message, codec: Codec, text: string)
    requires NoBreak(account) && NoBreak(Join(recipients, ", "))
    requires m.headers == [("Subject", "Hello" + "\n")]
    requires BodyText(m.body, codec) == Some(text)
    ensures ForwardOutcome(account, recipients, m, codec, Delivered).Forwarded?
  {
    var line := "FWD: Hello";
    assert GetHeader(m.headers, "Subject") == Some("Hello" + "\n") by {
      LowerSubject();
    }
    assert SubjectOf(m) == "Hello" + "\n";
    assert "FWD: " + ("Hello" + "\n") == line + "\n";
    PrintableNoBreak(line);
    SingleLineEnvelope(account, recipients, line, "\n");
    assert Storable(Compose(account, recipients, m, text));
  }

  /** An envelope whose sender, recipients and subject line carry no line break but an optional final one is storable. */
  lemma SingleLineEnvelope(account: string, recipients: seq<string>, line: string, end: string)
    requires NoBreak(account) && NoBreak(Join(recipients, ", "))
    requires line != [] && NoBreak(line)
    requires end == [] || (|end| == 1 && IsLineBreak(end[0])) || end == "\r\n"
    ensures forall body :: Storable(Envelope(account, Join(recipients, ", "), line + end, body))
  {
    OneLine(line, end);
    OneLineOrEmpty(account);
    OneLineOrEmpty(Join(recipients, ", "));
  }

  lemma OneLineOrEmpty(s: string)
    requires NoBreak(s)
    ensures LineCount(s) <= 1
  {
    if s != [] {
      OneLine(s, []);
    }
  }
}
