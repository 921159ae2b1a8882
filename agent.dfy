/**
 * The driver: `on_check` (check, then forward only what was found), the
 * choice between `--test-login`, `--watch N` and a single check, and the
 * watch loop that alternates a check and a sleep until Ctrl+C.
 *
 * What the servers do is given per cycle as a `World`; Ctrl+C is taken to
 * arrive during the sleep after the last given cycle.
 */
module Agent {
  import opened Wrappers
  import opened Text
  import opened Mime
  import opened Criteria
  import opened Locator
  import opened Forwarder

  /** The settings read at start-up: the account (`EMAIL_USERNAME`) and the `FORWARD_TO` text. */
  datatype Config = Config(account: string, forwardTo: string)
  {
    /** The recipient list, `FORWARD_TO.split(',')`. */
    function Recipients(): (r: seq<string>)
      ensures |r| >= 1
    {
      Forwarder.Recipients(forwardTo)
    }
  }

  /** What the IMAP and SMTP servers do during one cycle. */
  datatype World = World(session: Session, smtp: SmtpReply)

  /** One `on_check`: the lookup, and the forward attempt when one was made. */
  datatype Cycle = Cycle(lookup: Lookup, forwarding: Option<Forwarding>)

  /** `on_check` forwards when `check_email` returned a message that is true in Python's sense. */
  predicate Forwards(criteria: Option<string>, w: World)
  {
    var r := CheckEmail(criteria, w.session).result;
    r.Found? && TruthyMessage(r.message)
  }

  function CycleOf(criteria: Option<string>, cfg: Config, w: World, codec: Codec): (c: Cycle)
    ensures c.lookup == CheckEmail(criteria, w.session)
    ensures c.forwarding.Some? <==> Forwards(criteria, w)
    ensures c.forwarding.Some? ==>
              c.forwarding.value == ForwardOutcome(cfg.account, cfg.Recipients(), c.lookup.result.message, codec, w.smtp)
  {
    var lookup := CheckEmail(criteria, w.session);
    match Returned(lookup)
    case Some(m) =>
      if TruthyMessage(m) then Cycle(lookup, Some(ForwardOutcome(cfg.account, cfg.Recipients(), m, codec, w.smtp)))
      else Cycle(lookup, None)
    case None => Cycle(lookup, None)
  }

  /** `on_check` statement by statement; its outcome is `CycleOf`. */
  method OnCheck(criteria: Option<string>, cfg: Config, w: World, codec: Codec) returns (c: Cycle)
    ensures c == CycleOf(criteria, cfg, w, codec)
  {
    var lookup := CheckEmail(criteria, w.session);
    var found := Returned(lookup);
    if found.Some? && TruthyMessage(found.value) {
      var f := ForwardEmail(cfg.account, cfg.Recipients(), found.value, codec, w.smtp);
      c := Cycle(lookup, Some(f));
    } else {
      c := Cycle(lookup, None);
    }
  }

  // ---------------------------------------------------------------------
  // Modes

  /** The parsed command line; `watch` is `--watch SECONDS` when given. */
  datatype Args = Args(testLogin: bool, subject: Option<string>, sender: Option<string>, unseen: bool, watch: Option<int>)

  datatype Mode = TestLogin | Watch(seconds: int) | Once

  function ModeOf(a: Args): (m: Mode)
    ensures m.TestLogin? <==> a.testLogin
    ensures m.Watch? <==> !a.testLogin && a.watch.Some? && a.watch.value != 0
    ensures m.Watch? ==> m.seconds == a.watch.value
  {
    if a.testLogin then TestLogin
    else if a.watch.Some? && a.watch.value != 0 then Watch(a.watch.value)
    else Once
  }

  /**
   * The outcome of `test_login`'s login attempt. `Unreachable` when
   * connecting or logging in raised something other than `IMAP4.error`
   * (a refused connection, a password outside ASCII), which nothing catches.
   */
  datatype LoginReply = LoginOk | LoginRejected | Unreachable

  datatype Event = LoginTested(accepted: bool) | Checked(cycle: Cycle) | Slept(seconds: int)

  /** `Stopped` is a clean exit; `Crashed` an exception nothing catches. */
  datatype Exit = Stopped | Crashed

  // ---------------------------------------------------------------------
  // The watch loop

  /** The longest sleep `time.sleep` accepts: its length in nanoseconds must fit in a signed 64-bit count. */
  const MaxSleep := 9223372036

  /**
   * `time.sleep` raises for a negative length (`ValueError`) and for one
   * too long to count in nanoseconds (`OverflowError`); the watch loop
   * catches neither.
   */
  predicate SleepRejects(seconds: int)
  {
    seconds < 0 || seconds > MaxSleep
  }

  /**
   * The events of the watch loop over the given cycles: a check then a
   * sleep, each time. When `time.sleep` rejects the interval the loop ends
   * after the first check.
   */
  function WatchEvents(criteria: Option<string>, cfg: Config, seconds: int, worlds: seq<World>, codec: Codec): (r: seq<Event>)
    ensures worlds != [] ==> r != [] && r[0].Checked?
    ensures SleepRejects(seconds) ==> |r| == (if worlds == [] then 0 else 1)
    ensures !SleepRejects(seconds) ==> |r| == 2 * |worlds|
  {
    if worlds == [] then []
    else
      var check := [Checked(CycleOf(criteria, cfg, worlds[0], codec))];
      if SleepRejects(seconds) then check
      else check + [Slept(seconds)] + WatchEvents(criteria, cfg, seconds, worlds[1..], codec)
  }

  /** How the watch loop ends: Ctrl+C during a sleep is a clean stop; a rejected sleep escapes. */
  function WatchExit(seconds: int, worlds: seq<World>): (r: Exit)
    ensures r == Crashed <==> worlds != [] && SleepRejects(seconds)
  {
    if SleepRejects(seconds) && worlds != [] then Crashed else Stopped
  }

  /** One turn of the loop: the check of the first cycle, then the sleep and the remaining turns. */
  lemma WatchEventsStep(criteria: Option<string>, cfg: Config, seconds: int, worlds: seq<World>, codec: Codec, c: Cycle)
    requires worlds != [] && !SleepRejects(seconds)
    requires c == CycleOf(criteria, cfg, worlds[0], codec)
    ensures WatchEvents(criteria, cfg, seconds, worlds, codec)
         == [Checked(c), Slept(seconds)] + WatchEvents(criteria, cfg, seconds, worlds[1..], codec)
  {
  }

  /** The loop's trace so far, followed by the turns from cycle `i`, is that trace extended by turn `i`. */
  lemma WatchLoopStep(criteria: Option<string>, cfg: Config, seconds: int, worlds: seq<World>, codec: Codec,
                      events: seq<Event>, i: nat, c: Cycle)
    requires i < |worlds| && !SleepRejects(seconds)
    requires c == CycleOf(criteria, cfg, worlds[i], codec)
    ensures events + WatchEvents(criteria, cfg, seconds, worlds[i..], codec)
         == (events + [Checked(c), Slept(seconds)]) + WatchEvents(criteria, cfg, seconds, worlds[i + 1..], codec)
  {
    var turn := [Checked(c), Slept(seconds)];
    var rest := WatchEvents(criteria, cfg, seconds, worlds[i + 1..], codec);
    assert worlds[i..][1..] == worlds[i + 1..];
    WatchEventsStep(criteria, cfg, seconds, worlds[i..], codec, c);
    assert WatchEvents(criteria, cfg, seconds, worlds[i..], codec) == turn + rest;
    assert events + (turn + rest) == (events + turn) + rest;
  }

  /** The `while True` loop of `main`, run over the given cycles. */
  method WatchLoop(criteria: Option<string>, cfg: Config, seconds: int, worlds: seq<World>, codec: Codec)
    returns (events: seq<Event>, exit: Exit)
    ensures events == WatchEvents(criteria, cfg, seconds, worlds, codec)
    ensures exit == WatchExit(seconds, worlds)
  {
    events, exit := [], Stopped;
    var i := 0;
    while i < |worlds|
      invariant 0 <= i <= |worlds|
      invariant SleepRejects(seconds) ==> i == 0
      invariant events + WatchEvents(criteria, cfg, seconds, worlds[i..], codec) == WatchEvents(criteria, cfg, seconds, worlds, codec)
      invariant exit == Stopped
    {
      var c := OnCheck(criteria, cfg, worlds[i], codec);
      if SleepRejects(seconds) {
        assert WatchEvents(criteria, cfg, seconds, worlds, codec) == [Checked(c)];
        events, exit := [Checked(c)], Crashed;
        break;
      }
      WatchLoopStep(criteria, cfg, seconds, worlds, codec, events, i, c);
      events := events + [Checked(c), Slept(seconds)];
      i := i + 1;
    }
  }

  // ---------------------------------------------------------------------
  // The whole run

  /**
   * The events and the exit of one run. `now` is the first cycle; `later`
   * the cycles of the watch loop after it.
   */
  function RunEvents(a: Args, cfg: Config, login: LoginReply, now: World, later: seq<World>, codec: Codec): (r: (seq<Event>, Exit))
    ensures a.testLogin ==> forall i :: 0 <= i < |r.0| ==> r.0[i].LoginTested?
    ensures !a.testLogin ==> r.0 != [] && r.0[0] == Checked(CycleOf(Build(Filter(a.subject, a.sender, a.unseen)), cfg, now, codec))
    ensures ModeOf(a).Once? ==> |r.0| == 1
    ensures ModeOf(a).Watch? ==>
              r == (WatchEvents(Build(Filter(a.subject, a.sender, a.unseen)), cfg, ModeOf(a).seconds, [now] + later, codec),
                    WatchExit(ModeOf(a).seconds, [now] + later))
    ensures r.1 == Crashed <==> (a.testLogin && login == Unreachable) || (ModeOf(a).Watch? && SleepRejects(ModeOf(a).seconds))
  {
    var criteria := Build(Filter(a.subject, a.sender, a.unseen));
    match ModeOf(a)
    case TestLogin =>
      (match login
       case LoginOk => ([LoginTested(true)], Stopped)
       case LoginRejected => ([LoginTested(false)], Stopped)
       case Unreachable => ([], Crashed))
    case Watch(n) => (WatchEvents(criteria, cfg, n, [now] + later, codec), WatchExit(n, [now] + later))
    case Once => ([Checked(CycleOf(criteria, cfg, now, codec))], Stopped)
  }

  /** `main` after argument parsing, statement by statement: build the criteria, then run the selected mode; its outcome is `RunEvents`. */
  method Run(a: Args, cfg: Config, login: LoginReply, now: World, later: seq<World>, codec: Codec)
    returns (events: seq<Event>, exit: Exit)
    ensures (events, exit) == RunEvents(a, cfg, login, now, later, codec)
  {
    var criteria := Build(Filter(a.subject, a.sender, a.unseen));
    var mode := ModeOf(a);
    match mode
    case TestLogin =>
      match login {
        case LoginOk => events, exit := [LoginTested(true)], Stopped;
        case LoginRejected => events, exit := [LoginTested(false)], Stopped;
        case Unreachable => events, exit := [], Crashed;
      }
    case Watch(n) =>
      events, exit := WatchLoop(criteria, cfg, n, [now] + later, codec);
    case Once =>
      var c := OnCheck(criteria, cfg, now, codec);
      events, exit := [Checked(c)], Stopped;
  }

  // ---------------------------------------------------------------------
  // Properties of the loop and the dispatch

  /** How many cycles of the trace attempted a forward. */
  function ForwardAttempts(events: seq<Event>): nat
  {
    if events == [] then 0
    else (if events[0].Checked? && events[0].cycle.forwarding.Some? then 1 else 0) + ForwardAttempts(events[1..])
  }

  /** How many of the given cycles find a message to forward. */
  function CountForwards(criteria: Option<string>, worlds: seq<World>): nat
  {
    if worlds == [] then 0
    else (if Forwards(criteria, worlds[0]) then 1 else 0) + CountForwards(criteria, worlds[1..])
  }

  function CountChecks(events: seq<Event>): nat
  {
    if events == [] then 0 else (if events[0].Checked? then 1 else 0) + CountChecks(events[1..])
  }

  lemma {:induction false} CountsAppend(a: seq<Event>, b: seq<Event>)
    ensures ForwardAttempts(a + b) == ForwardAttempts(a) + ForwardAttempts(b)
    ensures CountChecks(a + b) == CountChecks(a) + CountChecks(b)
  {
    if a != [] {
      assert (a + b)[1..] == a[1..] + b;
      CountsAppend(a[1..], b);
    } else {
      assert a + b == b;
    }
  }

  /**
   * With an interval `time.sleep` accepts, the loop alternates a check of
   * each cycle and a sleep, never stops on a cycle's failure, and forwards
   * exactly in the cycles that found a message.
   */
  lemma {:induction false} WatchForwardsFoundOnly(criteria: Option<string>, cfg: Config, seconds: int, worlds: seq<World>, codec: Codec)
    requires !SleepRejects(seconds)
    ensures var events := WatchEvents(criteria, cfg, seconds, worlds, codec);
            |events| == 2 * |worlds| &&
            forall k :: 0 <= k < |worlds| ==>
              events[2 * k] == Checked(CycleOf(criteria, cfg, worlds[k], codec)) && events[2 * k + 1] == Slept(seconds)
    ensures CountChecks(WatchEvents(criteria, cfg, seconds, worlds, codec)) == |worlds|
    ensures ForwardAttempts(WatchEvents(criteria, cfg, seconds, worlds, codec)) == CountForwards(criteria, worlds)
    ensures WatchExit(seconds, worlds) == Stopped
  {
    WatchShape(criteria, cfg, seconds, worlds, codec);
    if worlds != [] {
      var head := [Checked(CycleOf(criteria, cfg, worlds[0], codec))] + [Slept(seconds)];
      WatchForwardsFoundOnly(criteria, cfg, seconds, worlds[1..], codec);
      CountsAppend(head, WatchEvents(criteria, cfg, seconds, worlds[1..], codec));
      assert head[1..] == [Slept(seconds)] && head[1..][1..] == [];
    }
  }

  /** The `k`-th check of the loop is the check of the `k`-th cycle, and a sleep follows each. */
  lemma {:induction false} WatchShape(criteria: Option<string>, cfg: Config, seconds: int, worlds: seq<World>, codec: Codec)
    requires !SleepRejects(seconds)
    ensures var events := WatchEvents(criteria, cfg, seconds, worlds, codec);
            forall k :: 0 <= k < |worlds| ==>
              events[2 * k] == Checked(CycleOf(criteria, cfg, worlds[k], codec)) && events[2 * k + 1] == Slept(seconds)
  {
    if worlds != [] {
      var events := WatchEvents(criteria, cfg, seconds, worlds, codec);
      var rest := WatchEvents(criteria, cfg, seconds, worlds[1..], codec);
      WatchShape(criteria, cfg, seconds, worlds[1..], codec);
      WatchEventsStep(criteria, cfg, seconds, worlds, codec, CycleOf(criteria, cfg, worlds[0], codec));
      forall k | 1 <= k < |worlds|
        ensures events[2 * k] == Checked(CycleOf(criteria, cfg, worlds[k], codec)) && events[2 * k + 1] == Slept(seconds)
      {
        assert worlds[k] == worlds[1..][k - 1];
        assert events[2 * k] == rest[2 * (k - 1)] && events[2 * k + 1] == rest[2 * (k - 1) + 1];
      }
    }
  }

  /** Cycles that alternately find nothing and find a message: every second one forwards. */
  predicate Alternating(criteria: Option<string>, worlds: seq<World>)
  {
    forall i :: 0 <= i < |worlds| ==> (Forwards(criteria, worlds[i]) <==> i % 2 == 1)
  }

  lemma {:induction false} AlternatingCount(criteria: Option<string>, worlds: seq<World>)
    requires Alternating(criteria, worlds)
    ensures CountForwards(criteria, worlds) == |worlds| / 2
  {
    if |worlds| == 1 {
      assert !Forwards(criteria, worlds[0]);
    } else if |worlds| >= 2 {
      var rest := worlds[2..];
      assert !Forwards(criteria, worlds[0]);
      assert Forwards(criteria, worlds[1]);
      assert worlds[1..][1..] == rest;
      assert worlds[1..][0] == worlds[1];
      assert Alternating(criteria, rest) by {
        forall i | 0 <= i < |rest| ensures Forwards(criteria, rest[i]) <==> i % 2 == 1 {
          assert rest[i] == worlds[i + 2];
        }
      }
      AlternatingCount(criteria, rest);
    }
  }

  /** N watch cycles that alternate "not found" and "found" make floor(N/2) forward attempts. */
  lemma AlternatingWatch(criteria: Option<string>, cfg: Config, seconds: int, worlds: seq<World>, codec: Codec)
    requires !SleepRejects(seconds) && Alternating(criteria, worlds)
    ensures ForwardAttempts(WatchEvents(criteria, cfg, seconds, worlds, codec)) == |worlds| / 2
  {
    WatchForwardsFoundOnly(criteria, cfg, seconds, worlds, codec);
    AlternatingCount(criteria, worlds);
  }

  /**
   * A watch run whose interval `time.sleep` accepts checks the first cycle
   * and every later one, sleeping after each, forwards exactly in the cycles
   * that found a message, and ends cleanly.
   */
  lemma WatchRun(a: Args, cfg: Config, login: LoginReply, now: World, later: seq<World>, codec: Codec)
    requires ModeOf(a).Watch? && !SleepRejects(ModeOf(a).seconds)
    ensures var criteria := Build(Filter(a.subject, a.sender, a.unseen));
            var (events, exit) := RunEvents(a, cfg, login, now, later, codec);
            |events| == 2 * (1 + |later|) && CountChecks(events) == 1 + |later|
            && ForwardAttempts(events) == CountForwards(criteria, [now] + later)
            && exit == Stopped
  {
    WatchForwardsFoundOnly(Build(Filter(a.subject, a.sender, a.unseen)), cfg, ModeOf(a).seconds, [now] + later, codec);
  }

  /** `--test-login` wins over `--watch` and the filters: no mailbox check is made. */
  lemma TestLoginFirst(a: Args, cfg: Config, login: LoginReply, now: World, later: seq<World>, codec: Codec)
    requires a.testLogin
    ensures var (events, _) := RunEvents(a, cfg, login, now, later, codec);
            forall i :: 0 <= i < |events| ==> events[i].LoginTested?
  {
  }

  /** `--watch 0` is false, so the run is a single check. */
  lemma WatchZeroChecksOnce(a: Args, cfg: Config, login: LoginReply, now: World, later: seq<World>, codec: Codec)
    requires !a.testLogin && a.watch == Some(0)
    ensures RunEvents(a, cfg, login, now, later, codec)
         == ([Checked(CycleOf(Build(Filter(a.subject, a.sender, a.unseen)), cfg, now, codec))], Stopped)
  {
  }

  /** A negative `--watch` runs one check and then fails in `time.sleep` with `ValueError`. */
  lemma NegativeWatchCrashes(a: Args, cfg: Config, login: LoginReply, now: World, later: seq<World>, codec: Codec)
    requires !a.testLogin && a.watch.Some? && a.watch.value < 0
    ensures RunEvents(a, cfg, login, now, later, codec)
         == ([Checked(CycleOf(Build(Filter(a.subject, a.sender, a.unseen)), cfg, now, codec))], Crashed)
  {
  }

  /** A `--watch` too long for `time.sleep` runs one check and then fails with `OverflowError`. */
  lemma OverlongWatchCrashes(a: Args, cfg: Config, login: LoginReply, now: World, later: seq<World>, codec: Codec)
    requires !a.testLogin && a.watch == Some(MaxSleep + 1)
    ensures RunEvents(a, cfg, login, now, later, codec)
         == ([Checked(CycleOf(Build(Filter(a.subject, a.sender, a.unseen)), cfg, now, codec))], Crashed)
  {
  }

  /**
   * A subject with a character outside ASCII makes every check fail before
   * it searches, whatever other filters are given, so nothing is forwarded.
   */
  lemma NonAsciiSubjectNeverSearched(a: Args, cfg: Config, w: World, codec: Codec, i: nat)
    requires a.subject.Some? && i < |a.subject.value| && a.subject.value[i] as int >= 128
    ensures CycleOf(Build(Filter(a.subject, a.sender, a.unseen)), cfg, w, codec) == Cycle(Lookup(Faulted, []), None)
  {
    var f := Filter(a.subject, a.sender, a.unseen);
    var t := a.subject.value;
    SubjectClauseFirst(f);
    var key := Build(f).value;
    var off := if |Keys(f)| >= 2 then 1 else 0;
    var clause := "SUBJECT \"" + t + "\"";
    assert key[off..off + |clause|] == clause;
    assert clause[9 + i] == t[i];
    assert key[off + 9 + i] == t[i];
    NonAsciiNotSent(Build(f), w.session, off + 9 + i);
  }

  /** A message that has no header fields is false in Python, so `on_check` does not forward it. */
  lemma HeaderlessNotForwarded(criteria: Option<string>, cfg: Config, w: World, codec: Codec)
    requires CheckEmail(criteria, w.session).result.Found?
    requires CheckEmail(criteria, w.session).result.message.headers == []
    ensures CycleOf(criteria, cfg, w, codec).forwarding == None
  {
  }

  /** The message of the one-shot example: subject "Invoice #123", one plain-text part. */
  function InvoiceMessage(text: Bytes): Message
  {
    Message([("Subject", "Invoice #123")], Leaf("text/plain", None, None, text))
  }

  lemma InvoiceForwarded(cfg: Config, codec: Codec, text: Bytes, body: string)
    requires NoBreak(cfg.account) && NoBreak(Join(cfg.Recipients(), ", "))
    requires codec(text, "utf-8") == Some(body)
    ensures ForwardOutcome(cfg.account, cfg.Recipients(), InvoiceMessage(text), codec, Delivered)
         == Forwarded(Envelope(cfg.account, Join(cfg.Recipients(), ", "), "FWD: " + "Invoice #123", body))
  {
    var m := InvoiceMessage(text);
    assert BodyText(m.body, codec) == Some(body);
    assert SubjectOf(m) == "Invoice #123";
    InvoiceSubjectOneLine();
    SingleLineEnvelope(cfg.account, cfg.Recipients(), "FWD: " + "Invoice #123", []);
    assert ("FWD: " + "Invoice #123") + [] == "FWD: " + "Invoice #123";
  }

  lemma InvoiceSubjectOneLine()
    ensures NoBreak("FWD: " + "Invoice #123")
  {
    PrintableNoBreak("FWD: " + "Invoice #123");
  }

  /**
   * One-shot run with `--subject Invoice` against a mailbox whose search
   * matches one message, a plain-text "Invoice #123": the search key is the
   * subject clause and the envelope forwarded carries that message's text.
   */
  lemma OneShotInvoice(a: Args, cfg: Config, login: LoginReply, now: World, later: seq<World>, codec: Codec,
                       id: string, text: Bytes, body: string)
    requires a == Args(false, Some("Invoice"), None, false, None)
    requires id != [] && NoSpace(id)
    requires now.session == Session(true, Replied(SearchReply("OK", id)), Replied(FetchReply("OK", InvoiceMessage(text))))
    requires now.smtp == Delivered
    requires NoBreak(cfg.account) && NoBreak(Join(cfg.Recipients(), ", "))
    requires codec(text, "utf-8") == Some(body)
    ensures RunEvents(a, cfg, login, now, later, codec)
         == ([Checked(Cycle(Lookup(Found(InvoiceMessage(text)), [Search("SUBJECT \"" + "Invoice" + "\""), Fetch(id, "(RFC822)")]),
                            Some(Forwarded(Envelope(cfg.account, Join(cfg.Recipients(), ", "), "FWD: " + "Invoice #123", body)))))],
             Stopped)
  {
    ExactNoneOrOne("Invoice", "x");
    var criteria := Build(Filter(a.subject, a.sender, a.unseen));
    assert criteria == Some("SUBJECT \"" + "Invoice" + "\"");
    var lookup := Lookup(Found(InvoiceMessage(text)), [Search("SUBJECT \"" + "Invoice" + "\""), Fetch(id, "(RFC822)")]);
    InvoiceLookup(now.session, id, text);
    InvoiceForwarded(cfg, codec, text, body);
    assert TruthyMessage(InvoiceMessage(text));
    assert CycleOf(criteria, cfg, now, codec)
        == Cycle(lookup, Some(Forwarded(Envelope(cfg.account, Join(cfg.Recipients(), ", "), "FWD: " + "Invoice #123", body))));
  }

  lemma InvoiceLookup(s: Session, id: string, text: Bytes)
    requires id != [] && NoSpace(id)
    requires s == Session(true, Replied(SearchReply("OK", id)), Replied(FetchReply("OK", InvoiceMessage(text))))
    ensures CheckEmail(Some("SUBJECT \"" + "Invoice" + "\""), s)
         == Lookup(Found(InvoiceMessage(text)), [Search("SUBJECT \"" + "Invoice" + "\""), Fetch(id, "(RFC822)")])
  {
    WordsOfJoin([id]);
    assert Words(id) == [id];
    assert Ascii("SUBJECT \"" + "Invoice" + "\"");
  }
}
