/**
 * `EmailSender`: one SMTP session, a cooldown after any failure, and the list of
 * failed deliveries with the report built from it.
 *
 * The SMTP exchange itself is not modelled: how a connection attempt ends and how
 * `send_message` ends are inputs. The clock is a whole number of seconds, passed
 * in; waiting out the cooldown moves it forward, SMTP calls take no time.
 */
module Sender {
  import opened Wrappers
  import opened Text

  /** `cooldown_minutes`, in seconds. */
  const CooldownSeconds: int := 20 * 60

  const RateLimitError: string := "Rate limit cooldown"

  /** What `str(e)` gives for the `AttributeError` of `send_message` on a sender that never connected. */
  const NoServerError: string := "'NoneType' object has no attribute 'send_message'"

  const NoFailuresReport: string := "No failed emails to report."
  const ReportTitle: string := "Failed Emails Report:"
  const ReportRule: string := "==================="
  const EntryRule: string := "-------------------"

  /** An SMTP session object; `authenticated` is false when STARTTLS or login failed after it was created. */
  datatype Session = Session(authenticated: bool)

  /**
   * How `connect()` ends: logged in; the SMTP constructor raised (no new session);
   * or STARTTLS or login raised after the session was created and stored.
   */
  datatype ConnectOutcome = Connected | ConstructorFailed | HandshakeFailed

  /** How `send_message` ends: accepted, or raised with the given message. */
  datatype SendOutcome = Delivered | Raised(message: string)

  /** One entry of `failed_emails`; `time` is the clock reading that the entry's timestamp shows. */
  datatype FailedEmail = FailedEmail(email: string, rowNumber: int, error: string, time: int)

  /** A message handed to the server: recipient, HTML body and row number. */
  datatype Message = Message(to: string, html: string, rowNumber: int)

  /** Everything the sender keeps, plus the messages it has handed to the server so far. */
  datatype SenderState = SenderState(
    server: Option<Session>,
    lastErrorTime: Option<int>,
    failed: seq<FailedEmail>,
    sent: seq<Message>)

  const Fresh: SenderState := SenderState(None, None, [], [])

  /** The state after `connect()` at time `now`. */
  function AfterConnect(st: SenderState, now: int, outcome: ConnectOutcome): SenderState {
    match outcome
    case Connected => st.(server := Some(Session(true)))
    case ConstructorFailed => st.(lastErrorTime := Some(now))
    case HandshakeFailed => st.(server := Some(Session(false)), lastErrorTime := Some(now))
  }

  /** The last failure was less than the cooldown ago. */
  predicate CoolingDown(lastErrorTime: Option<int>, now: int) {
    lastErrorTime.Some? && now < lastErrorTime.value + CooldownSeconds
  }

  /** The outcome of `_check_cooldown()`: the new state, whether sending may go ahead, and the clock afterwards. */
  datatype CooldownResult = CooldownResult(state: SenderState, ready: bool, clock: int)

  function CheckCooldown(st: SenderState, now: int, connect: ConnectOutcome): CooldownResult {
    if CoolingDown(st.lastErrorTime, now) then
      var end := st.lastErrorTime.value + CooldownSeconds;
      CooldownResult(AfterConnect(st, end, connect), connect == Connected, end)
    else
      CooldownResult(st, true, now)
  }

  /**
   * `_check_cooldown()` keeps the failure list and the messages sent. Outside a
   * cooldown it neither waits nor reconnects and says go; during one it waits
   * until the cooldown's end and says go exactly when the reconnection logged in,
   * leaving a logged-in session, or else a new error time at the cooldown's end.
   */
  lemma CheckCooldownOutcome(st: SenderState, now: int, connect: ConnectOutcome)
    ensures var c := CheckCooldown(st, now, connect);
      && c.state.failed == st.failed && c.state.sent == st.sent && c.clock >= now
      && (!CoolingDown(st.lastErrorTime, now) ==> c.ready && c.state == st && c.clock == now)
      && (CoolingDown(st.lastErrorTime, now) ==>
            && c.clock == st.lastErrorTime.value + CooldownSeconds
            && (c.ready <==> connect == Connected)
            && (c.ready ==> c.state.server == Some(Session(true)) && c.state.lastErrorTime == st.lastErrorTime)
            && (!c.ready ==> c.state.lastErrorTime == Some(c.clock)))
  {
  }

  /** The outcome of `send_email`: the new state, its return value, and the clock afterwards. */
  datatype SendResult = SendResult(state: SenderState, ok: bool, clock: int)

  /**
   * `send_email(to, html, row)` at time `now`, where a reconnection during the
   * cooldown would end as `connect` and `send_message` would end as `send`.
   */
  function SendEmail(st: SenderState, to: string, html: string, row: int, now: int,
                     connect: ConnectOutcome, send: SendOutcome): SendResult
  {
    var c := CheckCooldown(st, now, connect);
    var s := c.state;
    if !c.ready then
      SendResult(s.(failed := s.failed + [FailedEmail(to, row, RateLimitError, c.clock)]), false, c.clock)
    else
      var outcome := if s.server.None? then Raised(NoServerError) else send;
      var s' := if s.server.Some? then s.(sent := s.sent + [Message(to, html, row)]) else s;
      match outcome
      case Delivered => SendResult(s', true, c.clock)
      case Raised(m) =>
        SendResult(s'.(lastErrorTime := Some(c.clock), failed := s'.failed + [FailedEmail(to, row, m, c.clock)]),
                   false, c.clock)
  }

  /**
   * `send_email` keeps one entry per failure: a failed call appends exactly one
   * entry, for this recipient and row, stamped with the clock after the call; a
   * successful call appends none. Earlier entries are never changed.
   */
  lemma SendEmailRecordsFailures(st: SenderState, to: string, html: string, row: int, now: int,
                                 connect: ConnectOutcome, send: SendOutcome)
    ensures var r := SendEmail(st, to, html, row, now, connect, send);
      && (r.ok ==> r.state.failed == st.failed)
      && (!r.ok ==> |r.state.failed| == |st.failed| + 1
                    && r.state.failed[..|st.failed|] == st.failed
                    && r.state.failed[|st.failed|].email == to
                    && r.state.failed[|st.failed|].rowNumber == row
                    && r.state.failed[|st.failed|].time == r.clock)
  {
    var r := SendEmail(st, to, html, row, now, connect, send);
    if !r.ok {
      assert r.state.failed[..|st.failed|] == st.failed;
    }
  }

  /**
   * The clock never goes back: a call during the cooldown waits until the cooldown
   * ends, any other call does not wait.
   */
  lemma SendEmailWaitsOutCooldown(st: SenderState, to: string, html: string, row: int, now: int,
                                  connect: ConnectOutcome, send: SendOutcome)
    ensures var r := SendEmail(st, to, html, row, now, connect, send);
      && r.clock >= now
      && (CoolingDown(st.lastErrorTime, now) ==> r.clock == st.lastErrorTime.value + CooldownSeconds)
      && (!CoolingDown(st.lastErrorTime, now) ==> r.clock == now)
  {
  }

  /**
   * A message is handed to the server at most once per call and only when the
   * cooldown is over or the reconnection succeeded; a successful call has handed
   * over exactly this message. When the reconnection fails the entry says so.
   */
  lemma SendEmailTransmits(st: SenderState, to: string, html: string, row: int, now: int,
                           connect: ConnectOutcome, send: SendOutcome)
    ensures var r := SendEmail(st, to, html, row, now, connect, send);
      && (r.state.sent == st.sent || r.state.sent == st.sent + [Message(to, html, row)])
      && (r.ok ==> r.state.sent == st.sent + [Message(to, html, row)])
      && (CoolingDown(st.lastErrorTime, now) && connect != Connected ==>
            !r.ok && r.state.sent == st.sent && r.state.failed[|st.failed|].error == RateLimitError)
  {
  }

  /**
   * The error time only moves on failure: a successful call keeps it, and a failed
   * call sets it to the clock at the failure, whether the reconnection after a
   * cooldown or `send_message` failed.
   */
  lemma SendEmailErrorTime(st: SenderState, to: string, html: string, row: int, now: int,
                           connect: ConnectOutcome, send: SendOutcome)
    ensures var r := SendEmail(st, to, html, row, now, connect, send);
      && (r.ok ==> r.state.lastErrorTime == st.lastErrorTime)
      && (!r.ok ==> r.state.lastErrorTime == Some(r.clock))
  {
  }

  /** Without a session, a call outside the cooldown fails with the `NoneType` error and hands nothing over. */
  lemma SendEmailWithoutServer(st: SenderState, to: string, html: string, row: int, now: int,
                               connect: ConnectOutcome, send: SendOutcome)
    requires st.server.None? && !CoolingDown(st.lastErrorTime, now)
    ensures var r := SendEmail(st, to, html, row, now, connect, send);
      && !r.ok && r.state.sent == st.sent
      && r.state.failed == st.failed + [FailedEmail(to, row, NoServerError, now)]
  {
  }

  /**
   * After a failure, the next call that comes before the cooldown is over waits
   * until exactly the cooldown's end, counted from the clock of the failure.
   */
  lemma {:induction false} FailureStartsCooldown(st: SenderState, to: string, html: string, row: int, now: int,
                                                 connect: ConnectOutcome, send: SendOutcome,
                                                 to2: string, html2: string, row2: int, now2: int,
                                                 connect2: ConnectOutcome, send2: SendOutcome)
    requires !SendEmail(st, to, html, row, now, connect, send).ok
    requires now2 < SendEmail(st, to, html, row, now, connect, send).clock + CooldownSeconds
    ensures var r := SendEmail(st, to, html, row, now, connect, send);
            SendEmail(r.state, to2, html2, row2, now2, connect2, send2).clock == r.clock + CooldownSeconds
  {
    var r := SendEmail(st, to, html, row, now, connect, send);
    SendEmailErrorTime(st, to, html, row, now, connect, send);
    assert r.state.lastErrorTime == Some(r.clock);
    SendEmailWaitsOutCooldown(r.state, to2, html2, row2, now2, connect2, send2);
  }

  /** One entry of the report. */
  function Entry(e: FailedEmail, formatTime: int -> string): string {
    "Row " + IntToString(e.rowNumber) + ": " + e.email + "\n"
    + "Error: " + e.error + "\n"
    + "Time: " + formatTime(e.time) + "\n"
    + EntryRule
  }

  /** The entries of `failed`, in list order. */
  function Entries(failed: seq<FailedEmail>, formatTime: int -> string): (r: seq<string>)
    ensures |r| == |failed|
  {
    if failed == [] then [] else Entries(failed[..|failed| - 1], formatTime) + [Entry(failed[|failed| - 1], formatTime)]
  }

  /** `get_failed_emails_report()`; `formatTime` stands for the `strftime` of each timestamp. */
  function Report(failed: seq<FailedEmail>, formatTime: int -> string): string {
    if failed == [] then NoFailuresReport
    else Join([ReportTitle, ReportRule] + Entries(failed, formatTime), "\n")
  }

  /** The report is the fixed sentence exactly when nothing failed, and otherwise opens with its title. */
  lemma ReportEmptyIff(failed: seq<FailedEmail>, formatTime: int -> string)
    ensures Report(failed, formatTime) == NoFailuresReport <==> failed == []
    ensures failed != [] ==> Report(failed, formatTime)[..|ReportTitle|] == ReportTitle
  {
    if failed != [] {
      var lines := [ReportTitle, ReportRule] + Entries(failed, formatTime);
      assert lines[0] == ReportTitle;
      JoinStartsWithFirst(lines, "\n");
      assert Report(failed, formatTime)[0] == 'F';
    }
  }

  /** A joined text begins with its first part. */
  lemma JoinStartsWithFirst(parts: seq<string>, sep: string)
    requires |parts| > 0
    ensures |Join(parts, sep)| >= |parts[0]| && Join(parts, sep)[..|parts[0]|] == parts[0]
  {
    if |parts| > 1 {
      assert Join(parts, sep) == parts[0] + sep + Join(parts[1..], sep);
    }
  }

  /** The report of one failure: title, rule, then the entry, one per line. */
  lemma ReportSingle(e: FailedEmail, formatTime: int -> string)
    ensures Report([e], formatTime) == ReportTitle + "\n" + ReportRule + "\n" + Entry(e, formatTime)
  {
    assert [e][..0] == [];
    var lines := [ReportTitle, ReportRule, Entry(e, formatTime)];
    assert [ReportTitle, ReportRule] + Entries([e], formatTime) == lines;
    assert lines[1..] == [ReportRule, Entry(e, formatTime)];
    assert lines[1..][1..] == [Entry(e, formatTime)];
    assert Join(lines[1..], "\n") == ReportRule + "\n" + Entry(e, formatTime);
    assert Join(lines, "\n") == ReportTitle + "\n" + (ReportRule + "\n" + Entry(e, formatTime));
  }

  /** A later failure adds its entry at the end of the report, after a line break; nothing before it changes. */
  lemma ReportAppend(failed: seq<FailedEmail>, e: FailedEmail, formatTime: int -> string)
    requires failed != []
    ensures Report(failed + [e], formatTime) == Report(failed, formatTime) + "\n" + Entry(e, formatTime)
  {
    var fs := failed + [e];
    assert fs[..|fs| - 1] == failed;
    var lines := [ReportTitle, ReportRule] + Entries(failed, formatTime);
    assert [ReportTitle, ReportRule] + Entries(fs, formatTime) == lines + [Entry(e, formatTime)];
    JoinAppend(lines, Entry(e, formatTime), "\n");
  }

  /** Joining one more part adds the separator and that part at the end. */
  lemma {:induction false} JoinAppend(parts: seq<string>, last: string, sep: string)
    requires parts != []
    ensures Join(parts + [last], sep) == Join(parts, sep) + sep + last
    decreases |parts|
  {
    if |parts| == 1 {
      assert (parts + [last])[1..] == [last];
    } else {
      assert (parts + [last])[1..] == parts[1..] + [last];
      JoinAppend(parts[1..], last, sep);
    }
  }

  /** The row number can be read back from an entry: it is written in decimal right after `Row `. */
  lemma EntryShowsRow(e: FailedEmail, formatTime: int -> string)
    requires e.rowNumber >= 0
    ensures var digits := NatToString(e.rowNumber);
      && Entry(e, formatTime)[..4 + |digits|] == "Row " + digits
      && DigitsValue(digits) == e.rowNumber
  {
    NatToStringRoundTrip(e.rowNumber);
  }

  /**
   * The sender object. Its fields are the script's; `sent` is a ghost record of
   * the messages handed to the server.
   */
  class EmailSender {
    var server: Option<Session>
    var lastErrorTime: Option<int>
    var failed: seq<FailedEmail>
    ghost var sent: seq<Message>

    ghost function State(): SenderState
      reads this
    {
      SenderState(server, lastErrorTime, failed, sent)
    }

    /** `EmailSender(config)`: no session, no error, no failures, then one `connect()` at time `now`. */
    constructor (now: int, connect: ConnectOutcome)
      ensures State() == AfterConnect(Fresh, now, connect)
    {
      server := None;
      lastErrorTime := None;
      failed := [];
      sent := [];
      new;
      var _ := Connect(now, connect);
    }

    /** `connect()` at time `now`; true exactly when the login succeeded. */
    method Connect(now: int, outcome: ConnectOutcome) returns (ok: bool)
      modifies this
      ensures ok <==> outcome == Connected
      ensures State() == AfterConnect(old(State()), now, outcome)
    {
      match outcome
      case Connected =>
        server := Some(Session(true));
        ok := true;
      case ConstructorFailed =>
        lastErrorTime := Some(now);
        ok := false;
      case HandshakeFailed =>
        server := Some(Session(false));
        lastErrorTime := Some(now);
        ok := false;
    }

    /** `_check_cooldown()` at time `now`: waits out a running cooldown, then reconnects. */
    method CheckCooldownNow(now: int, connect: ConnectOutcome) returns (ready: bool, clock: int)
      modifies this
      ensures var c := CheckCooldown(old(State()), now, connect);
        State() == c.state && ready == c.ready && clock == c.clock
    {
      if lastErrorTime == None {
        return true, now;
      }
      var cooldownEnd := lastErrorTime.value + CooldownSeconds;
      if now < cooldownEnd {
        clock := cooldownEnd;
        ready := Connect(clock, connect);
        return;
      }
      return true, now;
    }

    /** `send_email(to, html, row)` at time `now`; returns whether it succeeded and the clock afterwards. */
    method Send(to: string, html: string, row: int, now: int, connect: ConnectOutcome, send: SendOutcome)
      returns (ok: bool, clock: int)
      modifies this
      ensures var r := SendEmail(old(State()), to, html, row, now, connect, send);
        State() == r.state && ok == r.ok && clock == r.clock
    {
      var ready;
      ready, clock := CheckCooldownNow(now, connect);
      if !ready {
        failed := failed + [FailedEmail(to, row, RateLimitError, clock)];
        return false, clock;
      }
      var outcome := send;
      if server.None? {
        outcome := Raised(NoServerError);
      } else {
        sent := sent + [Message(to, html, row)];
      }
      match outcome
      case Delivered =>
        ok := true;
      case Raised(message) =>
        lastErrorTime := Some(clock);
        failed := failed + [FailedEmail(to, row, message, clock)];
        ok := false;
    }

    /** `get_failed_emails_report()`: the title lines, then one entry per failure, joined by line breaks. */
    method FailedEmailsReport(formatTime: int -> string) returns (report: string)
      ensures report == Report(failed, formatTime)
    {
      if failed == [] {
        return NoFailuresReport;
      }
      var lines := [ReportTitle, ReportRule];
      for i := 0 to |failed|
        invariant lines == [ReportTitle, ReportRule] + Entries(failed[..i], formatTime)
      {
        assert failed[..i + 1][..i] == failed[..i];
        lines := lines + [Entry(failed[i], formatTime)];
      }
      assert failed[..|failed|] == failed;
      report := Join(lines, "\n");
    }
  }
}
