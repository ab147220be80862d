/**
 * `main()`: after the settings, template and sender are set up and the rows are
 * fetched, refuse to run on no rows or on duplicate addresses, then send one
 * personalised email per row that has an address, count successes and failures,
 * and produce the failure report when anything failed.
 *
 * Fetching the rows, logging and the final `disconnect()` are not part of this
 * model. The k-th call of `send_email` in the run (counting from 0) reconnects,
 * if it has to, as `connectAt(k)` says and ends `send_message` as `sendAt(k)`
 * says.
 */
module MailMerge {
  import opened Wrappers
  import opened Text
  import opened Sheets
  import opened Templates
  import opened Sender

  /** `time.sleep(2)` after every send attempt. */
  const PauseSeconds: int := 2

  /** A row that is sent to: its 1-based row number and its stripped address. */
  datatype Recipient = Recipient(rowNumber: int, email: string)

  /** The address the run sends to for a row, `row.get('email', '').strip()`; empty means the row is skipped. */
  function Address(row: Row): string {
    Trim(Get(row, "email"))
  }

  /** The rows with an address, in order, numbered from 1 as `enumerate(data, 1)` numbers them. */
  function Recipients(data: seq<Row>): (rs: seq<Recipient>)
    ensures |rs| <= |data|
  {
    if data == [] then []
    else
      var n := |data|;
      Recipients(data[..n - 1]) + (if Address(data[n - 1]) != "" then [Recipient(n, Address(data[n - 1]))] else [])
  }

  function Html(template: EmailTemplate, row: Row): string { Rendered(template.text, template.fields, row) }

  /** How far the sending loop has got: the sender's state, both counters and the clock. */
  datatype Progress = Progress(state: SenderState, success: nat, fail: nat, clock: int)

  /** One iteration of the loop, for the row with number `rowNumber`. */
  function Step(p: Progress, template: EmailTemplate, row: Row, rowNumber: int,
                connectAt: nat -> ConnectOutcome, sendAt: nat -> SendOutcome): Progress
  {
    var email := Address(row);
    if email == "" then p
    else
      var k := p.success + p.fail;
      var r := SendEmail(p.state, email, Html(template, row), rowNumber,
                         p.clock, connectAt(k), sendAt(k));
      if r.ok then Progress(r.state, p.success + 1, p.fail, r.clock + PauseSeconds)
      else Progress(r.state, p.success, p.fail + 1, r.clock + PauseSeconds)
  }

  /** The loop over all of `data`, starting from sender state `st` at time `start`. */
  function SendAll(template: EmailTemplate, data: seq<Row>, st: SenderState, start: int,
                   connectAt: nat -> ConnectOutcome, sendAt: nat -> SendOutcome): Progress
    decreases |data|
  {
    if data == [] then Progress(st, 0, 0, start)
    else
      var n := |data|;
      Step(SendAll(template, data[..n - 1], st, start, connectAt, sendAt), template, data[n - 1], n, connectAt, sendAt)
  }

  /** How a run ends. */
  datatype RunOutcome =
    | NoData
    | DuplicatesFound(duplicates: set<string>)
    | Completed(success: nat, fail: nat, report: Option<string>)

  /**
   * The body of `main()` from the fetched rows on. An empty sheet and a sheet with
   * a repeated address stop the run before anything is sent; otherwise the run is
   * the loop `SendAll`, and the report is produced exactly when a send failed.
   */
  method RunMailMerge(template: EmailTemplate, sender: EmailSender, data: seq<Row>, start: int,
                      connectAt: nat -> ConnectOutcome, sendAt: nat -> SendOutcome,
                      formatTime: int -> string)
    returns (outcome: RunOutcome)
    modifies sender
    ensures data == [] ==> outcome == NoData && sender.State() == old(sender.State())
    ensures data != [] && !DistinctEmails(data) ==>
      && outcome.DuplicatesFound? && outcome.duplicates != {}
      && (forall e :: e in outcome.duplicates <==> e != "" && Count(data, e) >= 2)
      && sender.State() == old(sender.State())
    ensures data != [] && DistinctEmails(data) ==>
      var p := SendAll(template, data, old(sender.State()), start, connectAt, sendAt);
      && sender.State() == p.state
      && outcome == Completed(p.success, p.fail,
                              if p.fail > 0 then Some(Report(p.state.failed, formatTime)) else None)
  {
    if data == [] {
      return NoData;
    }
    var duplicates := FindDuplicateEmails(data);
    NoDuplicatesIffDistinct(data);
    if duplicates != {} {
      return DuplicatesFound(duplicates);
    }
    ghost var st0 := sender.State();
    var success, fail := 0, 0;
    var clock := start;
    for i := 0 to |data|
      invariant Progress(sender.State(), success, fail, clock) == SendAll(template, data[..i], st0, start, connectAt, sendAt)
    {
      SendAllNext(template, data, i, st0, start, connectAt, sendAt);
      success, fail, clock := SendRow(template, sender, data[i], i + 1, success, fail, clock, connectAt, sendAt);
    }
    assert data[..|data|] == data;
    var report := None;
    if fail > 0 {
      var text := sender.FailedEmailsReport(formatTime);
      report := Some(text);
    }
    return Completed(success, fail, report);
  }

  /** One iteration of the loop in `main()`: skip a row without an address, else render, send and pause. */
  method SendRow(template: EmailTemplate, sender: EmailSender, row: Row, rowNumber: int,
                 success: nat, fail: nat, clock: int,
                 connectAt: nat -> ConnectOutcome, sendAt: nat -> SendOutcome)
    returns (success': nat, fail': nat, clock': int)
    modifies sender
    ensures Progress(sender.State(), success', fail', clock')
            == Step(Progress(old(sender.State()), success, fail, clock), template, row, rowNumber, connectAt, sendAt)
  {
    ghost var p := Progress(sender.State(), success, fail, clock);
    success', fail', clock' := success, fail, clock;
    var email := Trim(Get(row, "email"));
    if email != "" {
      var content := Render(template, row);
      var k := success + fail;
      ghost var r := SendEmail(p.state, email, content, rowNumber, clock, connectAt(k), sendAt(k));
      StepSends(p, template, row, rowNumber, connectAt, sendAt, email, content, r);
      var ok, after := sender.Send(email, content, rowNumber, clock, connectAt(k), sendAt(k));
      if ok {
        success' := success + 1;
      } else {
        fail' := fail + 1;
      }
      clock' := after + PauseSeconds;
      assert sender.State() == r.state && ok == r.ok && after == r.clock;
    } else {
      assert Step(p, template, row, rowNumber, connectAt, sendAt) == p;
    }
  }

  /** The loop over one more row is one more iteration. */
  lemma SendAllNext(template: EmailTemplate, data: seq<Row>, i: nat, st: SenderState, start: int,
                    connectAt: nat -> ConnectOutcome, sendAt: nat -> SendOutcome)
    requires i < |data|
    ensures SendAll(template, data[..i + 1], st, start, connectAt, sendAt)
            == Step(SendAll(template, data[..i], st, start, connectAt, sendAt), template, data[i], i + 1, connectAt, sendAt)
  {
    assert data[..i + 1][..i] == data[..i];
  }

  /** An iteration for a row with an address is the `send_email` call `r` followed by the pause. */
  lemma StepSends(p: Progress, template: EmailTemplate, row: Row, rowNumber: int,
                  connectAt: nat -> ConnectOutcome, sendAt: nat -> SendOutcome,
                  email: string, html: string, r: SendResult)
    requires email == Address(row) && email != "" && html == Html(template, row)
    requires r == SendEmail(p.state, email, html, rowNumber, p.clock,
                            connectAt(p.success + p.fail), sendAt(p.success + p.fail))
    ensures Step(p, template, row, rowNumber, connectAt, sendAt)
            == Progress(r.state, p.success + (if r.ok then 1 else 0), p.fail + (if r.ok then 0 else 1), r.clock + PauseSeconds)
  {
  }

  /** The recipients are exactly the rows with a non-blank address, each with its row number and stripped address. */
  lemma {:induction false} RecipientsExactly(data: seq<Row>, r: Recipient)
    ensures r in Recipients(data) <==>
      1 <= r.rowNumber <= |data| && r.email == Address(data[r.rowNumber - 1]) && r.email != ""
    decreases |data|
  {
    if data != [] {
      var n := |data|;
      RecipientsExactly(data[..n - 1], r);
      if 1 <= r.rowNumber < n {
        assert data[..n - 1][r.rowNumber - 1] == data[r.rowNumber - 1];
      }
    }
  }

  /** The recipients come in increasing row order, so no row is sent to twice. */
  lemma {:induction false} RecipientsIncreasing(data: seq<Row>)
    ensures forall i, j :: 0 <= i < j < |Recipients(data)| ==> Recipients(data)[i].rowNumber < Recipients(data)[j].rowNumber
    decreases |data|
  {
    if data != [] {
      var n := |data|;
      var init := Recipients(data[..n - 1]);
      RecipientsIncreasing(data[..n - 1]);
      forall i | 0 <= i < |init| ensures init[i].rowNumber <= n - 1 {
        RecipientsExactly(data[..n - 1], init[i]);
      }
    }
  }

  /** `shorter` is a prefix of `longer`. */
  predicate Extends<T(==)>(longer: seq<T>, shorter: seq<T>) {
    |shorter| <= |longer| && longer[..|shorter|] == shorter
  }

  lemma ExtendsTransitive<T>(a: seq<T>, b: seq<T>, c: seq<T>)
    requires Extends(a, b) && Extends(b, c)
    ensures Extends(a, c)
  {
    assert a[..|c|] == a[..|b|][..|c|];
  }

  /**
   * One loop iteration: a row without an address changes nothing; a row with one
   * makes one attempt, counted once, that adds an entry for this row to the
   * failure list exactly when it fails.
   */
  lemma StepFailures(p: Progress, template: EmailTemplate, row: Row, rowNumber: int,
                     connectAt: nat -> ConnectOutcome, sendAt: nat -> SendOutcome)
    ensures var q := Step(p, template, row, rowNumber, connectAt, sendAt);
      && (Address(row) == "" ==> q == p)
      && (Address(row) != "" ==> q.success + q.fail == p.success + p.fail + 1)
      && q.success >= p.success && q.fail >= p.fail
      && |q.state.failed| == |p.state.failed| + (q.fail - p.fail)
      && Extends(q.state.failed, p.state.failed)
      && (q.fail > p.fail ==> q.state.failed[|p.state.failed|].email == Address(row)
                              && q.state.failed[|p.state.failed|].rowNumber == rowNumber)
  {
    if Address(row) != "" {
      var k := p.success + p.fail;
      SendEmailRecordsFailures(p.state, Address(row), Html(template, row), rowNumber,
                               p.clock, connectAt(k), sendAt(k));
    }
  }

  /** Every recipient gets exactly one attempt: the successes and failures add up to the number of recipients. */
  lemma {:induction false} SendAllCounts(template: EmailTemplate, data: seq<Row>, st: SenderState, start: int,
                                         connectAt: nat -> ConnectOutcome, sendAt: nat -> SendOutcome)
    ensures var p := SendAll(template, data, st, start, connectAt, sendAt);
      p.success + p.fail == |Recipients(data)|
    decreases |data|
  {
    if data != [] {
      SendAllCounts(template, data[..|data| - 1], st, start, connectAt, sendAt);
    }
  }

  /** The failures of the run are appended after the earlier ones, one entry per failed attempt. */
  lemma {:induction false} SendAllFailures(template: EmailTemplate, data: seq<Row>, st: SenderState, start: int,
                                           connectAt: nat -> ConnectOutcome, sendAt: nat -> SendOutcome)
    ensures var p := SendAll(template, data, st, start, connectAt, sendAt);
      && |p.state.failed| == |st.failed| + p.fail
      && Extends(p.state.failed, st.failed)
    decreases |data|
  {
    if data != [] {
      var n := |data|;
      var p0 := SendAll(template, data[..n - 1], st, start, connectAt, sendAt);
      SendAllFailures(template, data[..n - 1], st, start, connectAt, sendAt);
      StepFailures(p0, template, data[n - 1], n, connectAt, sendAt);
      ExtendsTransitive(SendAll(template, data, st, start, connectAt, sendAt).state.failed, p0.state.failed, st.failed);
    }
  }


  /** Each entry names a row with an address, with that stripped address, and the entries follow row order. */
  ghost predicate FailuresFrom(entries: seq<FailedEmail>, data: seq<Row>) {
    && (forall i :: 0 <= i < |entries| ==>
          1 <= entries[i].rowNumber <= |data|
          && entries[i].email == Address(data[entries[i].rowNumber - 1]) != "")
    && (forall i, j :: 0 <= i < j < |entries| ==> entries[i].rowNumber < entries[j].rowNumber)
  }

  /** Message `m` goes to a row with an address, to that stripped address, with that row's rendering. */
  ghost predicate MessageFrom(m: Message, template: EmailTemplate, data: seq<Row>) {
    && 1 <= m.rowNumber <= |data|
    && m.to == Address(data[m.rowNumber - 1]) != ""
    && m.html == Html(template, data[m.rowNumber - 1])
  }

  /** Each message comes from a row, and the messages follow row order. */
  ghost predicate MessagesFrom(msgs: seq<Message>, template: EmailTemplate, data: seq<Row>) {
    && (forall i :: 0 <= i < |msgs| ==> MessageFrom(msgs[i], template, data))
    && (forall i, j :: 0 <= i < j < |msgs| ==> msgs[i].rowNumber < msgs[j].rowNumber)
  }

  lemma MessageFromExtend(m: Message, template: EmailTemplate, data: seq<Row>, row: Row)
    requires MessageFrom(m, template, data)
    ensures MessageFrom(m, template, data + [row])
  {
    assert (data + [row])[m.rowNumber - 1] == data[m.rowNumber - 1];
  }

  /** What a stretch of rows adds to a failure list is described by those rows, and the stretch can only grow. */
  lemma FailuresFromGrow(entries: seq<FailedEmail>, data: seq<Row>, row: Row, e: FailedEmail)
    requires FailuresFrom(entries, data)
    requires e.rowNumber == |data| + 1 && e.email == Address(row) != ""
    ensures FailuresFrom(entries, data + [row])
    ensures FailuresFrom(entries + [e], data + [row])
  {
    var d := data + [row];
    forall i | 0 <= i < |entries| ensures d[entries[i].rowNumber - 1] == data[entries[i].rowNumber - 1] {
    }
  }

  lemma FailuresFromSkip(entries: seq<FailedEmail>, data: seq<Row>, row: Row)
    requires FailuresFrom(entries, data)
    ensures FailuresFrom(entries, data + [row])
  {
    var d := data + [row];
    forall i | 0 <= i < |entries| ensures d[entries[i].rowNumber - 1] == data[entries[i].rowNumber - 1] {
    }
  }

  /** One loop iteration keeps the failure entries added so far described by the rows seen so far. */
  lemma StepFailuresFromRows(p0: Progress, st: SenderState, template: EmailTemplate, init: seq<Row>, row: Row,
                             connectAt: nat -> ConnectOutcome, sendAt: nat -> SendOutcome)
    requires Extends(p0.state.failed, st.failed)
    requires FailuresFrom(p0.state.failed[|st.failed|..], init)
    ensures var p := Step(p0, template, row, |init| + 1, connectAt, sendAt);
      Extends(p.state.failed, st.failed) && FailuresFrom(p.state.failed[|st.failed|..], init + [row])
  {
    var old0 := p0.state.failed[|st.failed|..];
    StepFailures(p0, template, row, |init| + 1, connectAt, sendAt);
    var failed := Step(p0, template, row, |init| + 1, connectAt, sendAt).state.failed;
    ExtendsTransitive(failed, p0.state.failed, st.failed);
    if |failed| == |p0.state.failed| {
      assert failed == p0.state.failed;
      FailuresFromSkip(old0, init, row);
    } else {
      var e := failed[|p0.state.failed|];
      assert failed == p0.state.failed + [e];
      assert failed[|st.failed|..] == old0 + [e];
      FailuresFromGrow(old0, init, row, e);
    }
  }

  /**
   * The entries a run adds to the failure list each name a row that has an
   * address, with that row's stripped address, one entry per row at most, in row order.
   */
  lemma {:induction false} SendAllFailuresFromRows(template: EmailTemplate, data: seq<Row>, st: SenderState, start: int,
                                                   connectAt: nat -> ConnectOutcome, sendAt: nat -> SendOutcome)
    ensures var p := SendAll(template, data, st, start, connectAt, sendAt);
      Extends(p.state.failed, st.failed) && FailuresFrom(p.state.failed[|st.failed|..], data)
    decreases |data|
  {
    if data == [] {
      assert st.failed[..|st.failed|] == st.failed;
    } else {
      var n := |data|;
      var init := data[..n - 1];
      assert data == init + [data[n - 1]];
      SendAllFailuresFromRows(template, init, st, start, connectAt, sendAt);
      StepFailuresFromRows(SendAll(template, init, st, start, connectAt, sendAt), st, template, init, data[n - 1],
                           connectAt, sendAt);
    }
  }

  lemma MessagesFromSkip(msgs: seq<Message>, template: EmailTemplate, data: seq<Row>, row: Row)
    requires MessagesFrom(msgs, template, data)
    ensures MessagesFrom(msgs, template, data + [row])
  {
    forall i | 0 <= i < |msgs| ensures MessageFrom(msgs[i], template, data + [row]) {
      MessageFromExtend(msgs[i], template, data, row);
    }
  }

  lemma MessagesFromGrow(msgs: seq<Message>, template: EmailTemplate, data: seq<Row>, row: Row)
    requires MessagesFrom(msgs, template, data)
    requires Address(row) != ""
    ensures MessagesFrom(msgs + [Message(Address(row), Html(template, row), |data| + 1)],
                         template, data + [row])
  {
    var d := data + [row];
    var m := Message(Address(row), Html(template, row), |data| + 1);
    var ms := msgs + [m];
    assert MessageFrom(m, template, d) by {
      assert d[|data|] == row;
    }
    forall i | 0 <= i < |ms| ensures MessageFrom(ms[i], template, d) {
      if i < |msgs| {
        MessageFromExtend(msgs[i], template, data, row);
      }
    }
    forall i, j | 0 <= i < j < |ms| ensures ms[i].rowNumber < ms[j].rowNumber {
      assert MessageFrom(ms[i], template, data) || i == |msgs|;
    }
  }

  /**
   * Every message the run hands to the server goes to a row that has an address,
   * to that stripped address, with that row rendered through the template, at
   * most one per row and in row order.
   */
  lemma {:induction false} SendAllMessagesFromRows(template: EmailTemplate, data: seq<Row>, st: SenderState, start: int,
                                                   connectAt: nat -> ConnectOutcome, sendAt: nat -> SendOutcome)
    ensures var p := SendAll(template, data, st, start, connectAt, sendAt);
      && |p.state.sent| >= |st.sent| && p.state.sent[..|st.sent|] == st.sent
      && MessagesFrom(p.state.sent[|st.sent|..], template, data)
    decreases |data|
  {
    if data != [] {
      var n := |data|;
      var init := data[..n - 1];
      var row := data[n - 1];
      assert data == init + [row];
      var p0 := SendAll(template, init, st, start, connectAt, sendAt);
      SendAllMessagesFromRows(template, init, st, start, connectAt, sendAt);
      var old0 := p0.state.sent[|st.sent|..];
      var p := SendAll(template, data, st, start, connectAt, sendAt);
      if Address(row) == "" {
        MessagesFromSkip(old0, template, init, row);
      } else {
        var k := p0.success + p0.fail;
        var html := Html(template, row);
        SendEmailTransmits(p0.state, Address(row), html, n, p0.clock, connectAt(k), sendAt(k));
        if p.state.sent == p0.state.sent {
          MessagesFromSkip(old0, template, init, row);
        } else {
          var m := Message(Address(row), html, n);
          assert p.state.sent == p0.state.sent + [m];
          assert p.state.sent[|st.sent|..] == old0 + [m];
          assert p.state.sent[..|st.sent|] == p0.state.sent[..|st.sent|];
          MessagesFromGrow(old0, template, init, row);
        }
      }
    }
  }

  /** The clock never goes back, and every attempt adds at least the two-second pause. */
  lemma {:induction false} SendAllClock(template: EmailTemplate, data: seq<Row>, st: SenderState, start: int,
                                        connectAt: nat -> ConnectOutcome, sendAt: nat -> SendOutcome)
    ensures var p := SendAll(template, data, st, start, connectAt, sendAt);
      p.clock >= start + PauseSeconds * (p.success + p.fail)
    decreases |data|
  {
    if data != [] {
      var n := |data|;
      var p0 := SendAll(template, data[..n - 1], st, start, connectAt, sendAt);
      SendAllClock(template, data[..n - 1], st, start, connectAt, sendAt);
      StepClock(p0, template, data[n - 1], n, connectAt, sendAt);
    }
  }

  /** One iteration moves the clock on by at least the pause for each attempt it makes. */
  lemma StepClock(p: Progress, template: EmailTemplate, row: Row, rowNumber: int,
                  connectAt: nat -> ConnectOutcome, sendAt: nat -> SendOutcome)
    ensures var q := Step(p, template, row, rowNumber, connectAt, sendAt);
      q.clock - p.clock >= PauseSeconds * (q.success + q.fail) - PauseSeconds * (p.success + p.fail)
  {
    if Address(row) != "" {
      var k := p.success + p.fail;
      SendEmailWaitsOutCooldown(p.state, Address(row), Html(template, row), rowNumber,
                                p.clock, connectAt(k), sendAt(k));
    }
  }

  /**
   * With a session stored, no error on record and every `send_message`
   * accepted, every recipient succeeds, nothing is recorded as failed and the
   * run takes exactly two seconds per recipient.
   */
  lemma {:induction false} SendAllHappyPath(template: EmailTemplate, data: seq<Row>, st: SenderState, start: int,
                                            connectAt: nat -> ConnectOutcome, sendAt: nat -> SendOutcome)
    requires st.server.Some? && st.lastErrorTime.None?
    requires forall k: nat :: sendAt(k) == Delivered
    ensures var p := SendAll(template, data, st, start, connectAt, sendAt);
      && p.fail == 0 && p.success == |Recipients(data)|
      && p.state.server == st.server && p.state.lastErrorTime == None && p.state.failed == st.failed
      && p.clock == start + PauseSeconds * |Recipients(data)|
    decreases |data|
  {
    if data != [] {
      SendAllHappyPath(template, data[..|data| - 1], st, start, connectAt, sendAt);
    }
  }
}
