/** The batch driver of `process_message` (main.py): the per-user cancel flags
    of the global `processing_messages` dictionary, the cancel-button callback
    that sets them, and the loop over an index range with its counters. */
module Batch {
  import opened Wrappers
  import opened Text
  import opened Links

  const CancelBatchPrefix := "cancel_batch_"

  /** `callback_data` of the cancel button created for `userId`. */
  function CancelButtonData(userId: int): string {
    CancelBatchPrefix + IntToString(userId)
  }

  /** The handler's filter `^cancel_batch_\d+$`. */
  predicate MatchesCancelFilter(data: string) {
    StartsWith(data, CancelBatchPrefix)
    && |data| > |CancelBatchPrefix|
    && AllDigits(data[|CancelBatchPrefix|..])
  }

  /** `int(data.split('_')[2])`; `None` is the exception this raises. */
  function CancelTarget(data: string): Option<int> {
    var parts := Split(data, '_');
    if |parts| > 2 then ParseInt(parts[2]) else None
  }

  /** Data that passes the filter always names a user: the digits after the
      prefix. */
  lemma {:induction false} FilteredCancelTarget(data: string)
    requires MatchesCancelFilter(data)
    ensures CancelTarget(data) == Some(DigitsValue(data[|CancelBatchPrefix|..]) as int)
  {
    var ds := data[|CancelBatchPrefix|..];
    assert data == "cancel" + ['_'] + ("batch" + ['_'] + ds);
    assert '_' !in ds by {
      forall k | 0 <= k < |ds| ensures ds[k] != '_' { assert IsDigit(ds[k]); }
    }
    SplitAtSep("cancel", '_', "batch" + ['_'] + ds);
    SplitAtSep("batch", '_', ds);
    SplitWithoutSep(ds, '_');
    assert Split(data, '_')[2] == ds;
    ParseDigits(ds);
  }

  /** The button of a user with a non-negative id passes the filter and
      names that user. */
  lemma CancelButtonRoundTrip(userId: nat)
    ensures MatchesCancelFilter(CancelButtonData(userId))
    ensures CancelTarget(CancelButtonData(userId)) == Some(userId)
  {
    var data := CancelButtonData(userId);
    assert data[|CancelBatchPrefix|..] == NatToString(userId);
    FilteredCancelTarget(data);
    DigitsOfNat(userId);
  }

  /** The button of a negative id never passes the filter: pressing it does
      nothing. */
  lemma NegativeIdButtonIgnored(userId: int)
    requires userId < 0
    ensures !MatchesCancelFilter(CancelButtonData(userId))
  {
    var data := CancelButtonData(userId);
    assert data[|CancelBatchPrefix|] == '-';
  }

  /** The module-level dictionary `processing_messages`: user id to
      "batch cancelled". */
  class ProcessingMessages {
    var flags: map<int, bool>

    constructor ()
      ensures flags == map[]
    {
      flags := map[];
    }

    /** `processing_messages.get(user_id, False)`. */
    predicate IsCancelled(userId: int)
      reads this
    {
      userId in flags && flags[userId]
    }

    /** `handle_cancel_batch`: sets the flag of the user named by the data;
        it runs only for data that passes the handler's filter. */
    method HandleCancelBatch(data: string)
      requires MatchesCancelFilter(data)
      modifies this
      ensures flags == old(flags)[DigitsValue(data[|CancelBatchPrefix|..]) as int := true]
    {
      FilteredCancelTarget(data);
      var userId := CancelTarget(data).value;
      flags := flags[userId := true];
    }

    /** A press of the cancel button bound to `userId`: the filter, then the
        handler. */
    method PressCancelButton(userId: int)
      modifies this
      ensures userId >= 0 ==> flags == old(flags)[userId := true]
      ensures userId < 0 ==> flags == old(flags)
    {
      var data := CancelButtonData(userId);
      if userId >= 0 {
        CancelButtonRoundTrip(userId);
        DigitsOfNat(userId);
        assert data[|CancelBatchPrefix|..] == NatToString(userId);
      } else {
        NegativeIdButtonIgnored(userId);
      }
      if MatchesCancelFilter(data) {
        HandleCancelBatch(data);
      }
    }
  }

  /** Pressing the button twice has the effect of pressing it once. */
  method PressTwice(pm: ProcessingMessages, userId: int)
    modifies pm
    ensures userId >= 0 ==> pm.flags == old(pm.flags)[userId := true]
    ensures userId < 0 ==> pm.flags == old(pm.flags)
  {
    pm.PressCancelButton(userId);
    pm.PressCancelButton(userId);
  }

  // ---------------------------------------------------------------------------
  // Specification of one batch run

  /** The ids of the first `k` items from `fromId`, in ascending order. */
  function IdRange(fromId: int, k: nat): (r: seq<int>)
    ensures |r| == k
    ensures forall j :: 0 <= j < k ==> r[j] == fromId + j
  {
    seq(k, j requires 0 <= j < k => fromId + j)
  }

  /** Number of loop iterations `range(fromID, toID + 1)` allows: zero for a
      reversed range, which is not rejected. */
  function RangeLength(fromId: int, toId: int): (n: nat)
    ensures n == if toId >= fromId then toId - fromId + 1 else 0
  {
    if toId >= fromId then toId - fromId + 1 else 0
  }

  /** Whether the dispatch of `msgid` completes without raising: the source
      must resolve and its handler not raise. The handlers answer most
      faults themselves and return normally, so a missing message
      (main.py:183-188) and any exception inside their `try` (main.py:209,
      271) count as a success. `raises` stands for what escapes to
      main.py:369: a failing `get_user_session` (main.py:172, outside the
      `try`), a failing "sign in first" or error reply, or a fault of the
      public handler's fallback. */
  predicate ItemSucceeds(source: Option<Source>, raises: (Source, int) -> bool, msgid: int) {
    source.Some? && !raises(source.value, msgid)
  }

  function CountSucceeded(source: Option<Source>, raises: (Source, int) -> bool, ids: seq<int>): (c: nat)
    ensures c <= |ids|
    decreases |ids|
  {
    if ids == [] then 0
    else
      var last := if ItemSucceeds(source, raises, ids[|ids| - 1]) then 1 else 0;
      CountSucceeded(source, raises, ids[..|ids| - 1]) + last
  }

  /** A source that does not resolve fails every index of the range. */
  lemma {:induction false} UnresolvedSourceFailsAll(raises: (Source, int) -> bool, ids: seq<int>)
    ensures CountSucceeded(None, raises, ids) == 0
    decreases |ids|
  {
    if ids != [] {
      UnresolvedSourceFailsAll(raises, ids[..|ids| - 1]);
    }
  }

  /** A range whose handler raises on no index succeeds on every index. */
  lemma {:induction false} ResolvedSourceNoFaults(source: Source, raises: (Source, int) -> bool, ids: seq<int>)
    requires forall j :: 0 <= j < |ids| ==> !raises(source, ids[j])
    ensures CountSucceeded(Some(source), raises, ids) == |ids|
    decreases |ids|
  {
    if ids != [] {
      ResolvedSourceNoFaults(source, raises, ids[..|ids| - 1]);
    }
  }

  /** Exactly one raising index costs exactly one success. */
  lemma {:induction false} OneFaultyItem(source: Source, raises: (Source, int) -> bool, ids: seq<int>, bad: nat)
    requires bad < |ids|
    requires raises(source, ids[bad])
    requires forall j :: 0 <= j < |ids| && j != bad ==> !raises(source, ids[j])
    ensures CountSucceeded(Some(source), raises, ids) == |ids| - 1
    decreases |ids|
  {
    var init := ids[..|ids| - 1];
    if bad == |ids| - 1 {
      ResolvedSourceNoFaults(source, raises, init);
    } else {
      OneFaultyItem(source, raises, init, bad);
    }
  }

  /** The index of the first check that sees the flag among the first `n`
      checks, or `n` when none does. `pressed[k]` says that the button was
      pressed while the driver awaited before the check of item `k`. */
  function FirstPress(pressed: seq<bool>, n: nat): (k: nat)
    ensures k <= n
    ensures forall j :: 0 <= j < k ==> !(j < |pressed| && pressed[j])
    ensures k < n ==> k < |pressed| && pressed[k]
    decreases n
  {
    if n == 0 then 0
    else
      var k := FirstPress(pressed, n - 1);
      if k < n - 1 then k
      else if n - 1 < |pressed| && pressed[n - 1] then n - 1
      else n
  }

  /** The first check that sees a press is the one `FirstPress` names. */
  lemma FirstPressAt(pressed: seq<bool>, n: nat, k: nat)
    requires k < n && k < |pressed| && pressed[k]
    requires forall j :: 0 <= j < k ==> !(j < |pressed| && pressed[j])
    ensures FirstPress(pressed, n) == k
  {
  }

  /** Whether the button was pressed before any of the checks `0..n`; check
      `n` is the one after the loop that decides the completion summary. */
  predicate PressedThrough(pressed: seq<bool>, n: nat) {
    exists j :: 0 <= j <= n && j < |pressed| && pressed[j]
  }

  /** The outcomes of the three Telegram calls of `process_message` that no
      `try` guards: posting the progress message (main.py:334), editing it
      to the cancellation notice (main.py:354) and to the completion summary
      (main.py:380). When one raises, `process_message` raises. */
  datatype BatchCalls = BatchCalls(progressSent: bool, cancelEditOk: bool, summaryEditOk: bool)

  /** What one run of the batch loop did. */
  datatype BatchReport = BatchReport(
    total: int,             // toID - fromID + 1, as announced
    processed: nat,
    success: nat,
    failed: nat,
    dispatched: seq<int>,   // the message ids handed to a handler, in order
    sleeps: nat,            // the 2-second rate-limit delays taken
    cancelledNotice: bool,  // "Batch processing cancelled." was written
    summaryWritten: bool,   // the completion summary was written
    raised: bool)           // an unguarded call raised out of `process_message`

  /** The report of a run whose progress message could not be posted. */
  function NotStarted(total: int): BatchReport {
    BatchReport(total, 0, 0, 0, [], 0, false, false, true)
  }

  /** Whether the completion summary is due: no press was seen by any check. */
  predicate SummaryDue(userId: int, pressed: seq<bool>, n: nat) {
    !(userId >= 0 && PressedThrough(pressed, n))
  }

  /** The outcome the loop promises for a user with a working cancel button
      (`userId >= 0`); a negative id's button is filtered out, so its batch
      runs to the end. */
  ghost predicate BatchOutcome(rep: BatchReport, userId: int, source: Option<Source>,
                               raises: (Source, int) -> bool, fromId: int, toId: int,
                               pressed: seq<bool>, calls: BatchCalls)
  {
    if !calls.progressSent then rep == NotStarted(toId - fromId + 1)
    else LoopOutcome(rep, userId, source, raises, fromId, toId, pressed, calls)
  }

  /** The outcome of the loop once the progress message is posted. */
  ghost predicate LoopOutcome(rep: BatchReport, userId: int, source: Option<Source>,
                              raises: (Source, int) -> bool, fromId: int, toId: int,
                              pressed: seq<bool>, calls: BatchCalls)
  {
    var n := RangeLength(fromId, toId);
    && rep.total == toId - fromId + 1
      && rep.processed == (if userId >= 0 then FirstPress(pressed, n) else n)
      && rep.processed <= n
      && rep.dispatched == IdRange(fromId, rep.processed)
      && rep.processed == rep.success + rep.failed
      && rep.success == CountSucceeded(source, raises, rep.dispatched)
      && (rep.cancelledNotice <==> rep.processed < n && calls.cancelEditOk)
      && (rep.summaryWritten <==> SummaryDue(userId, pressed, n) && calls.summaryEditOk)
      && (rep.raised <==>
            || (rep.processed < n && !calls.cancelEditOk)
            || (SummaryDue(userId, pressed, n) && !calls.summaryEditOk))
      && rep.sleeps == (if 0 < rep.processed == n then n - 1 else rep.processed)
  }

  /** The loop of `process_message` on a parsed link. The flag of `userId`
      is reset before the progress message is posted, read before each item
      and once after the loop, and deleted at the end unless an unguarded
      call raised first. `source` is what the link resolves to: the loop
      resolves it again for every item, always to the same value. */
  method RunBatch(pm: ProcessingMessages, userId: int, source: Option<Source>,
                  fromId: int, toId: int, raises: (Source, int) -> bool, pressed: seq<bool>,
                  calls: BatchCalls)
    returns (rep: BatchReport)
    modifies pm
    ensures BatchOutcome(rep, userId, source, raises, fromId, toId, pressed, calls)
    ensures !rep.raised ==> pm.flags == old(pm.flags) - {userId}
    ensures rep.raised ==>
      pm.flags == old(pm.flags)[userId := calls.progressSent && rep.processed < RangeLength(fromId, toId)]
  {
    pm.flags := pm.flags[userId := false];
    if !calls.progressSent {
      return NotStarted(toId - fromId + 1);
    }
    rep := DriveBatch(pm, userId, source, fromId, toId, raises, pressed, calls);
    assert old(pm.flags)[userId := false] - {userId} == old(pm.flags) - {userId};
  }

  /** The loop itself, the check after it and the two edits of the
      progress message, entered with the user's flag reset. */
  method DriveBatch(pm: ProcessingMessages, userId: int, source: Option<Source>,
                    fromId: int, toId: int, raises: (Source, int) -> bool, pressed: seq<bool>,
                    calls: BatchCalls)
    returns (rep: BatchReport)
    requires userId in pm.flags && !pm.flags[userId]
    modifies pm
    ensures LoopOutcome(rep, userId, source, raises, fromId, toId, pressed, calls)
    ensures !rep.raised ==> pm.flags == old(pm.flags) - {userId}
    ensures rep.raised ==> pm.flags == old(pm.flags)[userId := rep.processed < RangeLength(fromId, toId)]
  {
    var total := toId - fromId + 1;
    var n := RangeLength(fromId, toId);
    ghost var start := pm.flags;
    var processed, success, failed, sleeps := 0, 0, 0, 0;
    var dispatched: seq<int> := [];
    var stopped := false;
    var k := 0;
    while k < n
      invariant 0 <= k <= n
      invariant processed == k == |dispatched|
      invariant forall j :: 0 <= j < k ==> dispatched[j] == fromId + j
      invariant processed == success + failed
      invariant success == CountSucceeded(source, raises, dispatched)
      invariant sleeps == (if 0 < k == n then n - 1 else k)
      invariant !stopped
      invariant pm.flags == start
      invariant userId >= 0 ==> NoPressBefore(pressed, k)
    {
      ghost var pressedNow := k < |pressed| && pressed[k];
      if k < |pressed| && pressed[k] {
        pm.PressCancelButton(userId);
      }
      assert pm.IsCancelled(userId) <==> userId >= 0 && pressedNow;
      if pm.IsCancelled(userId) {
        stopped := true;
        break;
      }
      var msgid := fromId + k;
      CountSucceededAppend(source, raises, dispatched, msgid);
      dispatched := dispatched + [msgid];
      if ItemSucceeds(source, raises, msgid) {
        success := success + 1;
      } else {
        failed := failed + 1;
      }
      processed := processed + 1;
      if processed < total {
        sleeps := sleeps + 1;
      }
      k := k + 1;
    }
    if !stopped {
      if n < |pressed| && pressed[n] {
        pm.PressCancelButton(userId);
      }
    }
    ghost var ended := pm.flags;
    var summaryDue := !pm.IsCancelled(userId);
    assert summaryDue <==> !(userId >= 0 && (processed < n || (n < |pressed| && pressed[n])));
    var raised := (stopped && !calls.cancelEditOk) || (summaryDue && !calls.summaryEditOk);
    rep := BatchReport(total, processed, success, failed, dispatched, sleeps,
                       stopped && calls.cancelEditOk, summaryDue && calls.summaryEditOk, raised);
    OutcomeOfRun(rep, userId, source, raises, fromId, toId, pressed, calls, stopped, summaryDue);
    if raised {
      RaisedFlags(start, ended, userId, stopped);
      return;
    }
    RemoveAfterUpdate(start, pm.flags, userId);
    pm.flags := pm.flags - {userId};
  }

  /** When an edit raises, the flag keeps the value the loop left: `True`
      after a press stopped it, the reset `False` otherwise. */
  lemma RaisedFlags(start: map<int, bool>, ended: map<int, bool>, u: int, stopped: bool)
    requires u in start && !start[u]
    requires stopped ==> ended == start[u := true]
    requires !stopped ==> ended == start
    ensures ended == start[u := stopped]
  {
    if !stopped {
      assert start[u := false] == start;
    }
  }

  ghost predicate NoPressBefore(pressed: seq<bool>, k: nat) {
    forall j :: 0 <= j < k ==> !(j < |pressed| && pressed[j])
  }

  /** The facts the loop establishes on either exit, the stop at a press
      and the run to the end, give the outcome. */
  lemma OutcomeOfRun(rep: BatchReport, userId: int, source: Option<Source>,
                     raises: (Source, int) -> bool, fromId: int, toId: int, pressed: seq<bool>,
                     calls: BatchCalls, stopped: bool, summaryDue: bool)
    requires rep.total == toId - fromId + 1
    requires rep.processed <= RangeLength(fromId, toId)
    requires |rep.dispatched| == rep.processed
    requires forall j :: 0 <= j < rep.processed ==> rep.dispatched[j] == fromId + j
    requires rep.processed == rep.success + rep.failed
    requires rep.success == CountSucceeded(source, raises, rep.dispatched)
    requires userId >= 0 ==> NoPressBefore(pressed, rep.processed)
    requires stopped <==> rep.processed < RangeLength(fromId, toId)
    requires stopped ==> userId >= 0 && rep.processed < |pressed| && pressed[rep.processed]
    requires summaryDue <==>
               !(userId >= 0 && (rep.processed < RangeLength(fromId, toId)
                                 || (RangeLength(fromId, toId) < |pressed| && pressed[RangeLength(fromId, toId)])))
    requires rep.cancelledNotice == (stopped && calls.cancelEditOk)
    requires rep.summaryWritten == (summaryDue && calls.summaryEditOk)
    requires rep.raised == ((stopped && !calls.cancelEditOk) || (summaryDue && !calls.summaryEditOk))
    requires rep.sleeps == (if 0 < rep.processed == RangeLength(fromId, toId) then rep.processed - 1 else rep.processed)
    ensures LoopOutcome(rep, userId, source, raises, fromId, toId, pressed, calls)
  {
    var n := RangeLength(fromId, toId);
    var k := rep.processed;
    assert rep.dispatched == IdRange(fromId, k);
    if userId >= 0 {
      if k < n {
        FirstPressAt(pressed, n, k);
        assert PressedThrough(pressed, n) by { assert 0 <= k <= n && k < |pressed| && pressed[k]; }
      } else {
        assert FirstPress(pressed, n) == n;
        assert PressedThrough(pressed, n) <==> n < |pressed| && pressed[n];
      }
    }
    assert summaryDue == SummaryDue(userId, pressed, n);
  }

  lemma CountSucceededAppend(source: Option<Source>, raises: (Source, int) -> bool, ids: seq<int>, id: int)
    ensures CountSucceeded(source, raises, ids + [id])
      == CountSucceeded(source, raises, ids) + (if ItemSucceeds(source, raises, id) then 1 else 0)
  {
    assert (ids + [id])[..|ids|] == ids;
  }

  lemma RemoveAfterUpdate(m: map<int, bool>, m': map<int, bool>, u: int)
    requires forall x :: x != u ==> (x in m <==> x in m') && (x in m ==> m[x] == m'[x])
    ensures m' - {u} == m - {u}
  {
    forall x | x in m' - {u}
      ensures x in m - {u} && (m' - {u})[x] == (m - {u})[x]
    {
      assert x != u && x in m';
    }
    forall x | x in m - {u}
      ensures x in m' - {u}
    {
      assert x != u && x in m;
    }
  }

  /** What `process_message` did with one text. */
  datatype Handled = JoinRequested | Ignored | Batched(report: BatchReport)

  /** `process_message`: invite links go to join handling, a malformed index
      raises before any flag is touched, other links run the batch loop. */
  method ProcessMessage(pm: ProcessingMessages, userId: int, text: string,
                        raises: (Source, int) -> bool, pressed: seq<bool>, calls: BatchCalls)
    returns (r: Result<Handled, LinkError>)
    modifies pm
    ensures ClassifyRequest(text).Err? ==> r.Err? && pm.flags == old(pm.flags)
    ensures ClassifyRequest(text) == Ok(JoinChat) ==> r == Ok(JoinRequested) && pm.flags == old(pm.flags)
    ensures ClassifyRequest(text) == Ok(NotALink) ==> r == Ok(Ignored) && pm.flags == old(pm.flags)
    ensures ClassifyRequest(text).Ok? && ClassifyRequest(text).value.Batch? ==>
      var b := ClassifyRequest(text).value;
      && r.Ok? && r.value.Batched?
      && BatchOutcome(r.value.report, userId, ResolveSource(text, b.datas), raises, b.fromId, b.toId, pressed, calls)
      && (!r.value.report.raised ==> pm.flags == old(pm.flags) - {userId})
      && (r.value.report.raised ==>
            pm.flags == old(pm.flags)[userId := calls.progressSent && r.value.report.processed < RangeLength(b.fromId, b.toId)])
  {
    match ClassifyRequest(text)
    case Err(e) =>
      r := Err(e);
    case Ok(JoinChat) =>
      r := Ok(JoinRequested);
    case Ok(NotALink) =>
      r := Ok(Ignored);
    case Ok(Batch(datas, fromId, toId)) =>
      var rep := RunBatch(pm, userId, ResolveSource(text, datas), fromId, toId, raises, pressed, calls);
      r := Ok(Batched(rep));
  }
}
