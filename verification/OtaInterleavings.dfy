/** Triggers of firmware updates interleaved at their awaits: a trigger checks the row it has read
    and publishes, then saves the whole device row, then inserts its history row. A report is
    handled in one step. */
module OtaInterleavings {
  import opened Wrappers
  import opened OtaUpdates

  /** A trigger that has published: the row it read, what it sends, its request time, and whether
      it has saved the device. */
  datatype Job = Job(seen: Device, firmware: Firmware, at: int, saved: bool)
  {
    /** The device row it saves: every column, as it was read. */
    function SavedDevice(): Device {
      seen.(
        otaStatus := Pending, otaFirmwareId := Some(firmware.id), otaTargetVersion := Some(firmware.version),
        otaProgress := Some(0), otaError := None, otaRequestedAt := Some(at), otaUpdatedAt := Some(at))
    }

    function Row(): Attempt {
      Attempt(firmware.id, seen.firmwareVersion, firmware.version, Pending, Some(0), None, at, None, None)
    }
  }

  datatype Flight = Flight(record: Record, jobs: seq<Job>)

  datatype Move =
    | Publish(userId: string, firmware: Option<Firmware>, mqttEnabled: bool, published: bool, now: int)
    | SaveDevice(k: nat)
    | SaveRow(k: nat)
    | Receive(report: Report, now: int)

  function Moved(l: Flight, move: Move): Flight {
    match move
    case Publish(userId, firmware, mqttEnabled, published, now) =>
      if Accepts(l.record, Trigger(userId, firmware, mqttEnabled, published, now))
      then l.(jobs := l.jobs + [Job(l.record.device, firmware.value, now, false)])
      else l
    case SaveDevice(k) =>
      if k < |l.jobs| && !l.jobs[k].saved
      then Flight(l.record.(device := l.jobs[k].SavedDevice()), l.jobs[k := l.jobs[k].(saved := true)])
      else l
    case SaveRow(k) =>
      if k < |l.jobs| && l.jobs[k].saved
      then Flight(l.record.(history := l.record.history + [l.jobs[k].Row()]), l.jobs[..k] + l.jobs[k + 1..])
      else l
    case Receive(report, now) => l.(record := Next(l.record, Status(report, now)))
  }

  function Play(l: Flight, moves: seq<Move>): Flight {
    if moves == [] then l else Moved(Play(l, moves[..|moves| - 1]), moves[|moves| - 1])
  }

  /** A trigger whose three moves follow each other is the atomic one. */
  lemma UninterruptedTrigger(
    l: Flight, userId: string, firmware: Option<Firmware>, mqttEnabled: bool, published: bool, now: int)
    ensures var t, n := Trigger(userId, firmware, mqttEnabled, published, now), |l.jobs|;
            Moved(Moved(Moved(l, Publish(userId, firmware, mqttEnabled, published, now)), SaveDevice(n)), SaveRow(n))
            == l.(record := Next(l.record, t))
  {
    var published1 := Moved(l, Publish(userId, firmware, mqttEnabled, published, now));
    var n := |l.jobs|;
    if Accepts(l.record, Trigger(userId, firmware, mqttEnabled, published, now)) {
      var job := Job(l.record.device, firmware.value, now, false);
      assert published1.jobs == l.jobs + [job];
      assert Moved(published1, SaveDevice(n)).jobs == l.jobs + [job.(saved := true)];
      assert (l.jobs + [job.(saved := true)])[..n] + (l.jobs + [job.(saved := true)])[n + 1..] == l.jobs;
    }
  }

  // ---------------------------------------------------------------- what every run keeps

  /** Triggers are published at strictly increasing times. */
  predicate InTime(l: Flight, move: Move) {
    move.Publish? ==>
      && (forall k :: 0 <= k < |l.jobs| ==> l.jobs[k].at < move.now)
      && (forall k :: 0 <= k < |l.record.history| ==> l.record.history[k].requestedAt < move.now)
  }

  predicate TimelyRun(l: Flight, moves: seq<Move>) {
    moves == [] || (TimelyRun(l, moves[..|moves| - 1]) && InTime(Play(l, moves[..|moves| - 1]), moves[|moves| - 1]))
  }

  predicate SameOwner(d: Device, e: Device) {
    d.userId == e.userId && d.templateId == e.templateId && d.pushChannel == e.pushChannel
  }

  /** No two attempts, under way or in the history, have the same request time, and all triggers
      have read the row of this device. */
  predicate Distinct(l: Flight) {
    && (forall i, j :: 0 <= i < j < |l.jobs| ==> l.jobs[i].at != l.jobs[j].at)
    && (forall i, j :: 0 <= i < |l.jobs| && 0 <= j < |l.record.history| ==> l.jobs[i].at != l.record.history[j].requestedAt)
    && (forall i :: 0 <= i < |l.jobs| ==> SameOwner(l.jobs[i].seen, l.record.device))
  }

  lemma NextKeepsTimes(r: Record, report: Report, now: int)
    ensures var s := Next(r, Status(report, now));
            && SameOwner(s.device, r.device) && |s.history| == |r.history|
            && forall k :: 0 <= k < |r.history| ==> s.history[k].requestedAt == r.history[k].requestedAt
  {
    hide LatestIndex, ParseOtaStatus, ClampProgress;
  }

  lemma RowKeepsDistinct(l: Flight, k: nat)
    requires Proper(l.record) && Distinct(l) && k < |l.jobs| && l.jobs[k].saved
    ensures Proper(Moved(l, SaveRow(k)).record) && Distinct(Moved(l, SaveRow(k)))
  {
    hide SameOwner;
    var jobs := l.jobs[..k] + l.jobs[k + 1..];
    assert forall i :: 0 <= i < |jobs| ==> jobs[i] == if i < k then l.jobs[i] else l.jobs[i + 1];
  }

  lemma MoveKeepsDistinct(l: Flight, move: Move)
    requires Proper(l.record) && Distinct(l) && InTime(l, move)
    ensures Proper(Moved(l, move).record) && Distinct(Moved(l, move))
  {
    match move
    case Publish(_, _, _, _, _) => hide Accepts;
    case SaveDevice(k) => hide ProperAttempt;
    case SaveRow(k) =>
      if k < |l.jobs| && l.jobs[k].saved { RowKeepsDistinct(l, k); }
      hide SameOwner, Proper, Distinct;
    case Receive(report, now) =>
      NextKeepsRows(l.record, Status(report, now));
      NextKeepsTimes(l.record, report, now);
      hide Next, Proper;
  }

  // ---------------------------------------------------------------- when the cached fields agree

  /** The device row is still what the trigger has saved, but for the time of the last update. */
  predicate Untouched(d: Device, job: Job) {
    d.(otaUpdatedAt := Some(job.at)) == job.SavedDevice()
  }

  /** The moves that make cache and history disagree: an `IDLE` report while a row is open; saving
      a device while a row is open; and inserting a row while another is open, after a row of a
      later trigger, or when something else has been saved on the device in between. */
  predicate Disturbs(l: Flight, move: Move) {
    match move
    case Publish(_, _, _, _, _) => false
    case Receive(report, _) => HasOpen(l.record.history) && ParseOtaStatus(report.status) == Some(Idle)
    case SaveDevice(k) => k < |l.jobs| && !l.jobs[k].saved && HasOpen(l.record.history)
    case SaveRow(k) =>
      && k < |l.jobs| && l.jobs[k].saved
      && (|| HasOpen(l.record.history)
          || (exists j :: 0 <= j < |l.record.history| && l.record.history[j].requestedAt > l.jobs[k].at)
          || !Untouched(l.record.device, l.jobs[k]))
  }

  lemma IdleBreaks(r: Record, report: Report, now: int)
    requires Agrees(r) && HasOpen(r.history) && ParseOtaStatus(report.status) == Some(Idle)
    ensures !Agrees(Next(r, Status(report, now)))
  {
    hide LatestIndex, ParseOtaStatus, ClampProgress;
    LatestIsLast(r.history);
    assert r.history[|r.history| - 1].IsOpen();
  }

  lemma RowAgreesExactly(r: Record, job: Job)
    requires Agrees(r) && SameOwner(job.seen, r.device)
    requires forall j :: 0 <= j < |r.history| ==> job.at != r.history[j].requestedAt
    ensures Agrees(r.(history := r.history + [job.Row()])) <==>
            && !HasOpen(r.history) && (forall j :: 0 <= j < |r.history| ==> r.history[j].requestedAt < job.at)
            && Untouched(r.device, job)
  {
    var h, row := r.history, job.Row();
    var h' := h + [row];
    assert h'[|h|] == row;
    assert forall j :: 0 <= j < |h| ==> h'[j] == h[j];
    assert Mirrors(row, r.device) && InProgress(r.device.otaStatus) <==> Untouched(r.device, job);
    hide Mirrors, Untouched, InProgress;
    assert Increasing(h') <==> forall j :: 0 <= j < |h| ==> h[j].requestedAt < job.at;
    assert (forall k :: 0 <= k < |h'| - 1 ==> !h'[k].IsOpen()) <==> !HasOpen(h);
  }

  lemma MoveAgreesExactly(l: Flight, move: Move)
    requires Proper(l.record) && Distinct(l) && InTime(l, move) && Agrees(l.record)
    ensures Agrees(Moved(l, move).record) <==> !Disturbs(l, move)
  {
    match move
    case Publish(_, _, _, _, _) =>
    case Receive(report, now) =>
      hide ParseOtaStatus, Next, Agrees;
      if Disturbs(l, move) {
        IdleBreaks(l.record, report, now);
      } else {
        NextKeepsAgrees(l.record, Status(report, now));
      }
    case SaveDevice(k) =>
      var h := l.record.history;
      if k < |l.jobs| && HasOpen(h) {
        assert h[|h| - 1].IsOpen();
      }
    case SaveRow(k) =>
      if k < |l.jobs| {
        RowAgreesExactly(l.record, l.jobs[k]);
        hide Agrees, Untouched, SameOwner;
      }
  }

  predicate AlwaysAgrees(l: Flight, moves: seq<Move>) {
    Agrees(Play(l, moves).record) && (moves != [] ==> AlwaysAgrees(l, moves[..|moves| - 1]))
  }

  predicate NeverDisturbed(l: Flight, moves: seq<Move>) {
    moves == [] ||
    var init, move := moves[..|moves| - 1], moves[|moves| - 1];
    NeverDisturbed(l, init) && !Disturbs(Play(l, init), move)
  }

  lemma {:induction false} PlayKeepsDistinct(l: Flight, moves: seq<Move>)
    requires Registered(l.record) && l.jobs == [] && TimelyRun(l, moves)
    ensures Proper(Play(l, moves).record) && Distinct(Play(l, moves))
  {
    if moves == [] {
    } else {
      PlayKeepsDistinct(l, moves[..|moves| - 1]);
      MoveKeepsDistinct(Play(l, moves[..|moves| - 1]), moves[|moves| - 1]);
      hide Moved, Proper, Distinct, InTime;
    }
  }

  /** Over every interleaving of triggers, at increasing times, with each other and with reports,
      the cached fields agree with the history throughout if and only if no move disturbs them. */
  lemma {:induction false} TriggersInterleavedExactly(l: Flight, moves: seq<Move>)
    requires Registered(l.record) && l.jobs == [] && TimelyRun(l, moves)
    ensures AlwaysAgrees(l, moves) <==> NeverDisturbed(l, moves)
  {
    if moves == [] {
    } else {
      var init, move := moves[..|moves| - 1], moves[|moves| - 1];
      TriggersInterleavedExactly(l, init);
      PlayKeepsDistinct(l, init);
      hide Moved, Proper, Distinct, InTime, Disturbs, Agrees, Registered;
      if AlwaysAgrees(l, init) {
        MoveAgreesExactly(Play(l, init), move);
      }
    }
  }

  // ---------------------------------------------------------------- what goes wrong

  /** The two saves of the first trigger under way. */
  lemma SavesFollow(r: Record, jobs: seq<Job>)
    requires jobs != [] && !jobs[0].saved
    ensures Moved(Moved(Flight(r, jobs), SaveDevice(0)), SaveRow(0))
            == Flight(Record(jobs[0].SavedDevice(), r.history + [jobs[0].Row()]), jobs[1..])
  {
    assert jobs[0 := jobs[0].(saved := true)][1..] == jobs[1..];
  }

  /** Two triggers that have both read the row before either saved it open two rows. */
  lemma SecondTriggerIsNotStopped(r: Record, userId: string, f: Firmware)
    requires Registered(r) && r.device.userId == userId && r.device.pushChannel == Kafka
    requires f.isActive && f.templateId == r.device.templateId
    ensures var both := Moved(Moved(Flight(r, []), Publish(userId, Some(f), true, true, 1)), Publish(userId, Some(f), true, true, 2));
            var first := Moved(Moved(both, SaveDevice(0)), SaveRow(0));
            !OneOpen(Moved(Moved(first, SaveDevice(0)), SaveRow(0)).record.history)
  {
    var jobs := [Job(r.device, f, 1, false), Job(r.device, f, 2, false)];
    var one := Moved(Flight(r, []), Publish(userId, Some(f), true, true, 1));
    assert one == Flight(r, [jobs[0]]);
    assert Moved(one, Publish(userId, Some(f), true, true, 2)) == Flight(r, jobs);
    hide Moved;
    SavesFollow(r, jobs);
    assert jobs[1..] == [jobs[1]] && [jobs[1]][1..] == [];
    var first := Record(jobs[0].SavedDevice(), r.history + [jobs[0].Row()]);
    SavesFollow(first, [jobs[1]]);
    var history := first.history + [jobs[1].Row()];
    assert history[0].IsOpen() && history[1].IsOpen();
  }

  /** A report that arrives after the publish but before the save leaves no trace: the save puts
      back every column as it was read, the installed version included. */
  lemma ReportBeforeSaveIsLost(l: Flight, report: Report, now: int, k: nat)
    requires !HasOpen(l.record.history) && k < |l.jobs| && !l.jobs[k].saved
    ensures Moved(Moved(l, Receive(report, now)), SaveDevice(k)) == Moved(l, SaveDevice(k))
  {
    hide LatestIndex, ParseOtaStatus, ClampProgress;
  }
}
