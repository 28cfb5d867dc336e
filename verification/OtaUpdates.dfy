/** Firmware updates of devices: the cached `ota*` fields of a device against the history rows
    of its update attempts. Each handler is one atomic step; publishing is an input. */
module OtaUpdates {
  import opened Wrappers
  import opened Text

  // ---------------------------------------------------------------- data

  datatype OtaStatus = Idle | Pending | Downloading | Installing | Success | Failed

  /** `OTA_IN_PROGRESS_STATUSES`: these reject a second trigger. */
  predicate InProgress(status: OtaStatus) {
    status in {Pending, Downloading, Installing}
  }

  predicate Terminal(status: OtaStatus) {
    status in {Success, Failed}
  }

  datatype PushChannel = Mqtt | Http | Kafka

  datatype Firmware = Firmware(id: string, templateId: string, version: string, isActive: bool)

  datatype Device = Device(
    userId: string,
    templateId: string,
    pushChannel: PushChannel,
    firmwareVersion: Option<string>,
    otaStatus: OtaStatus,
    otaFirmwareId: Option<string>,
    otaTargetVersion: Option<string>,
    otaProgress: Option<int>,
    otaError: Option<string>,
    otaRequestedAt: Option<int>,
    otaUpdatedAt: Option<int>)

  /** A row of the update history. */
  datatype Attempt = Attempt(
    firmwareId: string,
    fromVersion: Option<string>,
    toVersion: string,
    status: OtaStatus,
    progress: Option<int>,
    error: Option<string>,
    requestedAt: int,
    startedAt: Option<int>,
    completedAt: Option<int>)
  {
    predicate IsOpen() {
      completedAt.None?
    }
  }

  /** A device with its history, in order of insertion. */
  datatype Record = Record(device: Device, history: seq<Attempt>)

  datatype Report = Report(status: Option<string>, version: Option<string>, progress: Option<real>, error: Option<string>)

  datatype Outcome =
    | Accepted
    | DeviceNotFound | FirmwareNotFound | TemplateMismatch | FirmwareInactive
    | ChannelUnsupported | AlreadyInProgress | MqttDisabled | PublishFailed

  datatype OtaEvent = OtaEvent(
    deviceId: string, status: OtaStatus, version: Option<string>, progress: Option<int>, error: Option<string>, changedAt: int)

  /** A device right after registration. */
  predicate Registered(r: Record) {
    && r.history == []
    && r.device.otaStatus == Idle && r.device.otaProgress == None && r.device.otaError == None
  }

  // ---------------------------------------------------------------- reading a report

  function Name(status: OtaStatus): string {
    match status
    case Idle => "IDLE"
    case Pending => "PENDING"
    case Downloading => "DOWNLOADING"
    case Installing => "INSTALLING"
    case Success => "SUCCESS"
    case Failed => "FAILED"
  }

  function ParseOtaStatus(raw: Option<string>): Option<OtaStatus> {
    if raw == None then None
    else
      var normalized := Upper(Trim(raw.value));
      if normalized == "IDLE" then Some(Idle)
      else if normalized == "PENDING" then Some(Pending)
      else if normalized == "DOWNLOADING" then Some(Downloading)
      else if normalized == "INSTALLING" then Some(Installing)
      else if normalized == "SUCCESS" then Some(Success)
      else if normalized == "FAILED" then Some(Failed)
      else None
  }

  /** `raw` is the name of `status` in some case, with white space around it. */
  ghost predicate Spells(raw: string, status: OtaStatus) {
    exists a, word, b :: Padded(raw, a, word, b) && Upper(word) == Name(status)
  }

  /** A status is read from its name in any case and padding, and from nothing else. */
  lemma ParseOtaStatusExact(raw: string, status: OtaStatus)
    ensures ParseOtaStatus(Some(raw)) == Some(status) <==> Spells(raw, status)
  {
    hide Upper, Trim, AllSpace;
    if Spells(raw, status) { ParsesNames(raw, status); }
    if ParseOtaStatus(Some(raw)) == Some(status) {
      assert Upper(Trim(raw)) == Name(status);
      TrimShape(raw);
      var a, b :| AllSpace(a) && AllSpace(b) && raw == a + Trim(raw) + b;
      assert Padded(raw, a, Trim(raw), b);
    }
  }

  lemma ParsesNames(raw: string, status: OtaStatus)
    requires Spells(raw, status)
    ensures ParseOtaStatus(Some(raw)) == Some(status)
  {
    hide Upper, Trim, AllSpace;
    var a, word, b :| Padded(raw, a, word, b) && Upper(word) == Name(status);
    NamesAreTight(word, status);
    TrimPadded(a, word, b);
  }

  lemma NamesAreTight(word: string, status: OtaStatus)
    requires Upper(word) == Name(status)
    ensures Tight(word)
  {
    assert UpperChar(word[0]) == Name(status)[0];
    assert UpperChar(word[|word| - 1]) == Name(status)[|word| - 1];
  }

  /** `Math.min(100, Math.max(0, Math.round(value)))`. */
  function ClampProgress(value: real): (p: int)
    ensures 0 <= p <= 100
    ensures 0.0 <= value <= 100.0 ==> p as real - 0.5 <= value < p as real + 0.5
    ensures (value < 0.0 ==> p == 0) && (value > 100.0 ==> p == 100)
  {
    var rounded := (value + 0.5).Floor;
    if rounded < 0 then 0 else if rounded > 100 then 100 else rounded
  }

  // ---------------------------------------------------------------- the two steps

  /** The row `findOne` returns when ordering by `requestedAt` descending. */
  function LatestIndex(history: seq<Attempt>): (i: nat)
    requires history != []
    ensures i < |history|
    ensures forall k :: 0 <= k < |history| ==> history[k].requestedAt <= history[i].requestedAt
  {
    var last := |history| - 1;
    if last == 0 then 0
    else
      var i := LatestIndex(history[..last]);
      assert forall k :: 0 <= k < last ==> history[..last][k] == history[k];
      if history[i].requestedAt <= history[last].requestedAt then last else i
  }

  function TriggerOutcome(d: Device, userId: string, firmware: Option<Firmware>, mqttEnabled: bool, published: bool): Outcome {
    if d.userId != userId then DeviceNotFound
    else if firmware == None then FirmwareNotFound
    else if firmware.value.templateId != d.templateId then TemplateMismatch
    else if !firmware.value.isActive then FirmwareInactive
    else if d.pushChannel == Http then ChannelUnsupported
    else if InProgress(d.otaStatus) then AlreadyInProgress
    else if d.pushChannel == Mqtt && !mqttEnabled then MqttDisabled
    else if !published then PublishFailed
    else Accepted
  }

  /** The record after an accepted trigger. */
  function Triggered(r: Record, f: Firmware, now: int): Record {
    var d := r.device.(
      otaStatus := Pending, otaFirmwareId := Some(f.id), otaTargetVersion := Some(f.version),
      otaProgress := Some(0), otaError := None, otaRequestedAt := Some(now), otaUpdatedAt := Some(now));
    Record(d, r.history + [Attempt(f.id, r.device.firmwareVersion, f.version, Pending, Some(0), None, now, None, None)])
  }

  function ReportedDevice(d: Device, status: OtaStatus, report: Report, now: int): Device {
    var progress := if report.progress.Some? then Some(ClampProgress(report.progress.value)) else d.otaProgress;
    d.(otaStatus := status,
       otaUpdatedAt := Some(now),
       otaProgress := if status == Success then Some(100) else progress,
       firmwareVersion := if status == Success && report.version.Some? then report.version else d.firmwareVersion,
       otaError := if status == Success then None
                   else if status == Failed then Some(report.error.GetOr("Unknown error"))
                   else d.otaError)
  }

  /** How an open row takes over the fields `d` of its device after a report. */
  function ReportedAttempt(a: Attempt, d: Device, now: int): Attempt {
    a.(status := d.otaStatus,
       progress := d.otaProgress,
       startedAt := if a.startedAt == None && d.otaStatus in {Downloading, Installing} then Some(now) else a.startedAt,
       completedAt := if Terminal(d.otaStatus) then Some(now) else None,
       error := if d.otaStatus == Failed then d.otaError else if d.otaStatus == Success then None else a.error)
  }

  /** The record after a report with a recognised status. */
  function Reported(r: Record, status: OtaStatus, report: Report, now: int): Record {
    var d := ReportedDevice(r.device, status, report, now);
    if r.history == [] then Record(d, [])
    else
      var i := LatestIndex(r.history);
      Record(d, if r.history[i].IsOpen() then r.history[i := ReportedAttempt(r.history[i], d, now)] else r.history)
  }

  // ---------------------------------------------------------------- the service

  class DeviceOtaService {
    var records: map<string, Record>
    var events: seq<OtaEvent>

    constructor (records: map<string, Record>)
      ensures this.records == records && events == []
    {
      this.records, events := records, [];
    }

    /** `triggerUpdate`; `published` tells whether the broker takes the command. */
    method TriggerUpdate(
      userId: string, deviceId: string, firmware: Option<Firmware>, now: int, mqttEnabled: bool, published: bool)
      returns (outcome: Outcome)
      modifies this
      ensures outcome == if deviceId !in old(records) then DeviceNotFound
                         else TriggerOutcome(old(records)[deviceId].device, userId, firmware, mqttEnabled, published)
      ensures outcome != Accepted ==> records == old(records) && events == old(events)
      ensures outcome == Accepted ==>
                && records == old(records)[deviceId := Triggered(old(records)[deviceId], firmware.value, now)]
                && events == old(events) + [OtaEvent(deviceId, Pending, Some(firmware.value.version), Some(0), None, now)]
    {
      if deviceId !in records { return DeviceNotFound; }
      var device := records[deviceId].device;
      if device.userId != userId { return DeviceNotFound; }
      if firmware == None { return FirmwareNotFound; }
      var f := firmware.value;
      if f.templateId != device.templateId { return TemplateMismatch; }
      if !f.isActive { return FirmwareInactive; }
      if device.pushChannel != Mqtt && device.pushChannel != Kafka { return ChannelUnsupported; }
      if InProgress(device.otaStatus) { return AlreadyInProgress; }
      if device.pushChannel != Kafka && !mqttEnabled { return MqttDisabled; }
      if !published { return PublishFailed; }

      device := device.(otaStatus := Pending);
      device := device.(otaFirmwareId := Some(f.id));
      device := device.(otaTargetVersion := Some(f.version));
      device := device.(otaProgress := Some(0));
      device := device.(otaError := None);
      device := device.(otaRequestedAt := Some(now));
      device := device.(otaUpdatedAt := Some(now));
      records := records[deviceId := records[deviceId].(device := device)];

      var row := Attempt(f.id, device.firmwareVersion, f.version, Pending, Some(0), None, now, None, None);
      records := records[deviceId := records[deviceId].(history := records[deviceId].history + [row])];
      events := events + [OtaEvent(deviceId, Pending, Some(f.version), Some(0), None, now)];
      return Accepted;
    }

    /** `handleOtaStatusReport`: an unknown device or status changes nothing. */
    method HandleOtaStatusReport(deviceId: string, report: Report, now: int)
      modifies this
      ensures deviceId !in old(records) || ParseOtaStatus(report.status) == None ==>
                records == old(records) && events == old(events)
      ensures deviceId in old(records) && ParseOtaStatus(report.status).Some? ==>
                var status := ParseOtaStatus(report.status).value;
                var after := Reported(old(records)[deviceId], status, report, now);
                && records == old(records)[deviceId := after]
                && events == old(events) + [OtaEvent(
                     deviceId, status, if report.version.Some? then report.version else after.device.firmwareVersion,
                     after.device.otaProgress, after.device.otaError, now)]
    {
      hide LatestIndex, ParseOtaStatus, ClampProgress;
      if deviceId !in records { return; }
      var parsed := ParseOtaStatus(report.status);
      if parsed == None { return; }
      var device, status := records[deviceId].device, parsed.value;
      var progress := if report.progress.Some? then Some(ClampProgress(report.progress.value)) else device.otaProgress;

      device := device.(otaStatus := status);
      device := device.(otaUpdatedAt := Some(now));
      device := device.(otaProgress := if status == Success then Some(100) else progress);
      if status == Success {
        device := device.(firmwareVersion := if report.version.Some? then report.version else device.firmwareVersion);
        device := device.(otaError := None);
      } else if status == Failed {
        device := device.(otaError := Some(report.error.GetOr("Unknown error")));
      }
      var history := records[deviceId].history;
      if history != [] {
        var i := LatestIndex(history);
        var latest := history[i];
        if latest.completedAt == None {
          latest := latest.(status := status);
          latest := latest.(progress := device.otaProgress);
          if latest.startedAt == None && (status == Downloading || status == Installing) {
            latest := latest.(startedAt := Some(now));
          }
          if status == Success || status == Failed {
            latest := latest.(completedAt := Some(now));
            latest := latest.(error := if status == Failed then device.otaError else None);
          }
          history := history[i := latest];
        }
      }
      records := records[deviceId := Record(device, history)];
      events := events + [OtaEvent(
        deviceId, status, if report.version.Some? then report.version else device.firmwareVersion,
        device.otaProgress, device.otaError, now)];
    }
  }

  // ---------------------------------------------------------------- runs

  datatype Step =
    | Trigger(userId: string, firmware: Option<Firmware>, mqttEnabled: bool, published: bool, now: int)
    | Status(report: Report, now: int)

  predicate Accepts(r: Record, step: Step) {
    step.Trigger? && TriggerOutcome(r.device, step.userId, step.firmware, step.mqttEnabled, step.published) == Accepted
  }

  /** One handler call on a registered device. */
  function Next(r: Record, step: Step): Record {
    match step
    case Trigger(_, firmware, _, _, now) => if Accepts(r, step) then Triggered(r, firmware.value, now) else r
    case Status(report, now) =>
      var status := ParseOtaStatus(report.status);
      if status == None then r else Reported(r, status.value, report, now)
  }

  function Run(r: Record, steps: seq<Step>): Record {
    if steps == [] then r else Next(Run(r, steps[..|steps| - 1]), steps[|steps| - 1])
  }

  // ---------------------------------------------------------------- what every run keeps

  predicate ProperProgress(p: Option<int>) {
    p.Some? ==> 0 <= p.value <= 100
  }

  predicate ProperAttempt(a: Attempt) {
    && (a.completedAt.Some? <==> Terminal(a.status))
    && (a.error.Some? <==> a.status == Failed)
    && (a.status == Success ==> a.progress == Some(100))
    && ProperProgress(a.progress)
  }

  predicate Proper(r: Record) {
    && ProperProgress(r.device.otaProgress)
    && (forall k :: 0 <= k < |r.history| ==> ProperAttempt(r.history[k]))
  }

  /** `b` is a later state of row `a`: its identity is kept, its start is written once, and a
      completed row is never touched again. */
  predicate Evolves(a: Attempt, b: Attempt) {
    && b.requestedAt == a.requestedAt && b.firmwareId == a.firmwareId
    && b.fromVersion == a.fromVersion && b.toVersion == a.toVersion
    && (a.startedAt.Some? ==> b.startedAt == a.startedAt)
    && (a.completedAt.Some? ==> b == a)
  }

  predicate HistoryEvolves(h: seq<Attempt>, h': seq<Attempt>) {
    |h| <= |h'| && forall k :: 0 <= k < |h| ==> Evolves(h[k], h'[k])
  }

  lemma NextKeepsRows(r: Record, step: Step)
    requires Proper(r)
    ensures Proper(Next(r, step)) && HistoryEvolves(r.history, Next(r, step).history)
  {
    hide LatestIndex, ParseOtaStatus, ClampProgress;
  }

  lemma {:induction false} RunKeepsProper(r: Record, steps: seq<Step>)
    requires Proper(r)
    ensures Proper(Run(r, steps))
  {
    if steps == [] {
    } else {
      RunKeepsProper(r, steps[..|steps| - 1]);
      NextKeepsRows(Run(r, steps[..|steps| - 1]), steps[|steps| - 1]);
    }
  }

  /** Over every run of triggers and reports whatsoever, at any times: rows stay proper, and no
      row changes between two points of the run except as `Evolves` allows. */
  lemma {:induction false} RowsOverRuns(r: Record, steps: seq<Step>, i: nat)
    requires Proper(r) && i <= |steps|
    ensures Proper(Run(r, steps))
    ensures HistoryEvolves(Run(r, steps[..i]).history, Run(r, steps).history)
    decreases |steps| - i
  {
    RunKeepsProper(r, steps);
    if i == |steps| {
      assert steps[..i] == steps;
    } else {
      RowsOverRuns(r, steps, i + 1);
      RunKeepsProper(r, steps[..i]);
      assert steps[..i + 1][..i] == steps[..i];
      NextKeepsRows(Run(r, steps[..i]), steps[i]);
    }
  }

  // ---------------------------------------------------------------- the cached fields against the history

  predicate HasOpen(h: seq<Attempt>) {
    exists k :: 0 <= k < |h| && h[k].IsOpen()
  }

  /** At most one open row. */
  predicate OneOpen(h: seq<Attempt>) {
    forall j, k :: 0 <= j < k < |h| ==> !h[j].IsOpen() || !h[k].IsOpen()
  }

  predicate Increasing(h: seq<Attempt>) {
    forall j, k :: 0 <= j < k < |h| ==> h[j].requestedAt < h[k].requestedAt
  }

  /** Triggers come at strictly increasing times. */
  predicate InOrder(r: Record, step: Step) {
    step.Trigger? ==> forall k :: 0 <= k < |r.history| ==> r.history[k].requestedAt < step.now
  }

  predicate OrderedRun(r: Record, steps: seq<Step>) {
    steps == [] || (OrderedRun(r, steps[..|steps| - 1]) && InOrder(Run(r, steps[..|steps| - 1]), steps[|steps| - 1]))
  }

  /** The newest row, while open, shows what the device caches. */
  predicate Mirrors(a: Attempt, d: Device) {
    a.IsOpen() ==>
      && a.status == d.otaStatus && a.progress == d.otaProgress
      && Some(a.toVersion) == d.otaTargetVersion && Some(a.firmwareId) == d.otaFirmwareId
      && Some(a.requestedAt) == d.otaRequestedAt && a.fromVersion == d.firmwareVersion
      && a.error == None && d.otaError == None
  }

  /** Kept by every ordered run, reports of `IDLE` included. */
  predicate Tracked(r: Record) {
    Increasing(r.history) && (r.history != [] ==> Mirrors(r.history[|r.history| - 1], r.device))
  }

  lemma LatestIsLast(h: seq<Attempt>)
    requires h != [] && Increasing(h)
    ensures LatestIndex(h) == |h| - 1
  {
    assert h[LatestIndex(h)].requestedAt >= h[|h| - 1].requestedAt;
  }

  lemma NextKeepsTracked(r: Record, step: Step)
    requires Proper(r) && Tracked(r) && InOrder(r, step)
    ensures Tracked(Next(r, step))
  {
    if r.history != [] { LatestIsLast(r.history); }
    hide LatestIndex, ParseOtaStatus, ClampProgress;
  }

  lemma {:induction false} RunKeepsTracked(r: Record, steps: seq<Step>)
    requires Registered(r) && OrderedRun(r, steps)
    ensures Proper(Run(r, steps)) && Tracked(Run(r, steps))
  {
    RunKeepsProper(r, steps);
    if steps == [] {
    } else {
      RunKeepsTracked(r, steps[..|steps| - 1]);
      NextKeepsTracked(Run(r, steps[..|steps| - 1]), steps[|steps| - 1]);
    }
  }

  /** An open row blocks the next trigger unless the device has reported `IDLE` meanwhile; so a
      step breaks "at most one open row" exactly when it is an accepted trigger in that case. */
  lemma SecondOpenRowExactly(r: Record, step: Step)
    requires Proper(r) && Tracked(r) && InOrder(r, step) && OneOpen(r.history)
    requires HasOpen(r.history) ==> NewestOpen(r.history)
    ensures OneOpen(Next(r, step).history) <==> !(Accepts(r, step) && HasOpen(r.history))
    ensures Accepts(r, step) && HasOpen(r.history) ==> r.device.otaStatus == Idle
    ensures HasOpen(Next(r, step).history) ==> NewestOpen(Next(r, step).history)
  {
    var h, h' := r.history, Next(r, step).history;
    if h != [] { LatestIsLast(h); }
    hide LatestIndex, ParseOtaStatus, ClampProgress;
    if Accepts(r, step) {
      assert h' == h + [h'[|h|]];
      if HasOpen(h) {
        assert h'[|h| - 1].IsOpen() && h'[|h|].IsOpen();
      }
    }
  }

  /** No report of the run reads as `IDLE`. */
  predicate NeverIdle(steps: seq<Step>) {
    forall k :: 0 <= k < |steps| && steps[k].Status? ==> ParseOtaStatus(steps[k].report.status) != Some(Idle)
  }

  /** The law the entity promises for its cached fields. */
  predicate Agrees(r: Record) {
    && Increasing(r.history)
    && (forall k :: 0 <= k < |r.history| - 1 ==> !r.history[k].IsOpen())
    && (r.history != [] && r.history[|r.history| - 1].IsOpen() ==>
          Mirrors(r.history[|r.history| - 1], r.device) && InProgress(r.device.otaStatus))
  }

  lemma ReportedKeepsAgrees(r: Record, status: OtaStatus, report: Report, now: int)
    requires Proper(r) && Agrees(r) && (status == Idle ==> !HasOpen(r.history))
    ensures Agrees(Reported(r, status, report, now))
  {
    hide LatestIndex, ClampProgress;
    if r.history != [] { LatestIsLast(r.history); }
  }

  lemma NextKeepsAgrees(r: Record, step: Step)
    requires Proper(r) && Agrees(r) && InOrder(r, step)
    requires step.Status? && ParseOtaStatus(step.report.status) == Some(Idle) ==> !HasOpen(r.history)
    ensures Agrees(Next(r, step))
  {
    hide LatestIndex, ParseOtaStatus, ClampProgress, Reported;
    match step
    case Trigger(_, _, _, _, _) =>
    case Status(report, now) =>
      var status := ParseOtaStatus(report.status);
      if status.Some? { ReportedKeepsAgrees(r, status.value, report, now); }
  }

  /** In every run of triggers at increasing times and reports other than `IDLE`, at most one row
      is open; it is the newest, equals the device's cached fields, and blocks a new trigger. */
  lemma {:induction false} RunsAgree(r: Record, steps: seq<Step>)
    requires Registered(r) && OrderedRun(r, steps) && NeverIdle(steps)
    ensures Agrees(Run(r, steps)) && OneOpen(Run(r, steps).history)
    ensures forall t: Step :: HasOpen(Run(r, steps).history) ==> !Accepts(Run(r, steps), t)
  {
    if steps == [] {
    } else {
      hide Next, Agrees, Proper, OneOpen, HasOpen, Accepts;
      var init := steps[..|steps| - 1];
      RunsAgree(r, init);
      RunKeepsProper(r, init);
      NextKeepsAgrees(Run(r, init), steps[|steps| - 1]);
    }
    AgreesMeansBlocked(Run(r, steps));
  }

  lemma AgreesMeansBlocked(r: Record)
    requires Agrees(r)
    ensures OneOpen(r.history)
    ensures forall t: Step :: HasOpen(r.history) ==> !Accepts(r, t)
  {
  }

  // ---------------------------------------------------------------- the two ways the law is lost

  /** The statuses recognised since the last accepted trigger; none before the first one. */
  function ReportsSince(r: Record, steps: seq<Step>): Option<seq<OtaStatus>> {
    if steps == [] then None
    else
      var init, last := steps[..|steps| - 1], steps[|steps| - 1];
      if Accepts(Run(r, init), last) then Some([])
      else if last.Status? && ParseOtaStatus(last.report.status).Some? && ReportsSince(r, init).Some? then
        Some(ReportsSince(r, init).value + [ParseOtaStatus(last.report.status).value])
      else ReportsSince(r, init)
  }

  /** The device has not reported an end of its attempt. */
  predicate Unfinished(reports: seq<OtaStatus>) {
    forall k :: 0 <= k < |reports| ==> !Terminal(reports[k])
  }

  /** The last report of an attempt; it starts as PENDING. */
  function LastWord(reports: seq<OtaStatus>): OtaStatus {
    if reports == [] then Pending else reports[|reports| - 1]
  }

  lemma UnfinishedPush(reports: seq<OtaStatus>, status: OtaStatus)
    ensures Unfinished(reports + [status]) <==> Unfinished(reports) && !Terminal(status)
    ensures LastWord(reports + [status]) == status
  {
    var all := reports + [status];
    assert all[|reports|] == status;
    assert forall k :: 0 <= k < |reports| ==> all[k] == reports[k];
  }

  /** The newest row of a history, while open. */
  predicate NewestOpen(h: seq<Attempt>) {
    h != [] && h[|h| - 1].IsOpen()
  }

  /** What one step does to the newest row and to the cached status. */
  lemma NextNewest(r: Record, step: Step)
    requires Increasing(r.history)
    ensures var s := Next(r, step);
            var status := if step.Status? then ParseOtaStatus(step.report.status) else None;
            if Accepts(r, step) then NewestOpen(s.history) && s.device.otaStatus == Pending
            else if status.Some? then
              && s.device.otaStatus == status.value && (s.history == [] <==> r.history == [])
              && (NewestOpen(s.history) <==> NewestOpen(r.history) && !Terminal(status.value))
            else s == r
  {
    if r.history != [] { LatestIsLast(r.history); }
    hide LatestIndex, ParseOtaStatus, ClampProgress, TriggerOutcome;
  }

  /** The reports since the last accepted trigger tell the state of the newest row and of the
      cached status. */
  ghost predicate Tells(reports: Option<seq<OtaStatus>>, r: Record) {
    match reports
    case None => r.history == []
    case Some(statuses) =>
      r.history != [] && (NewestOpen(r.history) <==> Unfinished(statuses)) && r.device.otaStatus == LastWord(statuses)
  }

  lemma {:induction false} ReportsTellState(r: Record, steps: seq<Step>)
    requires Registered(r) && OrderedRun(r, steps)
    ensures Tells(ReportsSince(r, steps), Run(r, steps))
  {
    if steps == [] {
    } else {
      var init, last := steps[..|steps| - 1], steps[|steps| - 1];
      ReportsTellState(r, init);
      RunKeepsTracked(r, init);
      NextNewest(Run(r, init), last);
      var reports := ReportsSince(r, init);
      assert Unfinished([]) && LastWord([]) == Pending;
      if reports.Some? && last.Status? && ParseOtaStatus(last.report.status).Some? {
        UnfinishedPush(reports.value, ParseOtaStatus(last.report.status).value);
      }
      hide Next, ParseOtaStatus, Accepts, NewestOpen, Mirrors, Increasing, Proper, InOrder, Registered, Unfinished, LastWord;
    }
  }

  /** A trigger is accepted while the device's last word on its unfinished attempt is `IDLE`. */
  predicate TriggerAfterIdle(r: Record, step: Step, reports: Option<seq<OtaStatus>>) {
    Accepts(r, step) && reports.Some? && Unfinished(reports.value) && LastWord(reports.value) == Idle
  }

  predicate TriggersAfterIdle(r: Record, steps: seq<Step>) {
    steps != [] &&
    var init, last := steps[..|steps| - 1], steps[|steps| - 1];
    TriggersAfterIdle(r, init) || TriggerAfterIdle(Run(r, init), last, ReportsSince(r, init))
  }

  predicate AlwaysOneOpen(r: Record, steps: seq<Step>) {
    OneOpen(Run(r, steps).history) && (steps != [] ==> AlwaysOneOpen(r, steps[..|steps| - 1]))
  }

  /** Over every run at increasing times, `IDLE` reports included, there is never more than one
      open row if and only if no trigger is accepted between an `IDLE` report and the end of the
      attempt that it belongs to. */
  lemma {:induction false} OneOpenExactly(r: Record, steps: seq<Step>)
    requires Registered(r) && OrderedRun(r, steps)
    ensures AlwaysOneOpen(r, steps) <==> !TriggersAfterIdle(r, steps)
    ensures var h := Run(r, steps).history;
            !TriggersAfterIdle(r, steps) && HasOpen(h) ==> NewestOpen(h)
  {
    if steps == [] {
    } else {
      hide Next, Proper, Tracked, Accepts, OneOpen, HasOpen, InOrder, Registered;
      var init, last := steps[..|steps| - 1], steps[|steps| - 1];
      OneOpenExactly(r, init);
      RunKeepsTracked(r, init);
      assert Run(r, steps) == Next(Run(r, init), last);
      hide Run;
      if !TriggersAfterIdle(r, init) {
        SecondOpenRowExactly(Run(r, init), last);
        OpenRowsAreNewest(Run(r, init).history);
        ReportsTellState(r, init);
        assert TriggerAfterIdle(Run(r, init), last, ReportsSince(r, init)) <==> Accepts(Run(r, init), last) && HasOpen(Run(r, init).history);
      }
    }
  }

  lemma OpenRowsAreNewest(h: seq<Attempt>)
    ensures NewestOpen(h) ==> HasOpen(h)
  {
  }

  lemma {:induction false} UpperOfUpper(s: string)
    requires forall i :: 0 <= i < |s| ==> 'A' <= s[i] <= 'Z'
    ensures Upper(s) == s
  {
    if s == "" {
    } else {
      UpperOfUpper(s[1..]);
      assert s == [s[0]] + s[1..];
    }
  }

  /** The name of a status is read as that status. */
  lemma NameIsRead(status: OtaStatus)
    ensures ParseOtaStatus(Some(Name(status))) == Some(status)
  {
    var name := Name(status);
    assert forall i :: 0 <= i < |name| ==> 'A' <= name[i] <= 'Z';
    hide Upper, Name, ParseOtaStatus;
    UpperOfUpper(name);
    assert Padded(name, "", name, "");
    ParsesNames(name, status);
  }

  lemma StatusesAreRead()
    ensures ParseOtaStatus(Some("IDLE")) == Some(Idle) && ParseOtaStatus(Some("PENDING")) == Some(Pending)
    ensures ParseOtaStatus(Some("DOWNLOADING")) == Some(Downloading) && ParseOtaStatus(Some("INSTALLING")) == Some(Installing)
    ensures ParseOtaStatus(Some("SUCCESS")) == Some(Success) && ParseOtaStatus(Some("FAILED")) == Some(Failed)
  {
    hide ParseOtaStatus;
    forall status ensures ParseOtaStatus(Some(Name(status))) == Some(status) { NameIsRead(status); }
  }

  /** The reachable case: an attempt, an `IDLE` report, and a second attempt beside the first. */
  lemma IdleReportLosesTrack(r: Record, userId: string, f: Firmware)
    requires Registered(r) && r.device.userId == userId && r.device.pushChannel == Kafka
    requires f.isActive && f.templateId == r.device.templateId
    ensures var trigger1 := Trigger(userId, Some(f), true, true, 1);
            var idle := Status(Report(Some(Name(Idle)), None, None, None), 2);
            var trigger2 := Trigger(userId, Some(f), true, true, 3);
            !OneOpen(Next(Next(Next(r, trigger1), idle), trigger2).history)
  {
    NameIsRead(Idle);
    hide ParseOtaStatus, Name, ClampProgress, LatestIndex;
    var r1 := Next(r, Trigger(userId, Some(f), true, true, 1));
    var r2 := Next(r1, Status(Report(Some(Name(Idle)), None, None, None), 2));
    var r3 := Next(r2, Trigger(userId, Some(f), true, true, 3));
    assert r3.history[0].IsOpen() && r3.history[1].IsOpen();
  }

  /** A row that is not the newest is never written again, so an open one stays open for good. */
  lemma {:induction false} OlderRowsAreFrozen(r: Record, steps: seq<Step>, i: nat, k: nat)
    requires Registered(r) && OrderedRun(r, steps) && i <= |steps|
    requires k + 1 < |Run(r, steps[..i]).history|
    ensures k + 1 < |Run(r, steps).history| && Run(r, steps).history[k] == Run(r, steps[..i]).history[k]
    decreases |steps|
  {
    if i == |steps| {
      assert steps[..i] == steps;
    } else {
      var init := steps[..|steps| - 1];
      assert init[..i] == steps[..i];
      OlderRowsAreFrozen(r, init, i, k);
      RunKeepsTracked(r, init);
      LatestIsLast(Run(r, init).history);
      hide LatestIndex, ParseOtaStatus, ClampProgress;
    }
  }

  /** "In flight" as the trigger's guard sees it, against the history. */
  predicate InFlightIsReal(r: Record) {
    InProgress(r.device.otaStatus) <==> HasOpen(r.history)
  }

  /** The two reports that mislead the guard: one of progress that arrives when no attempt is
      open, say after its `SUCCESS`, and one of `IDLE` while an attempt is open. */
  predicate Misleads(r: Record, step: Step) {
    && step.Status? && ParseOtaStatus(step.report.status).Some?
    && var status := ParseOtaStatus(step.report.status).value;
       if HasOpen(r.history) then status == Idle else InProgress(status)
  }

  predicate NeverMisled(r: Record, steps: seq<Step>) {
    steps == [] || (NeverMisled(r, steps[..|steps| - 1]) && !Misleads(Run(r, steps[..|steps| - 1]), steps[|steps| - 1]))
  }

  predicate AlwaysInFlightIsReal(r: Record, steps: seq<Step>) {
    InFlightIsReal(Run(r, steps)) && (steps != [] ==> AlwaysInFlightIsReal(r, steps[..|steps| - 1]))
  }

  predicate OlderClosed(h: seq<Attempt>) {
    forall k :: 0 <= k < |h| - 1 ==> !h[k].IsOpen()
  }

  lemma OpenIsNewest(h: seq<Attempt>)
    requires OlderClosed(h)
    ensures HasOpen(h) ==> NewestOpen(h)
  {
  }

  /** A step keeps the older rows closed unless it is a trigger accepted over an open row. */
  lemma NextKeepsClosed(r: Record, step: Step)
    requires Increasing(r.history) && OlderClosed(r.history)
    requires Accepts(r, step) ==> !NewestOpen(r.history)
    ensures OlderClosed(Next(r, step).history)
  {
    if r.history != [] { LatestIsLast(r.history); }
    hide LatestIndex, ParseOtaStatus, ClampProgress, TriggerOutcome;
  }

  lemma NextInFlight(r: Record, step: Step)
    requires Proper(r) && Agrees(r) && InOrder(r, step) && InFlightIsReal(r)
    ensures InFlightIsReal(Next(r, step)) <==> !Misleads(r, step)
  {
    NextNewest(r, step);
    NextKeepsClosed(r, step);
    hide Next, LatestIndex, ParseOtaStatus, NewestOpen, Mirrors, Increasing;
    OpenRowsAreNewest(r.history);
    OpenRowsAreNewest(Next(r, step).history);
    OpenIsNewest(r.history);
    OpenIsNewest(Next(r, step).history);
  }

  /** Over every run at increasing times, `IDLE` reports included, the guard of `triggerUpdate` is
      right about "an update is in flight" throughout if and only if no report misleads it; and
      in such a run the cached fields agree with the history. */
  lemma {:induction false} InFlightExactly(r: Record, steps: seq<Step>)
    requires Registered(r) && OrderedRun(r, steps)
    ensures AlwaysInFlightIsReal(r, steps) <==> NeverMisled(r, steps)
    ensures NeverMisled(r, steps) ==> Agrees(Run(r, steps)) && OneOpen(Run(r, steps).history)
  {
    if steps == [] {
    } else {
      var init, last := steps[..|steps| - 1], steps[|steps| - 1];
      InFlightExactly(r, init);
      RunKeepsProper(r, init);
      hide Next, Proper, Agrees, OneOpen, InFlightIsReal, Registered;
      if NeverMisled(r, init) {
        NextInFlight(Run(r, init), last);
        if !Misleads(Run(r, init), last) {
          NextKeepsAgrees(Run(r, init), last);
          AgreesMeansBlocked(Run(r, steps));
        }
      }
    }
  }

  /** After a late report every trigger is refused, however many are tried. */
  lemma {:induction false} StuckUntilReported(r: Record, triggers: seq<Step>)
    requires InProgress(r.device.otaStatus) && forall k :: 0 <= k < |triggers| ==> triggers[k].Trigger?
    ensures Run(r, triggers) == r
  {
    if triggers == [] {
    } else {
      StuckUntilReported(r, triggers[..|triggers| - 1]);
    }
  }

  /** A reachable case: an attempt that succeeds, and a DOWNLOADING report that comes after it. No
      row is open, yet every later trigger is refused. */
  lemma LateReportBlocks(r: Record, userId: string, f: Firmware, triggers: seq<Step>)
    requires Registered(r) && r.device.userId == userId && r.device.pushChannel == Kafka
    requires f.isActive && f.templateId == r.device.templateId
    requires forall k :: 0 <= k < |triggers| ==> triggers[k].Trigger?
    ensures var succeeded := Next(Next(r, Trigger(userId, Some(f), true, true, 1)), Status(Report(Some(Name(Success)), None, None, None), 2));
            var late := Next(succeeded, Status(Report(Some(Name(Downloading)), None, None, None), 3));
            !HasOpen(late.history) && InProgress(late.device.otaStatus) && Run(late, triggers) == late
  {
    NameIsRead(Success);
    NameIsRead(Downloading);
    hide ParseOtaStatus, Name, ClampProgress, LatestIndex;
    var triggered := Next(r, Trigger(userId, Some(f), true, true, 1));
    var succeeded := Next(triggered, Status(Report(Some(Name(Success)), None, None, None), 2));
    assert |succeeded.history| == 1 && !succeeded.history[0].IsOpen();
    var late := Next(succeeded, Status(Report(Some(Name(Downloading)), None, None, None), 3));
    assert late.history == succeeded.history;
    StuckUntilReported(late, triggers);
  }
}
