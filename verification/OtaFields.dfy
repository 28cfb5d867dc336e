/** What every cached field of a device and every field of its newest history row hold after a run,
    told from the triggers and reports of the run alone. */
module OtaFields {
  import opened Wrappers
  import opened OtaUpdates

  /** The status a step reports, if it is a recognised report. */
  function Said(step: Step): Option<OtaStatus> {
    if step.Status? then ParseOtaStatus(step.report.status) else None
  }

  // ---------------------------------------------------------------- the installed version

  /** The version of the last SUCCESS report that carries one, else the one at the start. */
  function InstalledVersion(start: Option<string>, steps: seq<Step>): Option<string> {
    if steps == [] then start
    else
      var last := steps[|steps| - 1];
      if Said(last) == Some(Success) && last.report.version.Some? then last.report.version
      else InstalledVersion(start, steps[..|steps| - 1])
  }

  /** Over every run at all, the installed version is the last one reported with a SUCCESS. */
  lemma {:induction false} InstalledVersionOverRuns(r: Record, steps: seq<Step>)
    ensures Run(r, steps).device.firmwareVersion == InstalledVersion(r.device.firmwareVersion, steps)
  {
    if steps == [] {
    } else {
      hide ParseOtaStatus, Accepts, LatestIndex, ClampProgress;
      InstalledVersionOverRuns(r, steps[..|steps| - 1]);
    }
  }

  // ---------------------------------------------------------------- the other cached fields

  /** The last trigger of the run that was accepted. */
  function LastTrigger(r: Record, steps: seq<Step>): Option<Step> {
    if steps == [] then None
    else
      var init, last := steps[..|steps| - 1], steps[|steps| - 1];
      if Accepts(Run(r, init), last) then Some(last) else LastTrigger(r, init)
  }

  /** 0 at an accepted trigger, 100 at a SUCCESS, else the last progress reported, as a percentage. */
  function LastProgress(r: Record, steps: seq<Step>): Option<int> {
    if steps == [] then r.device.otaProgress
    else
      var init, last := steps[..|steps| - 1], steps[|steps| - 1];
      if Accepts(Run(r, init), last) then Some(0)
      else if Said(last) == Some(Success) then Some(100)
      else if Said(last).Some? && last.report.progress.Some? then Some(ClampProgress(last.report.progress.value))
      else LastProgress(r, init)
  }

  /** The error of the last FAILED report, unless a trigger or a SUCCESS has come after it. */
  function LastError(r: Record, steps: seq<Step>): Option<string> {
    if steps == [] then r.device.otaError
    else
      var init, last := steps[..|steps| - 1], steps[|steps| - 1];
      if Accepts(Run(r, init), last) || Said(last) == Some(Success) then None
      else if Said(last) == Some(Failed) then Some(if last.report.error.Some? then last.report.error.value else "Unknown error")
      else LastError(r, init)
  }

  /** The time of the last accepted trigger or recognised report. */
  function LastTouch(r: Record, steps: seq<Step>): Option<int> {
    if steps == [] then r.device.otaUpdatedAt
    else
      var init, last := steps[..|steps| - 1], steps[|steps| - 1];
      if Accepts(Run(r, init), last) || Said(last).Some? then Some(last.now) else LastTouch(r, init)
  }

  lemma NextProgress(r: Record, step: Step)
    ensures Next(r, step).device.otaProgress ==
            if Accepts(r, step) then Some(0)
            else if Said(step) == Some(Success) then Some(100)
            else if Said(step).Some? && step.report.progress.Some? then Some(ClampProgress(step.report.progress.value))
            else r.device.otaProgress
  {
    hide ParseOtaStatus, TriggerOutcome, LatestIndex, ClampProgress;
  }

  lemma {:induction false} ProgressOverRuns(r: Record, steps: seq<Step>)
    ensures Run(r, steps).device.otaProgress == LastProgress(r, steps)
  {
    if steps == [] {
    } else {
      hide Said, Accepts, Next, ClampProgress;
      ProgressOverRuns(r, steps[..|steps| - 1]);
      NextProgress(Run(r, steps[..|steps| - 1]), steps[|steps| - 1]);
    }
  }

  lemma NextError(r: Record, step: Step)
    ensures var d := Next(r, step).device;
            if Accepts(r, step) then d.otaError == None && d.otaUpdatedAt == Some(step.now)
            else if Said(step) == None then d == r.device
            else
              && d.otaUpdatedAt == Some(step.now)
              && d.otaError == if Said(step) == Some(Success) then None
                               else if Said(step) != Some(Failed) then r.device.otaError
                               else Some(if step.report.error.Some? then step.report.error.value else "Unknown error")
  {
    hide ParseOtaStatus, TriggerOutcome, LatestIndex, ClampProgress;
  }

  lemma {:induction false} ErrorOverRuns(r: Record, steps: seq<Step>)
    ensures Run(r, steps).device.otaError == LastError(r, steps)
    ensures Run(r, steps).device.otaUpdatedAt == LastTouch(r, steps)
  {
    if steps == [] {
    } else {
      hide Said, Accepts, Next;
      ErrorOverRuns(r, steps[..|steps| - 1]);
      NextError(Run(r, steps[..|steps| - 1]), steps[|steps| - 1]);
    }
  }

  /** Over every run at all: the cached progress, error and time stamp are those told by the run. */
  lemma CachedFieldsOverRuns(r: Record, steps: seq<Step>)
    ensures var d := Run(r, steps).device;
            d.otaProgress == LastProgress(r, steps) && d.otaError == LastError(r, steps) && d.otaUpdatedAt == LastTouch(r, steps)
  {
    ProgressOverRuns(r, steps);
    ErrorOverRuns(r, steps);
  }

  lemma AcceptedHasFirmware(r: Record, step: Step)
    requires Accepts(r, step)
    ensures step.firmware.Some?
  {
  }

  /** What the device keeps of the trigger `t`, and what it never changes. */
  predicate Announces(d: Device, t: Option<Step>) {
    t.Some? ==>
      && t.value.Trigger? && t.value.firmware.Some?
      && d.otaTargetVersion == Some(t.value.firmware.value.version)
      && d.otaFirmwareId == Some(t.value.firmware.value.id)
      && d.otaRequestedAt == Some(t.value.now)
  }

  /** Over every run at all: target version, firmware and request time are those of the last
      accepted trigger, and neither triggers nor reports touch owner, template or push channel. */
  lemma {:induction false} TargetOverRuns(r: Record, steps: seq<Step>)
    ensures Announces(Run(r, steps).device, LastTrigger(r, steps))
    ensures var d := Run(r, steps).device;
            d.userId == r.device.userId && d.templateId == r.device.templateId && d.pushChannel == r.device.pushChannel
  {
    if steps == [] {
    } else {
      var init, last := steps[..|steps| - 1], steps[|steps| - 1];
      TargetOverRuns(r, init);
      if Accepts(Run(r, init), last) { AcceptedHasFirmware(Run(r, init), last); }
      hide ParseOtaStatus, Accepts, LatestIndex, ClampProgress;
    }
  }

  // ---------------------------------------------------------------- the newest row

  /** The report that ended the attempt of the last accepted trigger. */
  function Ending(r: Record, steps: seq<Step>): Option<Step> {
    if steps == [] then None
    else
      var init, last := steps[..|steps| - 1], steps[|steps| - 1];
      if Accepts(Run(r, init), last) then None
      else if Ending(r, init).Some? then Ending(r, init)
      else if LastTrigger(r, init).Some? && Said(last) in {Some(Success), Some(Failed)} then Some(last)
      else None
  }

  /** The time of the first DOWNLOADING or INSTALLING report on that attempt. */
  function Beginning(r: Record, steps: seq<Step>): Option<int> {
    if steps == [] then None
    else
      var init, last := steps[..|steps| - 1], steps[|steps| - 1];
      if Accepts(Run(r, init), last) then None
      else if Beginning(r, init).Some? || Ending(r, init).Some? then Beginning(r, init)
      else if LastTrigger(r, init).Some? && Said(last) in {Some(Downloading), Some(Installing)} then Some(last.now)
      else None
  }

  /** Row `a` is the one that trigger `t` opened, begun and ended as told. */
  predicate Records(a: Attempt, t: Step, beginning: Option<int>, ending: Option<Step>) {
    && t.Trigger? && t.firmware.Some?
    && a.firmwareId == t.firmware.value.id && a.toVersion == t.firmware.value.version && a.requestedAt == t.now
    && a.startedAt == beginning
    && match ending
       case None => a.completedAt == None && a.error == None
       case Some(e) =>
         && e.Status? && Said(e).Some?
         && a.completedAt == Some(e.now) && a.status == Said(e).value
         && a.error == if Said(e) == Some(Failed)
                       then Some(if e.report.error.Some? then e.report.error.value else "Unknown error") else None
  }

  /** What a step does to the newest row. */
  lemma NextNewestRow(r: Record, step: Step)
    requires Increasing(r.history)
    ensures var h, h' := r.history, Next(r, step).history;
            if Accepts(r, step) then
              && step.firmware.Some? && h' != []
              && h'[|h'| - 1] == Attempt(step.firmware.value.id, r.device.firmwareVersion, step.firmware.value.version,
                                         Pending, Some(0), None, step.now, None, None)
            else
              && |h'| == |h|
              && (h != [] ==>
                    h'[|h| - 1] == if Said(step).Some? && h[|h| - 1].IsOpen()
                                   then ReportedAttempt(h[|h| - 1], Next(r, step).device, step.now) else h[|h| - 1])
  {
    if r.history != [] { LatestIsLast(r.history); }
    hide LatestIndex, ParseOtaStatus, ClampProgress;
  }

  /** How a report is recorded on an open row. */
  lemma ReportIsRecorded(a: Attempt, d: Device, step: Step, t: Step, beginning: Option<int>)
    requires step.Status? && Said(step) == Some(d.otaStatus) && Records(a, t, beginning, None)
    requires d.otaStatus == Failed ==> d.otaError == Some(if step.report.error.Some? then step.report.error.value else "Unknown error")
    ensures Records(
              ReportedAttempt(a, d, step.now), t,
              if beginning.Some? then beginning else if d.otaStatus in {Downloading, Installing} then Some(step.now) else None,
              if d.otaStatus in {Success, Failed} then Some(step) else None)
  {
    hide ParseOtaStatus;
  }

  /** What a recognised report leaves in the cached status and error. */
  lemma ReportIsCached(r: Record, step: Step)
    requires Said(step).Some?
    ensures Next(r, step).device.otaStatus == Said(step).value
    ensures Said(step) == Some(Failed) ==>
              Next(r, step).device.otaError == Some(if step.report.error.Some? then step.report.error.value else "Unknown error")
  {
    hide ParseOtaStatus, LatestIndex, ClampProgress;
  }

  /** The newest row is as told, if there is one. */
  ghost predicate Told(h: seq<Attempt>, t: Option<Step>, beginning: Option<int>, ending: Option<Step>) {
    && (t == None <==> h == [])
    && (h != [] ==> Records(h[|h| - 1], t.value, beginning, ending))
  }

  /** How a step that is no accepted trigger moves what is told of an attempt on. */
  function EndedBy(t: Option<Step>, ending: Option<Step>, step: Step): Option<Step> {
    if ending.Some? then ending else if t.Some? && Said(step) in {Some(Success), Some(Failed)} then Some(step) else None
  }

  function BegunBy(t: Option<Step>, beginning: Option<int>, ending: Option<Step>, step: Step): Option<int> {
    if beginning.Some? || ending.Some? then beginning
    else if t.Some? && Said(step) in {Some(Downloading), Some(Installing)} then Some(step.now)
    else None
  }

  lemma TriggerIsTold(r: Record, step: Step)
    requires Increasing(r.history) && Accepts(r, step)
    ensures Told(Next(r, step).history, Some(step), None, None)
  {
    NextNewestRow(r, step);
    hide Next, Accepts;
  }

  lemma StepIsTold(r: Record, step: Step, t: Option<Step>, beginning: Option<int>, ending: Option<Step>)
    requires Increasing(r.history) && !Accepts(r, step) && Told(r.history, t, beginning, ending)
    ensures Told(Next(r, step).history, t, BegunBy(t, beginning, ending, step), EndedBy(t, ending, step))
  {
    NextNewestRow(r, step);
    hide Next, ReportedAttempt, Accepts, Increasing;
    if r.history != [] && Said(step).Some? && r.history[|r.history| - 1].IsOpen() {
      ReportIsCached(r, step);
      ReportIsRecorded(r.history[|r.history| - 1], Next(r, step).device, step, t.value, beginning);
    }
    hide ParseOtaStatus;
  }

  /** In every ordered run the newest row records the last accepted trigger: its firmware and
      time, when it began, and when and how it ended. */
  lemma {:induction false} NewestRowOverRuns(r: Record, steps: seq<Step>)
    requires Registered(r) && OrderedRun(r, steps)
    ensures Told(Run(r, steps).history, LastTrigger(r, steps), Beginning(r, steps), Ending(r, steps))
  {
    if steps == [] {
    } else {
      hide Told, Next, Said, Accepts, Mirrors, Proper, Registered, InOrder, Increasing;
      var init, last := steps[..|steps| - 1], steps[|steps| - 1];
      NewestRowOverRuns(r, init);
      RunKeepsTracked(r, init);
      if Accepts(Run(r, init), last) {
        TriggerIsTold(Run(r, init), last);
      } else {
        StepIsTold(Run(r, init), last, LastTrigger(r, init), Beginning(r, init), Ending(r, init));
      }
    }
  }

  // ---------------------------------------------------------------- what a trigger checks

  /** The checks of `triggerUpdate` in their order, each with the outcome it fails with. */
  function Checks(d: Device, userId: string, firmware: Option<Firmware>, mqttEnabled: bool, published: bool): seq<(bool, Outcome)> {
    [(d.userId == userId, DeviceNotFound),
     (firmware.Some?, FirmwareNotFound),
     (firmware.Some? && firmware.value.templateId == d.templateId, TemplateMismatch),
     (firmware.Some? && firmware.value.isActive, FirmwareInactive),
     (d.pushChannel in {Mqtt, Kafka}, ChannelUnsupported),
     (d.otaStatus !in {Pending, Downloading, Installing}, AlreadyInProgress),
     (d.pushChannel == Mqtt ==> mqttEnabled, MqttDisabled),
     (published, PublishFailed)]
  }

  /** A trigger is accepted exactly when all eight checks pass; else it fails with the first one
      that does not. */
  lemma TriggerChecksExactly(
    d: Device, userId: string, firmware: Option<Firmware>, mqttEnabled: bool, published: bool, k: nat)
    requires k < 8
    ensures var outcome, checks := TriggerOutcome(d, userId, firmware, mqttEnabled, published),
                                   Checks(d, userId, firmware, mqttEnabled, published);
            && |checks| == 8
            && (outcome == Accepted <==> forall j :: 0 <= j < 8 ==> checks[j].0)
            && (outcome == checks[k].1 <==> !checks[k].0 && forall j :: 0 <= j < k ==> checks[j].0)
  {
    var outcome, checks := TriggerOutcome(d, userId, firmware, mqttEnabled, published),
                           Checks(d, userId, firmware, mqttEnabled, published);
    assert checks[0].0 <==> d.userId == userId;
    assert checks[1].0 <==> firmware.Some?;
    assert checks[2].0 <==> firmware.Some? && firmware.value.templateId == d.templateId;
    assert checks[3].0 <==> firmware.Some? && firmware.value.isActive;
    assert checks[4].0 <==> d.pushChannel in {Mqtt, Kafka};
    assert checks[5].0 <==> !InProgress(d.otaStatus);
    assert checks[6].0 <==> (d.pushChannel == Mqtt ==> mqttEnabled);
    assert checks[7].0 <==> published;
  }
}
