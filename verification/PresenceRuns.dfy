/** What every run of the presence handlers keeps: first with each handler atomic, then with
    handlers of one device interleaved at their awaits: after the read, and after the write. */
module PresenceRuns {
  import opened Wrappers
  import opened DevicePresence
  import opened Text

  // ---------------------------------------------------------------- atomic runs

  datatype Step = Arrival(id: string, m: Message, now: int) | Sweep(ids: seq<string>, now: int)

  ghost predicate Enabled(s: Store, step: Step) {
    match step
    case Arrival(_, m, _) => !m.SweepQuery?
    case Sweep(ids, now) => ListsStale(s, ids, now - THRESHOLD)
  }

  function Next(s: Store, step: Step): Store {
    match step
    case Arrival(id, m, now) => Deliver(s, id, m, now)
    case Sweep(ids, now) => Swept(s, ids, now)
  }

  function Run(s: Store, steps: seq<Step>): Store {
    if steps == [] then s else Next(Run(s, steps[..|steps| - 1]), steps[|steps| - 1])
  }

  ghost predicate Legal(s: Store, steps: seq<Step>) {
    steps == [] || (Legal(s, steps[..|steps| - 1]) && Enabled(Run(s, steps[..|steps| - 1]), steps[|steps| - 1]))
  }

  /** Device `id` has just been registered and nothing was ever emitted for it. */
  predicate FreshIn(s: Store, id: string) {
    id in s.devices && s.devices[id] == NEW_DEVICE && Log(s.events, id) == [] && Results(s.results, id) == []
  }

  /** The `device.status` events of one device. */
  function Log(events: seq<StatusEvent>, id: string): seq<Status> {
    if events == [] then []
    else
      var last := events[|events| - 1];
      Log(events[..|events| - 1], id) + (if last.deviceId == id then [last.status] else [])
  }

  /** The `device.actionResult` events of one device. */
  function Results(results: seq<(string, ActionResult)>, id: string): seq<ActionResult> {
    if results == [] then []
    else
      var last := results[|results| - 1];
      Results(results[..|results| - 1], id) + (if last.0 == id then [last.1] else [])
  }

  lemma {:induction false} LogAppend(a: seq<StatusEvent>, b: seq<StatusEvent>, id: string)
    ensures Log(a + b, id) == Log(a, id) + Log(b, id)
  {
    if b == [] {
      assert a + b == a;
    } else {
      assert (a + b)[..|a + b| - 1] == a + b[..|b| - 1];
      LogAppend(a, b[..|b| - 1], id);
    }
  }

  lemma {:induction false} LogOfSweep(ids: seq<string>, now: int, id: string)
    requires forall i, j :: 0 <= i < j < |ids| ==> ids[i] != ids[j]
    ensures Log(OfflineEvents(ids, now), id) == if id in ids then [Offline] else []
  {
    if ids == [] {
    } else {
      var init, last := ids[..|ids| - 1], ids[|ids| - 1];
      var events := OfflineEvents(ids, now);
      assert events[..|events| - 1] == OfflineEvents(init, now);
      LogOfSweep(init, now, id);
      assert id in ids <==> id in init || id == last;
    }
  }

  /** The message through which a step reaches device `id`, if any. */
  function MessageFor(step: Step, id: string): Option<Message> {
    match step
    case Arrival(i, m, _) => if i == id then Some(m) else None
    case Sweep(_, now) => Some(SweepQuery(now - THRESHOLD))
  }

  /** Seen from one device, every step of the store is at most one handler run on its own row. */
  lemma NextForDevice(s: Store, step: Step, id: string)
    requires Enabled(s, step) && id in s.devices
    ensures id in Next(s, step).devices
    ensures var d, m := s.devices[id], MessageFor(step, id);
            var e := if m == None then Effect(d, None, None) else Handle(d, d, m.value, step.now);
            && Next(s, step).devices[id] == e.device
            && Log(Next(s, step).events, id) == Log(s.events, id) + (if e.event.Some? then [e.event.value] else [])
            && Results(Next(s, step).results, id) == Results(s.results, id) + (if e.result.Some? then [e.result.value] else [])
  {
    match step
    case Arrival(i, m, now) =>
      hide Handle, Log, Results;
      if i in s.devices {
        CommitForDevice(s, i, Handle(s.devices[i], s.devices[i], m, now), now, id);
      }
    case Sweep(ids, now) =>
      hide Log, Results;
      LogAppend(s.events, OfflineEvents(ids, now), id);
      LogOfSweep(ids, now, id);
  }

  lemma CommitForDevice(s: Store, i: string, e: Effect, now: int, id: string)
    requires i in s.devices && id in s.devices
    ensures var t := Commit(s, i, e, now);
            && id in t.devices && t.devices[id] == (if i == id then e.device else s.devices[id])
            && Log(t.events, id) == Log(s.events, id) + (if i == id && e.event.Some? then [e.event.value] else [])
            && Results(t.results, id) == Results(s.results, id) + (if i == id && e.result.Some? then [e.result.value] else [])
  {
    var t := Commit(s, i, e, now);
    assert s.events + [] == s.events && s.results + [] == s.results;
    assert Log(s.events, id) + [] == Log(s.events, id) && Results(s.results, id) + [] == Results(s.results, id);
    assert e.event.Some? ==> t.events[..|t.events| - 1] == s.events;
    assert e.result.Some? ==> t.results[..|t.results| - 1] == s.results;
  }

  // ---------------------------------------------------------------- events alternate

  /** ONLINE, OFFLINE, ONLINE, ... */
  predicate Alternates(log: seq<Status>) {
    forall k :: 0 <= k < |log| ==> log[k] == if k % 2 == 0 then Online else Offline
  }

  function LastStatus(log: seq<Status>): Status {
    if log == [] then Offline else log[|log| - 1]
  }

  /** The events alternate and the stored status is the last one emitted. */
  predicate Consistent(d: Device, log: seq<Status>) {
    Alternates(log) && d.status == LastStatus(log)
  }

  /** A handler that writes what it decided on `seen` keeps the events consistent exactly when
      the stored status is still the one it has read. */
  lemma HandleConsistentExactly(seen: Device, stored: Device, m: Message, now: int, log: seq<Status>)
    requires Consistent(stored, log)
    ensures var e := Handle(seen, stored, m, now);
            Consistent(e.device, log + (if e.event.Some? then [e.event.value] else []))
            <==> (Target(seen, m) == None || seen.status == stored.status)
  {
    var e := Handle(seen, stored, m, now);
    var log' := log + (if e.event.Some? then [e.event.value] else []);
    assert log' != [] && e.event.Some? ==> log'[|log|] == e.event.value;
    hide Target;
    if log != [] {
      assert log[|log| - 1] == if (|log| - 1) % 2 == 0 then Online else Offline;
    }
    if e.event.Some? && seen.status == stored.status {
      assert Alternates(log');
    }
    if e.event.Some? && Alternates(log') {
      assert log'[|log|] == if |log| % 2 == 0 then Online else Offline;
    }
  }

  /** Over every run of messages and sweeps, the status events of each device alternate, starting
      with ONLINE, and its stored status is the last event (OFFLINE if none). */
  lemma {:induction false} EventsAlternate(s: Store, steps: seq<Step>, id: string)
    requires FreshIn(s, id) && Legal(s, steps)
    ensures var s' := Run(s, steps); id in s'.devices && Consistent(s'.devices[id], Log(s'.events, id))
  {
    if steps == [] {
    } else {
      var init, step := steps[..|steps| - 1], steps[|steps| - 1];
      EventsAlternate(s, init, id);
      var t := Run(s, init);
      NextForDevice(t, step, id);
      if MessageFor(step, id).Some? {
        HandleConsistentExactly(t.devices[id], t.devices[id], MessageFor(step, id).value, step.now, Log(t.events, id));
      }
      hide Handle, Target, Log, Results;
      assert Log(t.events, id) + [] == Log(t.events, id);
    }
  }

  /** The warnings `handleStatusChange` sends: one per OFFLINE event at which the rule of the device
      is enabled; `enabled` is what the listener reads at each event. */
  function Warnings(log: seq<Status>, enabled: seq<bool>): nat
    requires |enabled| == |log|
  {
    if log == [] then 0 else (if log[0] == Offline && enabled[0] then 1 else 0) + Warnings(log[1..], enabled[1..])
  }

  /** An outage is a pair of events, ONLINE and then OFFLINE: those whose rule is enabled at the end. */
  function WarnedOutages(enabled: seq<bool>): nat {
    if |enabled| < 2 then 0 else (if enabled[1] then 1 else 0) + WarnedOutages(enabled[2..])
  }

  /** On alternating events there is exactly one warning for each outage at which the rule is
      enabled: one for every two events while it is, none while it is not. */
  lemma {:induction false} OneWarningPerOutage(log: seq<Status>, enabled: seq<bool>)
    requires Alternates(log) && |enabled| == |log|
    ensures Warnings(log, enabled) == WarnedOutages(enabled)
    ensures (forall k :: 0 <= k < |log| ==> enabled[k]) ==> Warnings(log, enabled) == |log| / 2
    ensures (forall k :: 0 <= k < |log| ==> !enabled[k]) ==> Warnings(log, enabled) == 0
    decreases |log|
  {
    if |log| < 2 {
      assert |log| == 1 ==> log[1..] == [];
    } else {
      OneWarningPerOutage(log[2..], enabled[2..]);
      assert log[1..][1..] == log[2..] && enabled[1..][1..] == enabled[2..];
    }
  }

  // ---------------------------------------------------------------- what the status and the events say

  /** The messages that prove the device is alive. */
  predicate Heard(m: Message) {
    match m
    case Telemetry => true
    case StatusMessage(payload) => ParseStatus(payload) == Some(Online)
    case Channel(e) => Failed(e) || Keyed(e)
    case SweepQuery(_) => false
  }

  /** The last word of a run on whether the device is there: a message that proves it alive, an
      OFFLINE message, or a sweep that lists it. */
  ghost function LastVerdict(steps: seq<Step>, id: string): Status {
    if steps == [] then Offline
    else
      var step := steps[|steps| - 1];
      if step.Sweep? && id in step.ids then Offline
      else if step.Arrival? && step.id == id && Heard(step.m) then Online
      else if step.Arrival? && step.id == id && step.m.StatusMessage? && step.m.payload.Some?
              && SpellsUpper(step.m.payload.value, "OFFLINE") then Offline
      else LastVerdict(steps[..|steps| - 1], id)
  }

  lemma StatusAfter(d: Device, m: Message, now: int)
    ensures Handle(d, d, m, now).device.status ==
            if m.SweepQuery? then if Stale(d, m.cutoff) then Offline else d.status
            else if Heard(m) then Online
            else if m.StatusMessage? && m.payload.Some? && SpellsUpper(m.payload.value, "OFFLINE") then Offline
            else d.status
  {
    hide ParseStatus, Failed, SpellsUpper;
    if m.StatusMessage? { ParseStatusExact(m.payload); }
  }

  /** Over every run, the stored status is the last word of the run on it. */
  lemma {:induction false} StatusIsLastVerdict(s: Store, steps: seq<Step>, id: string)
    requires FreshIn(s, id) && Legal(s, steps)
    ensures id in Run(s, steps).devices && Run(s, steps).devices[id].status == LastVerdict(steps, id)
  {
    if steps == [] {
    } else {
      hide Handle, Heard, Log, Results, Next, SpellsUpper;
      var init, step := steps[..|steps| - 1], steps[|steps| - 1];
      StatusIsLastVerdict(s, init, id);
      var t := Run(s, init);
      NextForDevice(t, step, id);
      if MessageFor(step, id).Some? {
        StatusAfter(t.devices[id], MessageFor(step, id).value, step.now);
      }
    }
  }

  /** The events a step adds carry its time, name a device whose status the step has changed, and
      say what it is now. */
  ghost predicate Reports(before: Store, step: Step, after: Store, e: StatusEvent) {
    && e.changedAt == step.now
    && e.deviceId in before.devices && e.deviceId in after.devices
    && before.devices[e.deviceId].status != e.status == after.devices[e.deviceId].status
  }

  lemma EventsReportChanges(s: Store, step: Step)
    requires Enabled(s, step)
    ensures var s' := Next(s, step);
            && |s.events| <= |s'.events| && s'.events[..|s.events|] == s.events
            && forall k :: |s.events| <= k < |s'.events| ==> Reports(s, step, s', s'.events[k])
  {
    hide ParseStatus, Failed;
    match step
    case Arrival(id, m, now) =>
    case Sweep(ids, now) =>
      var events := OfflineEvents(ids, now);
      forall k | |s.events| <= k < |Next(s, step).events| ensures Reports(s, step, Next(s, step), Next(s, step).events[k]) {
        assert Next(s, step).events[k] == events[k - |s.events|];
        assert ids[k - |s.events|] in ids;
      }
  }

  // ---------------------------------------------------------------- when a device was last heard

  /** A device proves itself alive by telemetry, by the word ONLINE, and by a channel event that
      reports a failure or names a channel. */
  lemma HeardExactly(m: Message)
    ensures Heard(m) <==>
            || m == Telemetry
            || (m.StatusMessage? && m.payload.Some? && SpellsUpper(m.payload.value, "ONLINE"))
            || (m.Channel? && m.event.status.Some? && SpellsLower(m.event.status.value, "error"))
            || (m.Channel? && m.event.key != None && m.event.key != Some(""))
  {
    hide ParseStatus, Failed, SpellsUpper, SpellsLower;
    match m
    case Telemetry =>
    case StatusMessage(payload) => ParseStatusExact(payload);
    case Channel(e) => FailedExactly(e);
    case SweepQuery(_) =>
  }

  /** What the comment on `handleDeviceChannelEvent` promises, that an event always leaves its device
      ONLINE, holds exactly when the device was ONLINE or the event names a key or a failure;
      otherwise the event is ignored altogether. */
  lemma ChannelEventMarksOnlineExactly(s: Store, id: string, e: ChannelEvent, now: int)
    requires id in s.devices
    ensures var s' := Deliver(s, id, Channel(e), now);
            var failed, keyed := e.status.Some? && SpellsLower(e.status.value, "error"), e.key != None && e.key != Some("");
            && (id in s'.devices && s'.devices[id].status == Online <==> s.devices[id].status == Online || failed || keyed)
            && (!failed && !keyed ==> s' == s)
  {
    FailedExactly(e);
    hide Failed, SpellsLower;
    assert s.devices[id := s.devices[id]] == s.devices;
  }

  /** A keyless event that reports no failure leaves an OFFLINE device OFFLINE. */
  lemma KeylessEventIsIgnored(id: string, now: int)
    ensures var s := Store(map[id := NEW_DEVICE], [], []);
            Deliver(s, id, Channel(ChannelEvent(None, Some("1"), None)), now) == s && s.devices[id].status == Offline
  {
    FailedExactly(ChannelEvent(None, Some("1"), None));
    ChannelEventMarksOnlineExactly(Store(map[id := NEW_DEVICE], [], []), id, ChannelEvent(None, Some("1"), None), now);
    hide Failed;
  }

  function LastHeard(steps: seq<Step>, id: string): Option<int> {
    if steps == [] then None
    else
      var step := steps[|steps| - 1];
      if step.Arrival? && step.id == id && Heard(step.m) then Some(step.now) else LastHeard(steps[..|steps| - 1], id)
  }

  /** A handler stamps the row exactly when it has heard the device. */
  lemma HandleHears(d: Device, m: Message, now: int)
    ensures var d' := Handle(d, d, m, now).device;
            && d'.lastSeenAt == (if Heard(m) then Some(now) else d.lastSeenAt)
            && (d'.status == Online ==> Heard(m) || d.status == Online)
    ensures m.SweepQuery? ==> !Heard(m)
  {
    hide ParseStatus, Failed;
  }

  /** `lastSeenAt` is the time of the last message heard, and an ONLINE device has one. */
  lemma {:induction false} LastSeenIsLastHeard(s: Store, steps: seq<Step>, id: string)
    requires FreshIn(s, id) && Legal(s, steps)
    ensures var s' := Run(s, steps);
            && id in s'.devices && s'.devices[id].lastSeenAt == LastHeard(steps, id)
            && (s'.devices[id].status == Online ==> s'.devices[id].lastSeenAt.Some?)
  {
    if steps == [] {
    } else {
      hide Handle, Heard, Log, Results, Next, Enabled;
      var init, step := steps[..|steps| - 1], steps[|steps| - 1];
      LastSeenIsLastHeard(s, init, id);
      var t := Run(s, init);
      NextForDevice(t, step, id);
      if MessageFor(step, id).Some? {
        HandleHears(t.devices[id], MessageFor(step, id).value, step.now);
      }
    }
  }

  /** A sweep turns a device OFFLINE exactly when it is ONLINE and was last heard more than the
      threshold ago; never earlier. */
  lemma SweepsExactlyTheSilent(s: Store, steps: seq<Step>, ids: seq<string>, now: int, id: string)
    requires FreshIn(s, id) && Legal(s, steps + [Sweep(ids, now)])
    ensures Run(s, steps).devices.Keys == Run(s, steps + [Sweep(ids, now)]).devices.Keys && id in Run(s, steps).devices
    ensures var before, after := Run(s, steps).devices[id], Run(s, steps + [Sweep(ids, now)]).devices[id];
            && (before.status == Online && after.status == Offline <==>
                  before.status == Online && LastHeard(steps, id).Some? && LastHeard(steps, id).value < now - 60000)
            && (before.status == Offline ==> after == before)
  {
    var all := steps + [Sweep(ids, now)];
    assert all[..|all| - 1] == steps;
    LastSeenIsLastHeard(s, steps, id);
    NextForDevice(Run(s, steps), Sweep(ids, now), id);
  }

  // ---------------------------------------------------------------- bounded detection

  function LastSweep(steps: seq<Step>, start: int): int {
    if steps == [] then start
    else if steps[|steps| - 1].Sweep? then steps[|steps| - 1].now
    else LastSweep(steps[..|steps| - 1], start)
  }

  function LastTime(steps: seq<Step>, start: int): int {
    if steps == [] then start else steps[|steps| - 1].now
  }

  /** Time never goes back, and no step comes more than a sweep period after the last sweep. */
  predicate OnTime(steps: seq<Step>, start: int) {
    steps == [] ||
    var init, now := steps[..|steps| - 1], steps[|steps| - 1].now;
    OnTime(init, start) && LastTime(init, start) <= now <= LastSweep(init, start) + 10000
  }

  /** While ONLINE, the device was last heard by `hi` and not before the threshold ahead of `lo`. */
  predicate SeenWithin(d: Device, lo: int, hi: int) {
    d.status == Online ==> d.lastSeenAt.Some? && lo - THRESHOLD <= d.lastSeenAt.value <= hi
  }

  lemma HandleKeepsSeen(d: Device, m: Message, lo: int, hi: int, now: int)
    requires SeenWithin(d, lo, hi) && lo <= hi <= now
    requires m.SweepQuery? ==> m.cutoff == now - THRESHOLD
    ensures SeenWithin(Handle(d, d, m, now).device, if m.SweepQuery? then now else lo, now)
  {
    hide ParseStatus, Failed;
  }

  lemma {:induction false} OnlineSinceSweep(s: Store, steps: seq<Step>, start: int, id: string)
    requires FreshIn(s, id) && Legal(s, steps) && OnTime(steps, start)
    ensures LastSweep(steps, start) <= LastTime(steps, start)
    ensures var d := Run(s, steps).devices;
            id in d && SeenWithin(d[id], LastSweep(steps, start), LastTime(steps, start))
  {
    if steps == [] {
    } else {
      var init, step := steps[..|steps| - 1], steps[|steps| - 1];
      OnlineSinceSweep(s, init, start, id);
      var t := Run(s, init);
      NextForDevice(t, step, id);
      if MessageFor(step, id).Some? {
        HandleKeepsSeen(t.devices[id], MessageFor(step, id).value, LastSweep(init, start), LastTime(init, start), step.now);
      }
      hide Handle, Log, Results, Next;
    }
  }

  /** With sweeps at most 10 s apart, a device last heard at `t` is OFFLINE at every moment after
      `t` + 70 s, until it is heard again. */
  lemma SilentDevicesGoOffline(s: Store, steps: seq<Step>, start: int, id: string, now: int)
    requires FreshIn(s, id) && Legal(s, steps) && OnTime(steps, start)
    requires LastTime(steps, start) <= now <= LastSweep(steps, start) + 10000
    requires LastHeard(steps, id) == None || now > LastHeard(steps, id).value + 70000
    ensures id in Run(s, steps).devices && Run(s, steps).devices[id].status == Offline
  {
    OnlineSinceSweep(s, steps, start, id);
    LastSeenIsLastHeard(s, steps, id);
  }

  // ---------------------------------------------------------------- actuator state

  /** The value the last non-failed event of the run gives to a channel of the device. */
  function LastValue(steps: seq<Step>, id: string, key: string): Option<string> {
    if steps == [] then None
    else
      var step := steps[|steps| - 1];
      if step.Arrival? && step.id == id && step.m.Channel? && !Failed(step.m.event) && Keyed(step.m.event)
         && step.m.event.key.value == key
      then Some(step.m.event.value.GetOr(""))
      else LastValue(steps[..|steps| - 1], id, key)
  }

  /** One action result for each event of the device with a key, in order. */
  function ResultsOf(steps: seq<Step>, id: string): seq<ActionResult> {
    if steps == [] then []
    else
      var step := steps[|steps| - 1];
      ResultsOf(steps[..|steps| - 1], id)
      + (if step.Arrival? && step.id == id && step.m.Channel? && Keyed(step.m.event)
         then var e := step.m.event;
              [ActionResult(e.key.value, if Failed(e) then e.value else Some(e.value.GetOr("")), !Failed(e))]
         else [])
  }

  /** After any run, the channel map holds for each key the value of the last non-failed event
      naming it and nothing else, and each event with a key has had exactly one action result. */
  lemma {:induction false} ChannelsHoldLastValues(s: Store, steps: seq<Step>, id: string)
    requires FreshIn(s, id) && Legal(s, steps)
    ensures id in Run(s, steps).devices
    ensures forall key :: var channels := Run(s, steps).devices[id].channelStates;
              if key in channels then LastValue(steps, id, key) == Some(channels[key]) else LastValue(steps, id, key) == None
    ensures Results(Run(s, steps).results, id) == ResultsOf(steps, id)
  {
    if steps == [] {
    } else {
      ChannelsHoldLastValues(s, steps[..|steps| - 1], id);
      NextForDevice(Run(s, steps[..|steps| - 1]), steps[|steps| - 1], id);
      hide ParseStatus, Failed, Log, Results;
    }
  }

  // ---------------------------------------------------------------- handlers interleaved at their awaits

  /** A handler between its read of the row and its write. */
  datatype Job = Job(seen: Device, m: Message)

  /** One device, the status events emitted for it, and the handlers under way: those that have
      read but not written, and the events of those that have written but not emitted, in the
      order of the writes. */
  datatype Local = Local(device: Device, log: seq<Status>, jobs: seq<Job>, pending: seq<Status>)

  /** A handler awaits its read, then its write, and only then emits. */
  datatype Move = Read(m: Message) | Write(k: nat, now: int) | Emit(k: nat)

  function Moved(l: Local, move: Move): Local {
    match move
    case Read(m) => l.(jobs := l.jobs + [Job(l.device, m)])
    case Write(k, now) =>
      if k >= |l.jobs| then l
      else
        var e := Handle(l.jobs[k].seen, l.device, l.jobs[k].m, now);
        l.(device := e.device, jobs := l.jobs[..k] + l.jobs[k + 1..],
           pending := l.pending + (if e.event.Some? then [e.event.value] else []))
    case Emit(k) =>
      if k >= |l.pending| then l
      else l.(log := l.log + [l.pending[k]], pending := l.pending[..k] + l.pending[k + 1..])
  }

  function Play(l: Local, moves: seq<Move>): Local {
    if moves == [] then l else Moved(Play(l, moves[..|moves| - 1]), moves[|moves| - 1])
  }

  /** The law at a moment: what has been emitted, followed by what is still to be emitted for the
      writes made so far, alternates and ends in the stored status. */
  predicate Faithful(l: Local) {
    Consistent(l.device, l.log + l.pending)
  }

  predicate AlwaysFaithful(l: Local, moves: seq<Move>) {
    Faithful(Play(l, moves)) && (moves != [] ==> AlwaysFaithful(l, moves[..|moves| - 1]))
  }

  /** A handler writes, though the status has changed since it was read. */
  predicate Overtaken(l: Local, move: Move) {
    && move.Write? && move.k < |l.jobs|
    && Target(l.jobs[move.k].seen, l.jobs[move.k].m).Some?
    && l.jobs[move.k].seen.status != l.device.status
  }

  /** A handler emits before one that has written earlier. */
  predicate Overtakes(l: Local, move: Move) {
    move.Emit? && 0 < move.k < |l.pending|
  }

  predicate Orderly(l: Local, moves: seq<Move>) {
    moves == [] ||
    var init, move := moves[..|moves| - 1], moves[|moves| - 1];
    Orderly(l, init) && !Overtaken(Play(l, init), move) && !Overtakes(Play(l, init), move)
  }

  lemma EmitKeepsOrderExactly(d: Device, log: seq<Status>, pending: seq<Status>, k: nat)
    requires Consistent(d, log + pending) && k < |pending|
    ensures Consistent(d, (log + [pending[k]]) + (pending[..k] + pending[k + 1..])) <==> k == 0
  {
    var before, after := log + pending, (log + [pending[k]]) + (pending[..k] + pending[k + 1..]);
    if k == 0 {
      assert after == before;
    } else {
      assert before[|log|] == after[|log| + 1] == pending[0];
    }
  }

  lemma MoveIsFaithfulExactly(l: Local, move: Move)
    requires Faithful(l)
    ensures Faithful(Moved(l, move)) <==> !Overtaken(l, move) && !Overtakes(l, move)
  {
    match move
    case Read(_) =>
    case Write(k, now) =>
      if k < |l.jobs| {
        var e := Handle(l.jobs[k].seen, l.device, l.jobs[k].m, now);
        HandleConsistentExactly(l.jobs[k].seen, l.device, l.jobs[k].m, now, l.log + l.pending);
        hide Handle, Target, Alternates;
        var more := if e.event.Some? then [e.event.value] else [];
        assert l.log + (l.pending + more) == (l.log + l.pending) + more;
      }
    case Emit(k) =>
      if k < |l.pending| { EmitKeepsOrderExactly(l.device, l.log, l.pending, k); }
  }

  /** Over every interleaving of the handlers of a device at their awaits, the law holds throughout
      if and only if no handler is overtaken between its read and its write, and events are
      emitted in the order of the writes. */
  lemma {:induction false} InterleavingsExactly(l: Local, moves: seq<Move>)
    requires Faithful(l)
    ensures AlwaysFaithful(l, moves) <==> Orderly(l, moves)
  {
    if moves == [] {
    } else {
      var init, move := moves[..|moves| - 1], moves[|moves| - 1];
      InterleavingsExactly(l, init);
      hide Faithful, Moved, Overtaken, Overtakes;
      if AlwaysFaithful(l, init) {
        MoveIsFaithfulExactly(Play(l, init), move);
      }
    }
  }

  // ---------------------------------------------------------------- what is visible of it

  /** The law for the events emitted so far alone: they alternate, and end in the stored status
      whenever no handler has an event left to emit. */
  predicate Visible(l: Local) {
    Alternates(l.log) && (l.pending == [] ==> l.device.status == LastStatus(l.log))
  }

  predicate AlwaysVisible(l: Local, moves: seq<Move>) {
    Visible(Play(l, moves)) && (moves != [] ==> AlwaysVisible(l, moves[..|moves| - 1]))
  }

  /** The moves that break it: emitting the status that was emitted last; emitting the only event
      left when the stored status is another one; and, with no event left, writing another status
      than the stored one without announcing it, because it is the one that was read. */
  predicate Misinforms(l: Local, move: Move) {
    match move
    case Read(_) => false
    case Emit(k) =>
      && k < |l.pending|
      && (l.pending[k] == LastStatus(l.log) || (|l.pending| == 1 && l.pending[k] != l.device.status))
    case Write(k, _) =>
      && k < |l.jobs| && l.pending == []
      && var target := Target(l.jobs[k].seen, l.jobs[k].m);
         target.Some? && l.jobs[k].seen.status == target.value != l.device.status
  }

  predicate NeverMisinforms(l: Local, moves: seq<Move>) {
    moves == [] ||
    var init, move := moves[..|moves| - 1], moves[|moves| - 1];
    NeverMisinforms(l, init) && !Misinforms(Play(l, init), move)
  }

  lemma AlternatesPush(log: seq<Status>, status: Status)
    requires Alternates(log)
    ensures Alternates(log + [status]) <==> status != LastStatus(log)
    ensures LastStatus(log + [status]) == status
  {
    var more := log + [status];
    assert more[|log|] == status;
    assert forall k :: 0 <= k < |log| ==> more[k] == log[k];
    assert log != [] ==> log[|log| - 1] == if (|log| - 1) % 2 == 0 then Online else Offline;
    if status != LastStatus(log) {
      assert Alternates(more);
    }
  }

  lemma MoveIsVisibleExactly(l: Local, move: Move)
    requires Visible(l)
    ensures Visible(Moved(l, move)) <==> !Misinforms(l, move)
  {
    match move
    case Read(_) =>
    case Write(_, _) => hide Target, Alternates;
    case Emit(k) =>
      if k < |l.pending| {
        AlternatesPush(l.log, l.pending[k]);
        hide Alternates;
      }
  }

  /** Over every interleaving, the events emitted alternate at every moment and match the status
      whenever none is left to emit, if and only if no move misinforms; keeping the order is enough. */
  lemma {:induction false} VisibleExactly(l: Local, moves: seq<Move>)
    requires Visible(l)
    ensures AlwaysVisible(l, moves) <==> NeverMisinforms(l, moves)
    ensures Faithful(l) && Orderly(l, moves) ==> AlwaysVisible(l, moves)
  {
    if moves == [] {
    } else {
      var init, move := moves[..|moves| - 1], moves[|moves| - 1];
      VisibleExactly(l, init);
      if AlwaysVisible(l, init) {
        MoveIsVisibleExactly(Play(l, init), move);
      }
      if Faithful(l) {
        InterleavingsExactly(l, moves);
        hide Visible, Faithful, Moved, Overtaken, Overtakes;
        if Orderly(l, moves) {
          FaithfulIsVisible(Play(l, moves));
        }
      }
    }
  }

  lemma FaithfulIsVisible(l: Local)
    requires Faithful(l)
    ensures Visible(l)
  {
    var all := l.log + l.pending;
    assert forall k :: 0 <= k < |l.log| ==> all[k] == l.log[k];
    assert l.pending == [] ==> all == l.log;
  }

  /** The shortest interleaving in which a handler is overtaken: two telemetry messages that both
      read the row of an OFFLINE device announce ONLINE twice. */
  lemma TwoTelemetriesAnnounceTwice(now: int)
    ensures var l := Local(NEW_DEVICE, [], [], []);
            var read := Moved(Moved(l, Read(Telemetry)), Read(Telemetry));
            Moved(Moved(Moved(Moved(read, Write(0, now)), Emit(0)), Write(0, now)), Emit(0)).log == [Online, Online]
  {
    var one := Moved(Local(NEW_DEVICE, [], [], []), Read(Telemetry));
    assert one.jobs == [Job(NEW_DEVICE, Telemetry)];
    var both := Moved(one, Read(Telemetry));
    assert both.jobs == [Job(NEW_DEVICE, Telemetry), Job(NEW_DEVICE, Telemetry)];
    var first := Moved(Moved(both, Write(0, now)), Emit(0));
    assert first.jobs == [Job(NEW_DEVICE, Telemetry)] && first.log == [Online] && first.pending == [];
    assert Moved(first, Write(0, now)).pending == [Online];
  }

  /** Telemetry writes ONLINE; before it emits, a status message reads that row and writes OFFLINE. */
  function BothWritten(now: int): Local {
    var telemetry := Moved(Moved(Local(NEW_DEVICE, [], [], []), Read(Telemetry)), Write(0, now));
    Moved(Moved(telemetry, Read(StatusMessage(Some("OFFLINE")))), Write(0, now))
  }

  lemma BothPending(now: int)
    ensures BothWritten(now) == Local(Device(Offline, Some(now), map[]), [], [], [Online, Offline])
  {
    var offline := StatusMessage(Some("OFFLINE"));
    OfflineIsRead();
    hide ParseStatus;
    var read := Moved(Local(NEW_DEVICE, [], [], []), Read(Telemetry));
    assert read.jobs == [Job(NEW_DEVICE, Telemetry)];
    var seen := Device(Online, Some(now), map[]);
    assert Moved(read, Write(0, now)) == Local(seen, [], [], [Online]);
    assert Moved(Moved(read, Write(0, now)), Read(offline)) == Local(seen, [], [Job(seen, offline)], [Online]);
  }

  lemma OfflineIsRead()
    ensures ParseStatus(Some("OFFLINE")) == Some(Offline)
  {
    TrimTight("OFFLINE");
    assert Upper("OFFLINE") == "OFFLINE";
  }

  /** Then the order of the two emissions decides: nobody has been overtaken between read and
      write, but if the later writer emits first, the events end in ONLINE for a device that is
      stored OFFLINE; in the order of the writes the overlap does no harm. */
  lemma LateEmissionInvertsTheEvents(now: int)
    ensures var l := BothWritten(now);
            && Moved(Moved(l, Emit(1)), Emit(0)) == l.(log := [Offline, Online], pending := [])
            && Moved(Moved(l, Emit(0)), Emit(0)) == l.(log := [Online, Offline], pending := [])
            && l.device.status == Offline && l.jobs == []
  {
    BothPending(now);
    hide BothWritten;
  }

  /** A channel event merges into the map it has read: the write loses no other channel exactly
      when the stored map still agrees with that one on all other keys. */
  lemma ChannelWriteExactly(seen: Device, stored: Device, e: ChannelEvent, now: int)
    requires Keyed(e) && !Failed(e)
    ensures Handle(seen, stored, Channel(e), now).device.channelStates == stored.channelStates[e.key.value := e.value.GetOr("")]
            <==> seen.channelStates - {e.key.value} == stored.channelStates - {e.key.value}
  {
    var k, v := e.key.value, e.value.GetOr("");
    var a, b := seen.channelStates, stored.channelStates;
    hide Failed;
    if a - {k} == b - {k} {
      assert a[k := v] == (a - {k})[k := v] == b[k := v];
    }
    if a[k := v] == b[k := v] {
      assert a - {k} == a[k := v] - {k} == b - {k};
    }
  }

  /** Every other handler leaves the stored map as it is, failed channel events included, whatever
      map it has read. */
  lemma OtherHandlersKeepChannels(seen: Device, stored: Device, m: Message, now: int)
    requires m.Channel? ==> Failed(m.event) || !Keyed(m.event)
    ensures Handle(seen, stored, m, now).device.channelStates == stored.channelStates
  {
    hide Failed, ParseStatus;
  }

  /** The shortest loss: two events for different channels read the same row; the second write
      takes the first channel away again. */
  lemma LaterWriteLosesChannel(now: int)
    ensures var a, b := ChannelEvent(Some("a"), Some("1"), None), ChannelEvent(Some("b"), Some("1"), None);
            var read := Moved(Moved(Local(NEW_DEVICE, [], [], []), Read(Channel(a))), Read(Channel(b)));
            && Moved(read, Write(0, now)).device.channelStates == map["a" := "1"]
            && Moved(Moved(read, Write(0, now)), Write(0, now)).device.channelStates == map["b" := "1"]
  {
    var a, b := ChannelEvent(Some("a"), Some("1"), None), ChannelEvent(Some("b"), Some("1"), None);
    FailedExactly(a);
    FailedExactly(b);
    hide Failed;
    var read := Moved(Moved(Local(NEW_DEVICE, [], [], []), Read(Channel(a))), Read(Channel(b)));
    assert read.jobs == [Job(NEW_DEVICE, Channel(a)), Job(NEW_DEVICE, Channel(b))];
    assert Moved(read, Write(0, now)).jobs == [Job(NEW_DEVICE, Channel(b))];
  }

  // ---------------------------------------------------------------- a sweep between its query and its update

  /** A sweep updates what its query has listed, without asking again: it turns OFFLINE a device
      that is not stale any more exactly when the device was stale at the query and has since been
      heard from, late enough to be ONLINE by right. */
  lemma SweepHitsHeardExactly(seen: Device, stored: Device, cutoff: int, now: int)
    requires stored.lastSeenAt.Some?
    ensures Handle(seen, stored, SweepQuery(cutoff), now).device.status == Offline && stored.status == Online && !Stale(stored, cutoff)
            <==> Stale(seen, cutoff) && stored.status == Online && seen.lastSeenAt.value < cutoff <= stored.lastSeenAt.value
  {
  }

  /** So a device can be swept at the very moment it is heard, in a run that keeps every order: the
      sweep reads a row that has just become stale, telemetry stamps it, and the sweep writes. */
  function HeardAndSwept(now: int): seq<Move> {
    [Read(SweepQuery(now - THRESHOLD))] + [Read(Telemetry)] + [Write(1, now)] + [Write(0, now)]
  }

  lemma HeardStates(now: int) returns (first: Local, second: Local, third: Local)
    ensures var start := Local(Device(Online, Some(now - THRESHOLD - 1), map[]), [Online], [], []);
            && Moved(start, Read(SweepQuery(now - THRESHOLD))) == first && !Overtaken(start, Read(SweepQuery(now - THRESHOLD)))
            && Moved(first, Read(Telemetry)) == second && !Overtaken(first, Read(Telemetry))
            && Moved(second, Write(1, now)) == third && !Overtaken(second, Write(1, now))
            && Moved(third, Write(0, now)).device == Device(Offline, Some(now), map[]) && !Overtaken(third, Write(0, now))
            && Moved(third, Write(0, now)).pending == [Offline]
  {
    var row := Device(Online, Some(now - THRESHOLD - 1), map[]);
    var start := Local(row, [Online], [], []);
    var sweep, telemetry := Job(row, SweepQuery(now - THRESHOLD)), Job(row, Telemetry);
    first := start.(jobs := [sweep]);
    second := start.(jobs := [sweep, telemetry]);
    third := Local(Device(Online, Some(now), map[]), [Online], [sweep], []);
  }

  lemma PlayPush(l: Local, moves: seq<Move>, move: Move)
    ensures Play(l, moves + [move]) == Moved(Play(l, moves), move)
    ensures Orderly(l, moves + [move]) <==>
            Orderly(l, moves) && !Overtaken(Play(l, moves), move) && !Overtakes(Play(l, moves), move)
  {
    assert (moves + [move])[..|moves|] == moves;
    hide Moved, Overtaken, Overtakes;
  }

  lemma HeardButSwept(now: int)
    ensures var start := Local(Device(Online, Some(now - THRESHOLD - 1), map[]), [Online], [], []);
            && Faithful(start) && Orderly(start, HeardAndSwept(now))
            && Play(start, HeardAndSwept(now)).device == Device(Offline, Some(now), map[])
            && Play(start, HeardAndSwept(now)).pending == [Offline]
  {
    var start := Local(Device(Online, Some(now - THRESHOLD - 1), map[]), [Online], [], []);
    var query := Read(SweepQuery(now - THRESHOLD));
    var first, second, third := HeardStates(now);
    assert Play(start, []) == start && Orderly(start, []) && [] + [query] == [query];
    hide Play, Orderly, Moved, Overtaken;
    PlayPush(start, [], query);
    PlayPush(start, [query], Read(Telemetry));
    PlayPush(start, [query] + [Read(Telemetry)], Write(1, now));
    PlayPush(start, [query] + [Read(Telemetry)] + [Write(1, now)], Write(0, now));
  }
}
