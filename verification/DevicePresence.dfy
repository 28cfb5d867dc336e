/** Online/offline state, its events and the actuator state of devices: the four handlers of
    `DeviceService` that write `status`, `lastSeenAt` and `channelStates`. */
module DevicePresence {
  import opened Wrappers
  import opened Text

  // ---------------------------------------------------------------- data

  datatype Status = Online | Offline

  datatype Device = Device(status: Status, lastSeenAt: Option<int>, channelStates: map<string, string>)

  /** A device right after registration. */
  const NEW_DEVICE := Device(Offline, None, map[])

  /** `DEVICE_OFFLINE_THRESHOLD_MS`, and the period of the scheduler that sweeps. */
  const THRESHOLD := 60000
  const SWEEP_PERIOD := 10000

  datatype ChannelEvent = ChannelEvent(key: Option<string>, value: Option<string>, status: Option<string>)

  /** What makes a handler run for one device. The payload of a status message is `None` when
      it holds no string. A sweep carries the cutoff it queries with. */
  datatype Message =
    | Telemetry
    | StatusMessage(payload: Option<string>)
    | Channel(event: ChannelEvent)
    | SweepQuery(cutoff: int)

  datatype ActionResult = ActionResult(key: string, value: Option<string>, ok: bool)

  /** What a handler does to a device: the row it leaves, and the events it emits. */
  datatype Effect = Effect(device: Device, event: Option<Status>, result: Option<ActionResult>)

  function ParseStatus(payload: Option<string>): Option<Status> {
    if payload == None then None
    else
      var normalized := Upper(Trim(payload.value));
      if normalized == "ONLINE" then Some(Online) else if normalized == "OFFLINE" then Some(Offline) else None
  }

  /** `raw` is a word with white space around it that spells `name` in some case. */
  ghost predicate SpellsUpper(raw: string, name: string) {
    exists a, word, b :: Padded(raw, a, word, b) && Upper(word) == name
  }

  ghost predicate SpellsLower(raw: string, name: string) {
    exists a, word, b :: Padded(raw, a, word, b) && Lower(word) == name
  }

  lemma CaseKeepsSpace(c: char)
    ensures IsSpace(UpperChar(c)) == IsSpace(c) == IsSpace(LowerChar(c))
  {
  }

  lemma CaseKeepsTight(word: string)
    ensures Tight(Upper(word)) <==> Tight(word)
    ensures Tight(Lower(word)) <==> Tight(word)
  {
    if word != "" {
      CaseKeepsSpace(word[0]);
      CaseKeepsSpace(word[|word| - 1]);
      hide IsSpace, UpperChar, LowerChar;
    }
  }

  lemma SpellsUpperExact(raw: string, name: string)
    requires Tight(name)
    ensures Upper(Trim(raw)) == name <==> SpellsUpper(raw, name)
  {
    hide Upper, Trim, Tight, Padded;
    if a, word, b :| Padded(raw, a, word, b) && Upper(word) == name {
      CaseKeepsTight(word);
      TrimExact(raw, word);
    }
    TrimExact(raw, Trim(raw));
    if Upper(Trim(raw)) == name {
      var a, b :| Padded(raw, a, Trim(raw), b);
    }
  }

  lemma SpellsLowerExact(raw: string, name: string)
    requires Tight(name)
    ensures Lower(Trim(raw)) == name <==> SpellsLower(raw, name)
  {
    hide Lower, Trim, Tight, Padded;
    if a, word, b :| Padded(raw, a, word, b) && Lower(word) == name {
      CaseKeepsTight(word);
      TrimExact(raw, word);
    }
    TrimExact(raw, Trim(raw));
    if Lower(Trim(raw)) == name {
      var a, b :| Padded(raw, a, Trim(raw), b);
    }
  }

  /** A status is read from the words ONLINE and OFFLINE in any case and padding, and from nothing
      else. */
  lemma ParseStatusExact(payload: Option<string>)
    ensures ParseStatus(payload) == Some(Online) <==> payload.Some? && SpellsUpper(payload.value, "ONLINE")
    ensures ParseStatus(payload) == Some(Offline) <==> payload.Some? && SpellsUpper(payload.value, "OFFLINE")
  {
    hide Upper, Trim, SpellsUpper;
    if payload.Some? {
      SpellsUpperExact(payload.value, "ONLINE");
      SpellsUpperExact(payload.value, "OFFLINE");
    }
  }

  predicate Failed(e: ChannelEvent) {
    Lower(Trim(e.status.GetOr("ok"))) == "error"
  }

  /** An event reports a failure exactly when its status is the word `error` in any case and
      padding; without a status it does not. */
  lemma FailedExactly(e: ChannelEvent)
    ensures Failed(e) <==> e.status.Some? && SpellsLower(e.status.value, "error")
  {
    if e.status.Some? {
      SpellsLowerExact(e.status.value, "error");
    } else {
      TrimTight("ok");
      assert Lower("ok")[0] == 'o';
    }
    hide Lower, Trim, SpellsLower;
  }

  /** `event.key` in a condition: absent and empty keys count as no key. */
  predicate Keyed(e: ChannelEvent) {
    e.key.Some? && e.key.value != ""
  }

  predicate Stale(d: Device, cutoff: int) {
    d.status == Online && d.lastSeenAt.Some? && d.lastSeenAt.value < cutoff
  }

  /** The status a handler writes, decided on the row `seen` that it has read. */
  function Target(seen: Device, m: Message): Option<Status> {
    match m
    case Telemetry => Some(Online)
    case StatusMessage(payload) => ParseStatus(payload)
    case Channel(e) => if Failed(e) || Keyed(e) then Some(Online) else None
    case SweepQuery(cutoff) => if Stale(seen, cutoff) then Some(Offline) else None
  }

  /** A handler that has read `seen` and now writes to the row `stored`: it updates single
      columns, but takes the channel map and the decision to emit from what it has read. */
  function Handle(seen: Device, stored: Device, m: Message, now: int): Effect {
    match Target(seen, m)
    case None => Effect(stored, None, None)
    case Some(target) =>
      var device := stored.(status := target, lastSeenAt := if target == Online then Some(now) else stored.lastSeenAt);
      var event := if seen.status != target then Some(target) else None;
      if m.Channel? then
        if Failed(m.event) then
          Effect(device, event, if Keyed(m.event) then Some(ActionResult(m.event.key.value, m.event.value, false)) else None)
        else
          var value := m.event.value.GetOr("");
          Effect(device.(channelStates := seen.channelStates[m.event.key.value := value]), event,
                 Some(ActionResult(m.event.key.value, Some(value), true)))
      else Effect(device, event, None)
  }

  // ---------------------------------------------------------------- the store and its atomic steps

  datatype StatusEvent = StatusEvent(deviceId: string, status: Status, changedAt: int)

  datatype Store = Store(
    devices: map<string, Device>, events: seq<StatusEvent>, results: seq<(string, ActionResult)>)

  /** Applies an effect to device `id`. */
  function Commit(s: Store, id: string, e: Effect, now: int): Store {
    Store(s.devices[id := e.device],
          s.events + (if e.event.Some? then [StatusEvent(id, e.event.value, now)] else []),
          s.results + (if e.result.Some? then [(id, e.result.value)] else []))
  }

  /** One message handled without interruption; unclaimed devices have no row. */
  function Deliver(s: Store, id: string, m: Message, now: int): Store {
    if id !in s.devices then s else Commit(s, id, Handle(s.devices[id], s.devices[id], m, now), now)
  }

  /** `ids` lists the devices the sweep's query returns, in any order. */
  ghost predicate ListsStale(s: Store, ids: seq<string>, cutoff: int) {
    && (forall i, j :: 0 <= i < j < |ids| ==> ids[i] != ids[j])
    && (forall id :: id in ids <==> id in s.devices && Stale(s.devices[id], cutoff))
  }

  function MarkOffline(devices: map<string, Device>, ids: seq<string>): map<string, Device> {
    map id | id in devices :: if id in ids then devices[id].(status := Offline) else devices[id]
  }

  function OfflineEvents(ids: seq<string>, now: int): (events: seq<StatusEvent>)
    ensures |events| == |ids|
    ensures forall k :: 0 <= k < |ids| ==> events[k] == StatusEvent(ids[k], Offline, now)
  {
    if ids == [] then [] else OfflineEvents(ids[..|ids| - 1], now) + [StatusEvent(ids[|ids| - 1], Offline, now)]
  }

  function Swept(s: Store, ids: seq<string>, now: int): Store {
    Store(MarkOffline(s.devices, ids), s.events + OfflineEvents(ids, now), s.results)
  }

  // ---------------------------------------------------------------- the service

  class DeviceService {
    var devices: map<string, Device>
    var events: seq<StatusEvent>
    var results: seq<(string, ActionResult)>

    function State(): Store
      reads this
    {
      Store(devices, events, results)
    }

    constructor (devices: map<string, Device>)
      ensures State() == Store(devices, [], [])
    {
      this.devices, events, results := devices, [], [];
    }

    method RecordTelemetry(deviceId: string, now: int)
      modifies this
      ensures State() == Deliver(old(State()), deviceId, Telemetry, now)
    {
      if deviceId !in devices { return; }
      var device := devices[deviceId];
      var wasOffline := device.status != Online;
      devices := devices[deviceId := device.(lastSeenAt := Some(now), status := Online)];
      if wasOffline {
        events := events + [StatusEvent(deviceId, Online, now)];
      }
    }

    method HandleDeviceStatusMessage(deviceId: string, payload: Option<string>, now: int)
      modifies this
      ensures State() == Deliver(old(State()), deviceId, StatusMessage(payload), now)
    {
      if deviceId !in devices { return; }
      var device := devices[deviceId];
      var status := ParseStatus(payload);
      if status == None { return; }
      if status.value == Online {
        devices := devices[deviceId := device.(status := Online, lastSeenAt := Some(now))];
      } else {
        devices := devices[deviceId := device.(status := Offline)];
      }
      if status.value != device.status {
        events := events + [StatusEvent(deviceId, status.value, now)];
      }
    }

    method HandleDeviceChannelEvent(deviceId: string, event: ChannelEvent, now: int)
      modifies this
      ensures State() == Deliver(old(State()), deviceId, Channel(event), now)
    {
      hide Lower, Trim;
      if deviceId !in devices { return; }
      var device := devices[deviceId];
      var wasOffline := device.status != Online;
      var failed := Failed(event);
      if failed {
        devices := devices[deviceId := device.(lastSeenAt := Some(now), status := Online)];
        if Keyed(event) {
          results := results + [(deviceId, ActionResult(event.key.value, event.value, false))];
        }
      } else if Keyed(event) {
        var value := event.value.GetOr("");
        var channelStates := device.channelStates[event.key.value := value];
        devices := devices[deviceId := device.(channelStates := channelStates, lastSeenAt := Some(now), status := Online)];
        results := results + [(deviceId, ActionResult(event.key.value, Some(value), true))];
      } else {
        return;
      }
      if wasOffline {
        events := events + [StatusEvent(deviceId, Online, now)];
      }
    }

    /** `staleDevices` is the answer of the query. */
    method SweepOfflineDevices(staleDevices: seq<string>, now: int)
      requires ListsStale(State(), staleDevices, now - THRESHOLD)
      modifies this
      ensures State() == Swept(old(State()), staleDevices, now)
    {
      if |staleDevices| == 0 {
        assert MarkOffline(devices, staleDevices) == devices;
        return;
      }
      devices := MarkOffline(devices, staleDevices);
      for k := 0 to |staleDevices|
        invariant devices == MarkOffline(old(devices), staleDevices) && results == old(results)
        invariant events == old(events) + OfflineEvents(staleDevices[..k], now)
      {
        events := events + [StatusEvent(staleDevices[k], Offline, now)];
        assert staleDevices[..k + 1][..k] == staleDevices[..k];
      }
      assert staleDevices[..|staleDevices|] == staleDevices;
    }
  }
}
