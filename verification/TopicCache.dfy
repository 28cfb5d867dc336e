/** Reverse lookup of custom MQTT topics and the in-memory cache in front of it. */
module TopicCache {
  import opened Wrappers
  import MqttTopics

  // ---------------------------------------------------------------- the lookup

  datatype Role = Telemetry | Status | Event | Command

  datatype Resolved = Resolved(deviceId: string, role: Role)

  /** `config.mqtt.topics`: custom overrides; `channels` lists the topics of the channels. */
  datatype Topics = Topics(
    telemetry: string, status: Option<string>, event: Option<string>, command: Option<string>, ota: Option<string>,
    channels: seq<string>)

  /** A row of the device table; `topics` is absent when the device has no MQTT configuration. */
  datatype Row = Row(deviceId: string, isMqtt: bool, topics: Option<Topics>)

  /** The `WHERE` clause. */
  predicate Selects(row: Row, topic: string) {
    && row.isMqtt && row.topics.Some?
    && var t := row.topics.value;
       t.telemetry == topic || t.status == Some(topic) || t.event == Some(topic) || t.command == Some(topic)
       || t.ota == Some(topic) || topic in t.channels
  }

  /** The role chain; `None` when no field has the topic. */
  function RoleOf(t: Topics, topic: string): Option<Role> {
    if t.telemetry == topic then Some(Telemetry)
    else if t.status == Some(topic) then Some(Status)
    else if t.event == Some(topic) then Some(Event)
    else if t.command == Some(topic) || t.ota == Some(topic) || topic in t.channels then Some(Command)
    else None
  }

  /** `getOne`: the first selected row in table order. */
  function GetOne(db: seq<Row>, topic: string): Option<Row> {
    if db == [] then None else if Selects(db[0], topic) then Some(db[0]) else GetOne(db[1..], topic)
  }

  /** `resolveCustomMqttTopic`. */
  function Lookup(db: seq<Row>, topic: string): Option<Resolved> {
    var device := GetOne(db, topic);
    if device == None || device.value.topics == None then None
    else
      var role := RoleOf(device.value.topics.value, topic);
      if role == None then None else Some(Resolved(device.value.deviceId, role.value))
  }

  /** The lookup finds something exactly when some MQTT device has the topic in its overrides;
      the fallback for a selected row without a role is never taken. */
  lemma {:induction false} LookupExact(db: seq<Row>, topic: string)
    ensures Lookup(db, topic).Some? <==> exists k :: 0 <= k < |db| && Selects(db[k], topic)
    ensures Lookup(db, topic).Some? ==> exists k ::
              && 0 <= k < |db| && Selects(db[k], topic) && db[k].deviceId == Lookup(db, topic).value.deviceId
              && RoleOf(db[k].topics.value, topic) == Some(Lookup(db, topic).value.role)
              && (forall j :: 0 <= j < k ==> !Selects(db[j], topic))
  {
    if db == [] {
    } else {
      LookupExact(db[1..], topic);
      if Selects(db[0], topic) {
        assert RoleOf(db[0].topics.value, topic).Some?;
      } else {
        assert Lookup(db, topic) == Lookup(db[1..], topic);
        forall k | 0 < k < |db| && Selects(db[k], topic) ensures Selects(db[1..][k - 1], topic) { }
        if Lookup(db[1..], topic).Some? {
          var k :| && 0 <= k < |db[1..]| && Selects(db[1..][k], topic)
                   && db[1..][k].deviceId == Lookup(db, topic).value.deviceId
                   && RoleOf(db[1..][k].topics.value, topic) == Some(Lookup(db, topic).value.role)
                   && (forall j :: 0 <= j < k ==> !Selects(db[1..][j], topic));
          assert Selects(db[k + 1], topic);
          forall j | 0 <= j < k + 1 ensures !Selects(db[j], topic) { assert j > 0 ==> db[j] == db[1..][j - 1]; }
        }
      }
    }
  }

  /** All topics that the overrides name, in whichever field. */
  function NamedTopics(t: Topics): set<string> {
    {t.telemetry}
    + (if t.status.Some? then {t.status.value} else {}) + (if t.event.Some? then {t.event.value} else {})
    + (if t.command.Some? then {t.command.value} else {}) + (if t.ota.Some? then {t.ota.value} else {})
    + (set c | c in t.channels)
  }

  /** The row is that of an MQTT device whose overrides name the topic. */
  predicate Names(row: Row, topic: string) {
    row.isMqtt && row.topics.Some? && topic in NamedTopics(row.topics.value)
  }

  /** The role of a topic, by the field that has it; the uplink fields come before each other in
      the order telemetry, status, event, and everything else is downlink. */
  predicate HasRole(t: Topics, topic: string, role: Role) {
    && (role == Telemetry <==> t.telemetry == topic)
    && (role == Status <==> t.status == Some(topic) && t.telemetry != topic)
    && (role == Event <==> t.event == Some(topic) && t.telemetry != topic && t.status != Some(topic))
    && (role == Command <==> t.telemetry != topic && t.status != Some(topic) && t.event != Some(topic))
  }

  lemma SelectsExactly(row: Row, topic: string)
    ensures Selects(row, topic) <==> Names(row, topic)
    ensures Selects(row, topic) ==>
              RoleOf(row.topics.value, topic).Some? && HasRole(row.topics.value, topic, RoleOf(row.topics.value, topic).value)
  {
  }

  /** The lookup on the fields of the table: the first MQTT device that names the topic in any of
      its overrides is found, in the role of the field that has it; none is found exactly when no
      MQTT device names the topic. */
  lemma LookupByFields(db: seq<Row>, topic: string)
    ensures Lookup(db, topic) == None <==> forall k :: 0 <= k < |db| ==> !Names(db[k], topic)
    ensures forall k :: 0 <= k < |db| && Names(db[k], topic) && (forall j :: 0 <= j < k ==> !Names(db[j], topic)) ==>
              && Lookup(db, topic).Some? && Lookup(db, topic).value.deviceId == db[k].deviceId
              && HasRole(db[k].topics.value, topic, Lookup(db, topic).value.role)
  {
    LookupExact(db, topic);
    forall k | 0 <= k < |db|
      ensures Selects(db[k], topic) <==> Names(db[k], topic)
      ensures Selects(db[k], topic) ==>
                RoleOf(db[k].topics.value, topic).Some?
                && HasRole(db[k].topics.value, topic, RoleOf(db[k].topics.value, topic).value)
    {
      SelectsExactly(db[k], topic);
    }
    hide Lookup, Selects, Names, RoleOf, HasRole;
  }

  // ---------------------------------------------------------------- the cache

  /** `NEGATIVE_TTL_MS`. */
  const NEGATIVE_TTL := 60000

  datatype Cache = Cache(resolved: map<string, Resolved>, missedAt: map<string, int>)

  const EMPTY := Cache(map[], map[])

  function Cached(c: Cache, topic: string): Option<Resolved> {
    if topic in c.resolved then Some(c.resolved[topic]) else None
  }

  predicate RecentMiss(c: Cache, topic: string, now: int) {
    topic in c.missedAt && now - c.missedAt[topic] < NEGATIVE_TTL
  }

  function WithHit(c: Cache, topic: string, r: Resolved): Cache {
    Cache(c.resolved[topic := r], c.missedAt - {topic})
  }

  function WithMiss(c: Cache, topic: string, now: int): Cache {
    c.(missedAt := c.missedAt[topic := now])
  }

  /** What remembering a lookup's answer does. */
  function Record(c: Cache, topic: string, answer: Option<Resolved>, now: int): Cache {
    match answer
    case Some(r) => WithHit(c, topic, r)
    case None => WithMiss(c, topic, now)
  }

  /** Recording an answer changes the entries of its own topic only: a hit replaces what was there,
      a miss is stamped with its time. */
  lemma RecordExact(c: Cache, topic: string, answer: Option<Resolved>, now: int, other: string)
    ensures var c' := Record(c, topic, answer, now);
            && Cached(c', topic) == (if answer.Some? then answer else Cached(c, topic))
            && (topic in c'.missedAt <==> answer == None)
            && (answer == None ==> c'.missedAt[topic] == now)
            && (other != topic ==> Cached(c', other) == Cached(c, other))
            && (other != topic ==> (other in c'.missedAt <==> other in c.missedAt))
            && (other != topic && other in c.missedAt ==> c'.missedAt[other] == c.missedAt[other])
  {
  }

  class MqttTopicRegistryService {
    var resolved: map<string, Resolved>
    var missedAt: map<string, int>

    function Value(): Cache
      reads this
    {
      Cache(resolved, missedAt)
    }

    constructor ()
      ensures Value() == EMPTY
    {
      resolved, missedAt := map[], map[];
    }

    method Get(topic: string) returns (r: Option<Resolved>)
      ensures r == Cached(Value(), topic)
    {
      r := if topic in resolved then Some(resolved[topic]) else None;
    }

    method IsRecentMiss(topic: string, now: int) returns (recent: bool)
      ensures recent == RecentMiss(Value(), topic, now)
    {
      if topic !in missedAt { return false; }
      recent := now - missedAt[topic] < NEGATIVE_TTL;
    }

    method RecordHit(topic: string, r: Resolved)
      modifies this
      ensures Value() == WithHit(old(Value()), topic, r)
    {
      resolved := resolved[topic := r];
      missedAt := missedAt - {topic};
    }

    method RecordMiss(topic: string, now: int)
      modifies this
      ensures Value() == WithMiss(old(Value()), topic, now)
    {
      missedAt := missedAt[topic := now];
    }

    method Clear()
      modifies this
      ensures Value() == EMPTY
    {
      resolved := map[];
      missedAt := map[];
    }
  }

  class MqttController {
    const registry: MqttTopicRegistryService

    constructor (registry: MqttTopicRegistryService)
      ensures this.registry == registry
    {
      this.registry := registry;
    }

    /** `handleAny` on an incoming topic: the default shapes first, then the overrides. */
    method HandleAny(topic: string, db: seq<Row>, now: int) returns (handling: Handling)
      modifies registry
      ensures handling == HandlingOf(topic, Dispatched(old(registry.Value()), db, topic, now))
      ensures registry.Value() ==
              if IsCustom(topic) then AfterMessage(old(registry.Value()), db, topic, now) else old(registry.Value())
    {
      forall r: MqttTopics.Role, id ensures
        MqttTopics.ClassifyIn(MqttTopics.HANDLE_ANY_ORDER, topic) == MqttTopics.Default(r, id) <==> MqttTopics.Exec(r, topic) == Some(id)
      {
        ClassifiedBy(topic, r, id);
      }
      hide MqttTopics.ClassifyIn, MqttTopics.Exec, Dispatched, AfterMessage;
      var telemetry := MqttTopics.Exec(MqttTopics.Telemetry, topic);
      if telemetry.Some? { return RecordTelemetry(telemetry.value); }
      var status := MqttTopics.Exec(MqttTopics.Status, topic);
      if status.Some? { return DeviceStatus(status.value); }
      var event := MqttTopics.Exec(MqttTopics.Event, topic);
      if event.Some? { return ChannelEvent(event.value); }
      var otaStatus := MqttTopics.Exec(MqttTopics.OtaStatus, topic);
      if otaStatus.Some? { return OtaReport(otaStatus.value); }
      var command := MqttTopics.Exec(MqttTopics.Command, topic);
      var channel := MqttTopics.Exec(MqttTopics.ChannelCommand, topic);
      var ota := MqttTopics.Exec(MqttTopics.Ota, topic);
      if command.Some? || channel.Some? || ota.Some? { return Ignored; }
      var resolved := ResolveCustomTopic(topic, db, now);
      handling := DispatchByRole(resolved);
    }

    /** `resolveCustomTopic` without interruption; `dispatched` is what goes to `dispatchByRole`. */
    method ResolveCustomTopic(topic: string, db: seq<Row>, now: int) returns (dispatched: Option<Resolved>)
      modifies registry
      ensures dispatched == Dispatched(old(registry.Value()), db, topic, now)
      ensures registry.Value() == AfterMessage(old(registry.Value()), db, topic, now)
    {
      dispatched := registry.Get(topic);
      if dispatched.Some? { return; }
      var missed := registry.IsRecentMiss(topic, now);
      if missed { return None; }
      dispatched := Lookup(db, topic);
      if dispatched == None {
        registry.RecordMiss(topic, now);
      } else {
        registry.RecordHit(topic, dispatched.value);
      }
    }
  }

  // ---------------------------------------------------------------- where a message goes

  /** The service call an incoming message ends in. */
  datatype Handling =
    | RecordTelemetry(deviceId: string)
    | DeviceStatus(deviceId: string)
    | ChannelEvent(deviceId: string)
    | OtaReport(deviceId: string)
    | Ignored

  /** `dispatchByRole`; downlink topics are our own echo. */
  function DispatchByRole(r: Option<Resolved>): Handling {
    match r
    case None => Ignored
    case Some(Resolved(id, Telemetry)) => RecordTelemetry(id)
    case Some(Resolved(id, Status)) => DeviceStatus(id)
    case Some(Resolved(id, Event)) => ChannelEvent(id)
    case Some(Resolved(_, Command)) => Ignored
  }

  /** Where a topic goes, given what its custom lookup yields. */
  function HandlingOf(topic: string, custom: Option<Resolved>): Handling {
    match MqttTopics.ClassifyIn(MqttTopics.HANDLE_ANY_ORDER, topic)
    case Default(Telemetry, id) => RecordTelemetry(id)
    case Default(Status, id) => DeviceStatus(id)
    case Default(Event, id) => ChannelEvent(id)
    case Default(OtaStatus, id) => OtaReport(id)
    case Default(_, _) => Ignored
    case Custom => DispatchByRole(custom)
  }

  predicate IsCustom(topic: string) {
    MqttTopics.ClassifyIn(MqttTopics.HANDLE_ANY_ORDER, topic) == MqttTopics.Custom
  }

  /** The classification of a topic, from the outcomes of the seven tests. */
  lemma ClassifiedBy(topic: string, role: MqttTopics.Role, id: string)
    ensures MqttTopics.ClassifyIn(MqttTopics.HANDLE_ANY_ORDER, topic) == MqttTopics.Default(role, id)
            <==> MqttTopics.Exec(role, topic) == Some(id)
  {
    MqttTopics.ClassifyInExact(MqttTopics.HANDLE_ANY_ORDER, topic);
    MqttTopics.EveryRoleIsTested(role);
  }

  /** The cache answers without a lookup. */
  predicate Answers(c: Cache, topic: string, now: int) {
    topic in c.resolved || RecentMiss(c, topic, now)
  }

  function Dispatched(c: Cache, db: seq<Row>, topic: string, now: int): Option<Resolved> {
    if Answers(c, topic, now) then Cached(c, topic) else Lookup(db, topic)
  }

  function AfterMessage(c: Cache, db: seq<Row>, topic: string, now: int): Cache {
    if Answers(c, topic, now) then c else Record(c, topic, Lookup(db, topic), now)
  }

  /** A message whose lookup found nothing silences its topic for exactly 60 s; one whose lookup
      found something is answered from the cache from then on. */
  lemma AnswersAreRemembered(c: Cache, db: seq<Row>, topic: string, now: int, later: int)
    requires !Answers(c, topic, now)
    ensures var after := AfterMessage(c, db, topic, now);
            && (Lookup(db, topic) == None ==> (Answers(after, topic, later) <==> later < now + 60000))
            && (Lookup(db, topic).Some? ==> Answers(after, topic, later) && Cached(after, topic) == Lookup(db, topic))
  {
    RecordExact(c, topic, Lookup(db, topic), now, topic);
    hide Lookup;
  }

  // ---------------------------------------------------------------- which service call a message ends in

  /** Every default topic of a device reaches the service call of its kind, and downlink topics
      none, whatever the overrides say. */
  lemma DefaultTopicsAreHandled(id: string, channel: nat, custom: Option<Resolved>)
    requires MqttTopics.IsSegment(id)
    ensures HandlingOf("devices/" + id + "/telemetry", custom) == RecordTelemetry(id)
    ensures HandlingOf("devices/" + id + "/status", custom) == DeviceStatus(id)
    ensures HandlingOf("devices/" + id + "/event", custom) == ChannelEvent(id)
    ensures HandlingOf("devices/" + id + "/ota/status", custom) == OtaReport(id)
    ensures HandlingOf("devices/" + id + "/command", custom) == Ignored
    ensures HandlingOf("devices/" + id + "/ota", custom) == Ignored
    ensures HandlingOf("devices/" + id + ("/channel/" + MqttTopics.Decimal(channel) + "/command"), custom) == Ignored
  {
    hide MqttTopics.ClassifyIn, MqttTopics.DefaultTopic, MqttTopics.IsSegment;
    MqttTopics.DefaultTopicsAreSpelled(id, channel);
    forall r: MqttTopics.Role
      ensures MqttTopics.ClassifyIn(MqttTopics.HANDLE_ANY_ORDER, MqttTopics.DefaultTopic(r, id, channel)) == MqttTopics.Default(r, id)
    {
      MqttTopics.DefaultTopicsRoute(r, id, channel);
    }
  }

  /** A custom topic reaches the service call of the field that has it, on the first MQTT device
      that names it; a downlink field, or no device at all, reaches none. */
  lemma CustomTopicsAreHandled(db: seq<Row>, k: nat, topic: string)
    requires IsCustom(topic) && k <= |db| && forall j :: 0 <= j < k ==> !Names(db[j], topic)
    requires k < |db| ==> Names(db[k], topic)
    ensures var handling := HandlingOf(topic, Lookup(db, topic));
            if k == |db| then handling == Ignored
            else
              var id, t := db[k].deviceId, db[k].topics.value;
              handling == if t.telemetry == topic then RecordTelemetry(id)
                          else if t.status == Some(topic) then DeviceStatus(id)
                          else if t.event == Some(topic) then ChannelEvent(id)
                          else Ignored
  {
    LookupByFields(db, topic);
    hide Lookup, Names, MqttTopics.ClassifyIn;
  }
}
