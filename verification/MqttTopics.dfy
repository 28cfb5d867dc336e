/** The default topics of a device, the regular expressions that read them back, and the
    order-free classification of an incoming topic. */
module MqttTopics {
  import opened Wrappers
  import opened Text

  datatype Role = Telemetry | Command | Status | Event | Ota | OtaStatus | ChannelCommand

  function Decimal(n: nat): (s: string)
    ensures s != "" && AllDigits(s)
  {
    if n < 10 then ['0' + n as char] else Decimal(n / 10) + ['0' + (n % 10) as char]
  }

  /** What follows the device id; only a channel command uses the channel number. */
  function Tail(role: Role, channel: nat): string {
    match role
    case Telemetry => "/telemetry"
    case Command => "/command"
    case Status => "/status"
    case Event => "/event"
    case Ota => "/ota"
    case OtaStatus => "/ota/status"
    case ChannelCommand => "/channel/" + Decimal(channel) + "/command"
  }

  const PREFIX := "devices/"

  function DefaultTopic(role: Role, deviceId: string, channel: nat): string {
    PREFIX + deviceId + Tail(role, channel)
  }

  /** The seven default topics, spelled out. */
  lemma DefaultTopicsAreSpelled(id: string, channel: nat)
    ensures DefaultTopic(Telemetry, id, channel) == "devices/" + id + "/telemetry"
    ensures DefaultTopic(Command, id, channel) == "devices/" + id + "/command"
    ensures DefaultTopic(Status, id, channel) == "devices/" + id + "/status"
    ensures DefaultTopic(Event, id, channel) == "devices/" + id + "/event"
    ensures DefaultTopic(Ota, id, channel) == "devices/" + id + "/ota"
    ensures DefaultTopic(OtaStatus, id, channel) == "devices/" + id + "/ota/status"
    ensures DefaultTopic(ChannelCommand, id, channel) == "devices/" + id + ("/channel/" + Decimal(channel) + "/command")
  {
  }

  // ---------------------------------------------------------------- the regular expressions

  /** What `([^/]+)` may capture. */
  predicate IsSegment(id: string) {
    id != "" && forall i :: 0 <= i < |id| ==> id[i] != '/'
  }

  ghost predicate IsTail(role: Role, tail: string) {
    if role == ChannelCommand then exists digits :: ChannelTail(tail, digits) else tail == Tail(role, 0)
  }

  ghost predicate ChannelTail(tail: string, digits: string) {
    digits != "" && AllDigits(digits) && tail == "/channel/" + digits + "/command"
  }

  /** The language of the expression of `role`, with what its first group captures. */
  ghost predicate Matches(role: Role, topic: string, id: string) {
    IsSegment(id) && exists tail :: IsTail(role, tail) && topic == PREFIX + id + tail
  }

  function UntilSlash(s: string): (n: nat)
    ensures n <= |s|
    ensures forall i :: 0 <= i < n ==> s[i] != '/'
    ensures n < |s| ==> s[n] == '/'
  {
    if s == "" || s[0] == '/' then 0 else 1 + UntilSlash(s[1..])
  }

  predicate ReadsTail(role: Role, tail: string) {
    if role != ChannelCommand then tail == Tail(role, 0)
    else
      && |tail| > 9 + 8 && tail[..9] == "/channel/" && tail[|tail| - 8..] == "/command"
      && AllDigits(tail[9..|tail| - 8])
  }

  /** `REGEX.exec(topic)?.[1]`. */
  function Exec(role: Role, topic: string): Option<string> {
    if |topic| >= 8 && topic[..8] == PREFIX then
      var n := UntilSlash(topic[8..]);
      if n > 0 && ReadsTail(role, topic[8 + n..]) then Some(topic[8..8 + n]) else None
    else None
  }

  lemma ReadsTailExact(role: Role, tail: string)
    ensures ReadsTail(role, tail) <==> IsTail(role, tail)
  {
    if role == ChannelCommand {
      if ReadsTail(role, tail) {
        assert tail == tail[..9] + tail[9..|tail| - 8] + tail[|tail| - 8..];
        assert ChannelTail(tail, tail[9..|tail| - 8]);
      }
      if IsTail(role, tail) {
        var digits :| ChannelTail(tail, digits);
        assert tail[9..|tail| - 8] == digits;
      }
    }
  }

  /** The id is the stretch up to the next slash: a topic can be cut in one way only. */
  lemma {:induction false} SegmentIsUnique(id: string, tail: string)
    requires (forall i :: 0 <= i < |id| ==> id[i] != '/') && tail != "" && tail[0] == '/'
    ensures UntilSlash(id + tail) == |id|
  {
    if id == "" {
      assert id + tail == tail;
    } else {
      assert (id + tail)[1..] == id[1..] + tail;
      SegmentIsUnique(id[1..], tail);
    }
  }

  lemma TailStartsWithSlash(role: Role, tail: string)
    requires IsTail(role, tail)
    ensures tail != "" && tail[0] == '/'
  {
  }

  lemma MatchesAreRead(role: Role, topic: string, id: string)
    requires Matches(role, topic, id)
    ensures Exec(role, topic) == Some(id)
  {
    hide UntilSlash, ReadsTail, IsTail;
    var tail :| IsTail(role, tail) && topic == PREFIX + id + tail;
    ReadsTailExact(role, tail);
    TailStartsWithSlash(role, tail);
    SegmentIsUnique(id, tail);
    assert topic[..8] == PREFIX && topic[8..] == id + tail;
    assert topic[8 + |id|..] == tail && topic[8..8 + |id|] == id;
  }

  lemma ReadsAreMatches(role: Role, topic: string)
    requires Exec(role, topic).Some?
    ensures Matches(role, topic, Exec(role, topic).value)
  {
    hide UntilSlash, ReadsTail, IsTail;
    var id := Exec(role, topic).value;
    var tail := topic[8 + |id|..];
    ReadsTailExact(role, tail);
    assert topic == PREFIX + id + tail;
  }

  /** The executable reading agrees with the language of the expression. */
  lemma ExecExact(role: Role, topic: string, id: string)
    ensures Exec(role, topic) == Some(id) <==> Matches(role, topic, id)
  {
    hide Exec, Matches;
    if Matches(role, topic, id) { MatchesAreRead(role, topic, id); }
    if Exec(role, topic) == Some(id) { ReadsAreMatches(role, topic); }
  }

  lemma TailsAreDisjoint(r1: Role, r2: Role, tail: string)
    requires IsTail(r1, tail) && IsTail(r2, tail)
    ensures r1 == r2
  {
    if r1 == ChannelCommand || r2 == ChannelCommand {
      var digits :| ChannelTail(tail, digits) || (r1 != ChannelCommand && r2 != ChannelCommand);
      assert tail[2] == 'h';
    }
  }

  /** No topic matches two of the seven expressions. */
  lemma RolesAreDisjoint(r1: Role, r2: Role, topic: string)
    requires Exec(r1, topic).Some? && Exec(r2, topic).Some?
    ensures r1 == r2 && Exec(r1, topic) == Exec(r2, topic)
  {
    var tail := topic[8 + |Exec(r1, topic).value|..];
    ReadsTailExact(r1, tail);
    ReadsTailExact(r2, tail);
    TailsAreDisjoint(r1, r2, tail);
  }

  /** Each default topic reads back to its own device id. */
  lemma DefaultTopicReadsBack(role: Role, deviceId: string, channel: nat)
    requires IsSegment(deviceId)
    ensures Exec(role, DefaultTopic(role, deviceId, channel)) == Some(deviceId)
  {
    if role == ChannelCommand {
      assert ChannelTail(Tail(role, channel), Decimal(channel));
    }
    assert IsTail(role, Tail(role, channel));
    ExecExact(role, DefaultTopic(role, deviceId, channel), deviceId);
  }

  // ---------------------------------------------------------------- classification

  datatype Classified = Default(role: Role, deviceId: string) | Custom

  /** Tries the expressions in the given order. */
  function ClassifyIn(order: seq<Role>, topic: string): Classified {
    if order == [] then Custom
    else if Exec(order[0], topic).Some? then Default(order[0], Exec(order[0], topic).value)
    else ClassifyIn(order[1..], topic)
  }

  const ALL_ROLES := {Telemetry, Command, Status, Event, Ota, OtaStatus, ChannelCommand}

  /** The order of the tests in `handleAny`. */
  const HANDLE_ANY_ORDER := [Telemetry, Status, Event, OtaStatus, Command, ChannelCommand, Ota]

  lemma {:induction false} ClassifyInExact(order: seq<Role>, topic: string)
    ensures ClassifyIn(order, topic) == Custom <==> forall r :: r in order ==> Exec(r, topic) == None
    ensures forall r, id :: ClassifyIn(order, topic) == Default(r, id) <==> r in order && Exec(r, topic) == Some(id)
  {
    hide Exec;
    if order == [] {
    } else {
      ClassifyInExact(order[1..], topic);
      forall r, id | r in order && Exec(r, topic) == Some(id) && Exec(order[0], topic).Some? ensures r == order[0] {
        RolesAreDisjoint(r, order[0], topic);
      }
    }
  }

  lemma EveryRoleIsTested(r: Role)
    ensures r in ALL_ROLES && r in HANDLE_ANY_ORDER
  {
    assert HANDLE_ANY_ORDER[0] == Telemetry && HANDLE_ANY_ORDER[1] == Status && HANDLE_ANY_ORDER[2] == Event
        && HANDLE_ANY_ORDER[3] == OtaStatus && HANDLE_ANY_ORDER[4] == Command && HANDLE_ANY_ORDER[5] == ChannelCommand
        && HANDLE_ANY_ORDER[6] == Ota;
    match r
    case Telemetry => case Command => case Status => case Event => case Ota => case OtaStatus => case ChannelCommand =>
  }

  /** The order of the tests does not matter, as long as all seven are made. */
  lemma OrderDoesNotMatter(order: seq<Role>, topic: string)
    requires forall r :: r in ALL_ROLES ==> r in order
    ensures ClassifyIn(order, topic) == ClassifyIn(HANDLE_ANY_ORDER, topic)
  {
    hide Exec;
    ClassifyInExact(order, topic);
    ClassifyInExact(HANDLE_ANY_ORDER, topic);
    forall r: Role ensures r in ALL_ROLES && r in HANDLE_ANY_ORDER { EveryRoleIsTested(r); }
    if ClassifyIn(order, topic).Default? {
      assert ClassifyIn(order, topic).role in HANDLE_ANY_ORDER;
    }
  }

  /** Routing inverts the topic builders: a default topic reaches its own device in its own role
      if and only if the id of the device is not empty and has no slash. */
  lemma DefaultTopicsRoute(role: Role, deviceId: string, channel: nat)
    ensures ClassifyIn(HANDLE_ANY_ORDER, DefaultTopic(role, deviceId, channel)) == Default(role, deviceId) <==> IsSegment(deviceId)
  {
    var topic := DefaultTopic(role, deviceId, channel);
    hide Exec, Matches, DefaultTopic;
    if IsSegment(deviceId) {
      DefaultTopicReadsBack(role, deviceId, channel);
    }
    ClassifyInExact(HANDLE_ANY_ORDER, topic);
    EveryRoleIsTested(role);
    ExecExact(role, topic, deviceId);
    if Exec(role, topic) == Some(deviceId) {
      MatchedIsSegment(role, topic, deviceId);
    }
  }

  lemma MatchedIsSegment(role: Role, topic: string, id: string)
    requires Matches(role, topic, id)
    ensures IsSegment(id)
  {
  }

  /** An id with a slash can be taken for another device: the status topic of device `x/ota` is
      read as an OTA report of device `x`. */
  lemma SlashMisroutes(id: string)
    requires IsSegment(id)
    ensures ClassifyIn(HANDLE_ANY_ORDER, DefaultTopic(Status, id + "/ota", 0)) == Default(OtaStatus, id)
  {
    assert DefaultTopic(Status, id + "/ota", 0) == DefaultTopic(OtaStatus, id, 0);
    DefaultTopicsRoute(OtaStatus, id, 0);
  }

  /** Conversely, a topic classified for a role other than a channel command is the default one. */
  lemma ClassifiedTopicsAreDefault(topic: string, role: Role, deviceId: string)
    requires ClassifyIn(HANDLE_ANY_ORDER, topic) == Default(role, deviceId) && role != ChannelCommand
    ensures IsSegment(deviceId) && topic == DefaultTopic(role, deviceId, 0)
  {
    ClassifyInExact(HANDLE_ANY_ORDER, topic);
    ExecExact(role, topic, deviceId);
  }

  // ---------------------------------------------------------------- channel numbers

  lemma {:induction false} DecimalReadsBack(n: nat)
    ensures Value(Decimal(n)) == n && if n == 0 then Decimal(n) == "0" else Decimal(n)[0] != '0'
  {
    if n < 10 {
      assert Decimal(n)[..0] == "";
    } else {
      DecimalReadsBack(n / 10);
      assert Decimal(n)[..|Decimal(n)| - 1] == Decimal(n / 10);
    }
  }

  /** How a number is written: without a leading zero. */
  predicate Canonical(digits: string) {
    digits == "0" || (digits != "" && digits[0] != '0')
  }

  lemma {:induction false} CanonicalIsDecimal(digits: string)
    requires AllDigits(digits) && Canonical(digits)
    ensures Decimal(Value(digits)) == digits
    ensures digits != "0" ==> Value(digits) > 0
  {
    var init := digits[..|digits| - 1];
    if |digits| == 1 {
      assert init == "";
      assert digits == [digits[0]];
    } else {
      CanonicalIsDecimal(init);
      assert digits == init + [digits[|digits| - 1]];
    }
  }

  /** The number between `/channel/` and `/command`. */
  function ChannelDigits(topic: string, deviceId: string): string
    requires |PREFIX| + |deviceId| + 9 + 8 <= |topic|
  {
    topic[|PREFIX| + |deviceId| + 9..|topic| - 8]
  }

  /** And a topic classified for a channel command is the default one of some channel exactly when
      its number has no leading zero. */
  lemma ChannelCommandsAreDefaultExactly(topic: string, deviceId: string)
    requires ClassifyIn(HANDLE_ANY_ORDER, topic) == Default(ChannelCommand, deviceId)
    ensures |PREFIX| + |deviceId| + 9 + 8 <= |topic|
    ensures (exists channel :: topic == DefaultTopic(ChannelCommand, deviceId, channel)) <==> Canonical(ChannelDigits(topic, deviceId))
  {
    ClassifyInExact(HANDLE_ANY_ORDER, topic);
    ExecExact(ChannelCommand, topic, deviceId);
    var tail :| IsTail(ChannelCommand, tail) && topic == PREFIX + deviceId + tail;
    var digits :| ChannelTail(tail, digits);
    ChannelDigitsAre(topic, deviceId, digits);
    if channel :| topic == DefaultTopic(ChannelCommand, deviceId, channel) {
      ChannelDigitsAre(topic, deviceId, Decimal(channel));
      DecimalReadsBack(channel);
    }
    if Canonical(digits) {
      CanonicalIsDecimal(digits);
      assert topic == DefaultTopic(ChannelCommand, deviceId, Value(digits));
    }
  }

  lemma ChannelDigitsAre(topic: string, deviceId: string, digits: string)
    requires topic == PREFIX + deviceId + ("/channel/" + digits + "/command")
    ensures |PREFIX| + |deviceId| + 9 + 8 <= |topic| && ChannelDigits(topic, deviceId) == digits
  {
    assert topic == (PREFIX + deviceId + "/channel/") + digits + "/command";
  }
}
