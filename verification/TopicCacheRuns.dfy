/** Runs of the topic cache: messages, configuration updates, registrations and deletions, with
    lookups interleaved at their `await` and updates at the commit of their transaction. */
module TopicCacheRuns {
  import opened Wrappers
  import opened TopicCache

  // ---------------------------------------------------------------- the system

  /** A lookup that has read the table but not yet recorded its answer. */
  datatype Pending = Pending(topic: string, answer: Option<Resolved>)

  datatype System = System(db: seq<Row>, cache: Cache, pending: seq<Pending>)

  /** The parts of an update that matter to topics: `mqtt` and `pushChannel`, each optional. */
  datatype ConfigUpdate = ConfigUpdate(mqtt: Option<Option<Topics>>, isMqtt: Option<bool>)

  /** A message whose lookup is not interrupted, or the two halves of one that is: `Begin` reads the
      table at some moment after the cache had no answer, `End` records what was read. An update whose
      transaction is not interrupted, or the two halves of one that is: `updateDeviceConfig`
      clears before its transaction commits. */
  datatype Step =
    | Message(topic: string, now: int)
    | Begin(topic: string)
    | End(k: nat, now: int)
    | Update(row: nat, dto: ConfigUpdate)
    | Clear
    | Commit(row: nat, dto: ConfigUpdate)
    | Register(deviceId: string)
    | Delete(row: nat)

  predicate HasId(db: seq<Row>, deviceId: string) {
    exists k :: 0 <= k < |db| && db[k].deviceId == deviceId
  }

  /** The unique index on the device id. */
  predicate UniqueIds(db: seq<Row>) {
    forall j, k :: 0 <= j < k < |db| ==> db[j].deviceId != db[k].deviceId
  }

  function UpdatedRow(row: Row, dto: ConfigUpdate): Row {
    Row(row.deviceId, dto.isMqtt.GetOr(row.isMqtt), dto.mqtt.GetOr(row.topics))
  }

  function Next(s: System, step: Step): System {
    match step
    case Message(topic, now) => s.(cache := AfterMessage(s.cache, s.db, topic, now))
    case Begin(topic) => s.(pending := s.pending + [Pending(topic, Lookup(s.db, topic))])
    case End(k, now) =>
      if k >= |s.pending| then s
      else s.(cache := Record(s.cache, s.pending[k].topic, s.pending[k].answer, now),
              pending := s.pending[..k] + s.pending[k + 1..])
    case Update(k, dto) =>
      if k >= |s.db| then s
      else s.(db := s.db[k := UpdatedRow(s.db[k], dto)], cache := if dto.mqtt.Some? then EMPTY else s.cache)
    case Clear => s.(cache := EMPTY)
    case Commit(k, dto) => if k >= |s.db| then s else s.(db := s.db[k := UpdatedRow(s.db[k], dto)])
    case Register(deviceId) => if HasId(s.db, deviceId) then s else s.(db := s.db + [Row(deviceId, true, None)])
    case Delete(k) => if k >= |s.db| then s else s.(db := s.db[..k] + s.db[k + 1..])
  }

  function Run(s: System, steps: seq<Step>): System {
    if steps == [] then s else Next(Run(s, steps[..|steps| - 1]), steps[|steps| - 1])
  }

  predicate Clears(s: System, step: Step) {
    step.Clear? || (step.Update? && step.row < |s.db| && step.dto.mqtt.Some?)
  }

  lemma NextKeepsUniqueIds(s: System, step: Step)
    requires UniqueIds(s.db)
    ensures UniqueIds(Next(s, step).db)
  {
    hide Lookup, AfterMessage, Record;
  }

  lemma {:induction false} RunKeepsUniqueIds(s: System, steps: seq<Step>)
    requires UniqueIds(s.db)
    ensures UniqueIds(Run(s, steps).db)
  {
    if steps == [] {
    } else {
      RunKeepsUniqueIds(s, steps[..|steps| - 1]);
      NextKeepsUniqueIds(Run(s, steps[..|steps| - 1]), steps[|steps| - 1]);
      hide Next, UniqueIds;
    }
  }

  // ---------------------------------------------------------------- which topics a change of the table concerns

  /** The role `row` gives to `topic`, if it has the topic at all. */
  function Claim(row: Row, topic: string): Option<Role> {
    if Selects(row, topic) then RoleOf(row.topics.value, topic) else None
  }

  /** No row before `k` has the topic. */
  predicate Unclaimed(db: seq<Row>, k: nat, topic: string)
    requires k <= |db|
  {
    forall j :: 0 <= j < k ==> !Selects(db[j], topic)
  }

  lemma {:induction false} GetOneAppend(db: seq<Row>, more: seq<Row>, topic: string)
    ensures GetOne(db + more, topic) == if GetOne(db, topic).Some? then GetOne(db, topic) else GetOne(more, topic)
    ensures GetOne(db, topic).Some? ==> Selects(GetOne(db, topic).value, topic)
  {
    if db == [] {
      assert db + more == more;
    } else {
      assert (db + more)[1..] == db[1..] + more;
      GetOneAppend(db[1..], more, topic);
    }
  }

  lemma LookupAppend(db: seq<Row>, more: seq<Row>, topic: string)
    ensures Lookup(db + more, topic) == if Lookup(db, topic).Some? then Lookup(db, topic) else Lookup(more, topic)
  {
    GetOneAppend(db, more, topic);
  }

  lemma LookupOne(row: Row, topic: string)
    ensures Lookup([row], topic) ==
            if Claim(row, topic).Some? then Some(Resolved(row.deviceId, Claim(row, topic).value)) else None
    ensures Claim(row, topic).Some? <==> Selects(row, topic)
  {
    assert [row][1..] == [];
    assert GetOne([row], topic) == if Selects(row, topic) then Some(row) else None;
  }

  /** The table before row `k`, row `k` itself, and the table after it, asked in this order. */
  lemma LookupAround(db: seq<Row>, k: nat, row: Row, topic: string)
    requires k < |db|
    ensures var before, after := Lookup(db[..k], topic), Lookup(db[k + 1..], topic);
            && Lookup(db[k := row], topic) ==
               (if before.Some? then before else if Lookup([row], topic).Some? then Lookup([row], topic) else after)
            && Lookup(db[..k] + db[k + 1..], topic) == (if before.Some? then before else after)
  {
    hide Lookup;
    assert db[k := row] == db[..k] + ([row] + db[k + 1..]);
    LookupAppend(db[..k], [row] + db[k + 1..], topic);
    LookupAppend([row], db[k + 1..], topic);
    LookupAppend(db[..k], db[k + 1..], topic);
  }

  /** The parts of the table around row `k` find a topic just as their rows have it, and never
      name the device of row `k`. */
  lemma LookupElsewhere(db: seq<Row>, k: nat, topic: string)
    requires UniqueIds(db) && k < |db|
    ensures Lookup(db[..k], topic).Some? <==> !Unclaimed(db, k, topic)
    ensures Lookup(db[..k], topic).Some? ==> Lookup(db[..k], topic).value.deviceId != db[k].deviceId
    ensures Lookup(db[k + 1..], topic).Some? ==> Lookup(db[k + 1..], topic).value.deviceId != db[k].deviceId
  {
    hide Lookup;
    LookupExact(db[..k], topic);
    LookupExact(db[k + 1..], topic);
  }

  /** Replacing row `k` changes the answer for a topic exactly when no earlier row has the topic
      and the role that row `k` gives to it changes. */
  lemma RowChangeExactly(db: seq<Row>, k: nat, row: Row, topic: string)
    requires UniqueIds(db) && k < |db| && row.deviceId == db[k].deviceId
    ensures Lookup(db[k := row], topic) != Lookup(db, topic)
            <==> Unclaimed(db, k, topic) && Claim(row, topic) != Claim(db[k], topic)
  {
    assert db[k := db[k]] == db;
    LookupAround(db, k, row, topic);
    LookupAround(db, k, db[k], topic);
    LookupElsewhere(db, k, topic);
    LookupOne(row, topic);
    LookupOne(db[k], topic);
    hide Lookup, Claim, Unclaimed, UniqueIds;
  }

  /** Removing row `k` changes the answer for a topic exactly when it named the device of that row. */
  lemma RemovalExactly(db: seq<Row>, k: nat, topic: string)
    requires UniqueIds(db) && k < |db|
    ensures Lookup(db[..k] + db[k + 1..], topic) != Lookup(db, topic)
            <==> Lookup(db, topic).Some? && Lookup(db, topic).value.deviceId == db[k].deviceId
  {
    assert db[k := db[k]] == db;
    LookupAround(db, k, db[k], topic);
    LookupElsewhere(db, k, topic);
    LookupOne(db[k], topic);
    hide Lookup, Claim, Unclaimed, UniqueIds;
  }

  /** A row that has the topic, and is the first to have it, is the one the lookup names. */
  lemma ClaimedByRow(db: seq<Row>, k: nat, topic: string)
    requires UniqueIds(db) && k < |db|
    ensures Unclaimed(db, k, topic) && Selects(db[k], topic)
            <==> Lookup(db, topic).Some? && Lookup(db, topic).value.deviceId == db[k].deviceId
  {
    assert db[k := db[k]] == db;
    LookupAround(db, k, db[k], topic);
    LookupElsewhere(db, k, topic);
    LookupOne(db[k], topic);
    hide Lookup, Claim, Unclaimed, UniqueIds, Selects;
  }

  // ---------------------------------------------------------------- exact agreement

  /** Every entry of the cache is what a fresh lookup would answer. */
  ghost predicate Coherent(s: System) {
    && (forall t :: t in s.cache.resolved ==> Lookup(s.db, t) == Some(s.cache.resolved[t]))
    && (forall t :: t in s.cache.missedAt ==> Lookup(s.db, t) == None)
  }

  /** A coherent cache is invisible: every message is dispatched as by a fresh lookup. */
  lemma CoherentDispatch(s: System, topic: string, now: int)
    requires Coherent(s)
    ensures Dispatched(s.cache, s.db, topic, now) == Lookup(s.db, topic)
  {
  }

  predicate Remembers(c: Cache, topic: string) {
    topic in c.resolved || topic in c.missedAt
  }

  /** Some cached hit names the device. */
  predicate Serves(c: Cache, deviceId: string) {
    exists t :: t in c.resolved && c.resolved[t].deviceId == deviceId
  }

  /** Some cached topic that no earlier row has would get another role, or none, or its first
      one, from row `k`. */
  ghost predicate Reassigns(s: System, k: nat, row: Row)
    requires k < |s.db|
  {
    exists t :: Remembers(s.cache, t) && Unclaimed(s.db, k, t) && Claim(row, t) != Claim(s.db[k], t)
  }

  /** Some cached topic belongs to row `k` as soon as that is an MQTT device. */
  ghost predicate Adopts(s: System, k: nat, row: Row)
    requires k < |s.db|
  {
    exists t :: Remembers(s.cache, t) && Unclaimed(s.db, k, t) && Selects(row, t)
  }

  /** The steps that spoil the cache, told from the state before them: recording an answer that
      has expired since it was read; deleting a device that a hit names; without clearing, taking
      a device off MQTT that a hit names, or putting one on MQTT that a cached topic belongs to;
      and committing an update after its clear when a topic looked up meanwhile changes hands. */
  ghost predicate Spoils(s: System, step: Step) {
    match step
    case Message(_, _) => false
    case Begin(_) => false
    case Register(_) => false
    case Clear => false
    case End(k, _) => k < |s.pending| && s.pending[k].answer != Lookup(s.db, s.pending[k].topic)
    case Delete(k) => k < |s.db| && Serves(s.cache, s.db[k].deviceId)
    case Commit(k, dto) => k < |s.db| && Reassigns(s, k, UpdatedRow(s.db[k], dto))
    case Update(k, dto) =>
      && k < |s.db| && dto.mqtt == None && dto.isMqtt.Some? && dto.isMqtt.value != s.db[k].isMqtt
      && if s.db[k].isMqtt then Serves(s.cache, s.db[k].deviceId) else Adopts(s, k, UpdatedRow(s.db[k], dto))
  }

  /** The answer for some cached topic is another one in table `db`. */
  ghost predicate Changes(s: System, db: seq<Row>) {
    exists t :: Remembers(s.cache, t) && Lookup(db, t) != Lookup(s.db, t)
  }

  /** A change of the table that leaves the cache alone spoils it by changing a cached answer. */
  lemma CoherentWithTable(s: System, db: seq<Row>)
    requires Coherent(s)
    ensures Coherent(s.(db := db)) <==> !Changes(s, db)
  {
    hide Lookup;
    var s' := s.(db := db);
    if t :| Remembers(s.cache, t) && Lookup(db, t) != Lookup(s.db, t) {
      assert !Coherent(s');
    }
  }

  lemma RemovalGuard(s: System, k: nat)
    requires Coherent(s) && UniqueIds(s.db) && k < |s.db|
    ensures Changes(s, s.db[..k] + s.db[k + 1..]) <==> Serves(s.cache, s.db[k].deviceId)
  {
    forall t ensures
      Lookup(s.db[..k] + s.db[k + 1..], t) != Lookup(s.db, t)
      <==> Lookup(s.db, t).Some? && Lookup(s.db, t).value.deviceId == s.db[k].deviceId
    {
      RemovalExactly(s.db, k, t);
    }
    hide Lookup, UniqueIds;
    if t :| t in s.cache.resolved && s.cache.resolved[t].deviceId == s.db[k].deviceId {
      assert Remembers(s.cache, t);
    }
  }

  lemma RowGuard(s: System, k: nat, row: Row)
    requires UniqueIds(s.db) && k < |s.db| && row.deviceId == s.db[k].deviceId
    ensures Changes(s, s.db[k := row]) <==> Reassigns(s, k, row)
  {
    forall t ensures
      Lookup(s.db[k := row], t) != Lookup(s.db, t) <==> Unclaimed(s.db, k, t) && Claim(row, t) != Claim(s.db[k], t)
    {
      RowChangeExactly(s.db, k, row, t);
    }
    hide Lookup, UniqueIds, Unclaimed, Claim, Remembers;
  }

  /** A device that leaves MQTT gives up its topics, one that joins it claims them. */
  lemma ChannelGuard(s: System, k: nat, isMqtt: bool)
    requires Coherent(s) && UniqueIds(s.db) && k < |s.db| && isMqtt != s.db[k].isMqtt
    ensures var row := s.db[k].(isMqtt := isMqtt);
            Reassigns(s, k, row) <==> if isMqtt then Adopts(s, k, row) else Serves(s.cache, s.db[k].deviceId)
  {
    var row := s.db[k].(isMqtt := isMqtt);
    forall t ensures
      && (Claim(row, t) != Claim(s.db[k], t) <==> Selects(row, t) || Selects(s.db[k], t))
      && (Unclaimed(s.db, k, t) && Selects(s.db[k], t)
          <==> Lookup(s.db, t).Some? && Lookup(s.db, t).value.deviceId == s.db[k].deviceId)
    {
      LookupOne(row, t);
      LookupOne(s.db[k], t);
      ClaimedByRow(s.db, k, t);
    }
    assert forall t :: if isMqtt then !Selects(s.db[k], t) else !Selects(row, t);
    hide Lookup, UniqueIds, Unclaimed, Claim, Selects;
    if t :| t in s.cache.resolved && s.cache.resolved[t].deviceId == s.db[k].deviceId {
      assert Remembers(s.cache, t);
    }
  }

  /** From a coherent cache, a step leaves it coherent exactly when it does not spoil it. */
  lemma CoherentExactly(s: System, step: Step)
    requires Coherent(s) && UniqueIds(s.db)
    ensures Coherent(Next(s, step)) <==> !Spoils(s, step)
  {
    hide Lookup, UniqueIds, Reassigns, Adopts, Serves, Changes;
    var s' := Next(s, step);
    match step
    case Message(_, _) =>
    case Begin(_) =>
    case Clear =>
    case End(k, now) =>
      if k < |s.pending| {
        var p := s.pending[k];
        match p.answer
        case Some(r) => assert p.topic in s'.cache.resolved && s'.cache.resolved[p.topic] == r;
        case None => assert p.topic in s'.cache.missedAt;
      }
    case Register(deviceId) =>
      forall t ensures Lookup(s.db + [Row(deviceId, true, None)], t) == Lookup(s.db, t) { RegisterKeepsLookup(s.db, deviceId, t); }
    case Delete(k) =>
      if k < |s.db| {
        RemovalGuard(s, k);
        CoherentWithTable(s, s'.db);
      }
    case Commit(k, dto) =>
      if k < |s.db| {
        RowGuard(s, k, UpdatedRow(s.db[k], dto));
        CoherentWithTable(s, s'.db);
      }
    case Update(k, dto) =>
      if k < |s.db| && dto.mqtt == None {
        SilentUpdateExactly(s, k, dto);
      }
  }

  lemma SilentUpdateExactly(s: System, k: nat, dto: ConfigUpdate)
    requires Coherent(s) && UniqueIds(s.db) && k < |s.db| && dto.mqtt == None
    ensures Coherent(s.(db := s.db[k := UpdatedRow(s.db[k], dto)])) <==> !Spoils(s, Update(k, dto))
  {
    hide Lookup, UniqueIds, Reassigns, Adopts, Serves, Changes, Coherent;
    var row := UpdatedRow(s.db[k], dto);
    if row.isMqtt == s.db[k].isMqtt {
      assert s.db[k := row] == s.db;
    } else {
      assert row == s.db[k].(isMqtt := row.isMqtt);
      RowGuard(s, k, row);
      ChannelGuard(s, k, row.isMqtt);
      CoherentWithTable(s, s.db[k := row]);
    }
  }

  ghost predicate NeverSpoiled(s: System, steps: seq<Step>) {
    steps == [] || (NeverSpoiled(s, steps[..|steps| - 1]) && !Spoils(Run(s, steps[..|steps| - 1]), steps[|steps| - 1]))
  }

  ghost predicate AlwaysCoherent(s: System, steps: seq<Step>) {
    Coherent(Run(s, steps)) && (steps != [] ==> AlwaysCoherent(s, steps[..|steps| - 1]))
  }

  /** Over every run, lookups and updates interleaved or not, the cache agrees with the table
      throughout if and only if no step of the run spoils it. */
  lemma {:induction false} AgreementExactly(s: System, steps: seq<Step>)
    requires Coherent(s) && UniqueIds(s.db)
    ensures AlwaysCoherent(s, steps) <==> NeverSpoiled(s, steps)
  {
    if steps == [] {
    } else {
      var init, step := steps[..|steps| - 1], steps[|steps| - 1];
      AgreementExactly(s, init);
      RunKeepsUniqueIds(s, init);
      hide Coherent, UniqueIds, Spoils, Next;
      if AlwaysCoherent(s, init) {
        CoherentExactly(Run(s, init), step);
      }
    }
  }

  // ---------------------------------------------------------------- runs that are covered by `clear`

  /** After an update a device names the topics the update carries, else the ones it had, while it
      is an MQTT device by the update, else by what it was. */
  lemma UpdateExact(row: Row, dto: ConfigUpdate, topic: string)
    ensures var topics := if dto.mqtt.Some? then dto.mqtt.value else row.topics;
            var isMqtt := if dto.isMqtt.Some? then dto.isMqtt.value else row.isMqtt;
            && UpdatedRow(row, dto).deviceId == row.deviceId
            && (Names(UpdatedRow(row, dto), topic) <==> isMqtt && topics.Some? && topic in NamedTopics(topics.value))
  {
    hide NamedTopics;
  }

  /** A newly registered device has no overrides, so it changes no answer. */
  lemma RegisterKeepsLookup(db: seq<Row>, deviceId: string, topic: string)
    ensures Lookup(db + [Row(deviceId, true, None)], topic) == Lookup(db, topic)
  {
    GetOneAppend(db, [Row(deviceId, true, None)], topic);
  }

  /** Lookups are atomic, nothing is deleted, what changes topics carries `mqtt`, and an update
      that carries it commits before any lookup is recorded after its clear. */
  predicate Covered(s: System, step: Step) {
    match step
    case Message(_, _) => true
    case Begin(_) => false
    case End(_, _) => false
    case Clear => true
    case Commit(_, _) => s.cache == EMPTY
    case Register(_) => true
    case Delete(_) => false
    case Update(k, dto) => k < |s.db| && dto.mqtt == None ==> dto.isMqtt.GetOr(s.db[k].isMqtt) == s.db[k].isMqtt
  }

  predicate CoveredRun(s: System, steps: seq<Step>) {
    steps == [] || (CoveredRun(s, steps[..|steps| - 1]) && Covered(Run(s, steps[..|steps| - 1]), steps[|steps| - 1]))
  }

  lemma CoveredStepDoesNotSpoil(s: System, step: Step)
    requires Covered(s, step)
    ensures !Spoils(s, step)
  {
    hide Lookup, Claim, Selects;
  }

  /** Exact agreement: in every such run, from an empty cache, each message is dispatched as a
      fresh lookup at that moment would have it, whatever has been cached. */
  lemma {:induction false} CoveredRunsAgree(s: System, steps: seq<Step>, topic: string, now: int)
    requires s.cache == EMPTY && UniqueIds(s.db) && CoveredRun(s, steps)
    ensures NeverSpoiled(s, steps)
    ensures Dispatched(Run(s, steps).cache, Run(s, steps).db, topic, now) == Lookup(Run(s, steps).db, topic)
  {
    hide Lookup, Dispatched;
    if steps == [] {
    } else {
      CoveredRunsAgree(s, steps[..|steps| - 1], topic, now);
      CoveredStepDoesNotSpoil(Run(s, steps[..|steps| - 1]), steps[|steps| - 1]);
    }
    AgreementExactly(s, steps);
    CoherentDispatch(Run(s, steps), topic, now);
  }

  /** End to end: in such a run every incoming topic, default or custom, reaches the handler that
      the table alone would send it to. */
  lemma CoveredRunsHandle(s: System, steps: seq<Step>, topic: string, now: int)
    requires s.cache == EMPTY && UniqueIds(s.db) && CoveredRun(s, steps)
    ensures var t := Run(s, steps);
            HandlingOf(topic, Dispatched(t.cache, t.db, topic, now)) == HandlingOf(topic, Lookup(t.db, topic))
  {
    hide Lookup, Dispatched, HandlingOf;
    CoveredRunsAgree(s, steps, topic, now);
  }

  // ---------------------------------------------------------------- bounded staleness over all runs

  predicate Atomic(steps: seq<Step>) {
    forall k :: 0 <= k < |steps| ==> !steps[k].Begin? && !steps[k].End?
  }

  /** No clear happens from step `i` on. */
  predicate Uncleared(s: System, steps: seq<Step>, i: nat)
    requires i <= |steps|
  {
    i == |steps| || (Uncleared(s, steps[..|steps| - 1], i) && !Clears(Run(s, steps[..|steps| - 1]), steps[|steps| - 1]))
  }

  /** Step `i` began a lookup of `topic`, for which the table then answered `answer`. */
  predicate BegunAt(s: System, steps: seq<Step>, i: int, topic: string, answer: Option<Resolved>) {
    && 0 <= i < |steps| && (steps[i].Begin? || steps[i].Message?) && steps[i].topic == topic
    && Lookup(Run(s, steps[..i]).db, topic) == answer
  }

  /** Step `j` recorded the answer that step `i` had read, and no clear came since; a lookup that
      is not interrupted does both at once. */
  predicate AnsweredAt(s: System, steps: seq<Step>, i: int, j: int, topic: string, answer: Option<Resolved>) {
    && 0 <= i <= j < |steps| && BegunAt(s, steps, i, topic, answer)
    && (if steps[i].Message? then j == i else steps[j].End?)
    && Uncleared(s, steps, j)
  }

  lemma BeginningPersists(s: System, steps: seq<Step>, i: int, topic: string, answer: Option<Resolved>)
    requires steps != [] && BegunAt(s, steps[..|steps| - 1], i, topic, answer)
    ensures BegunAt(s, steps, i, topic, answer) && steps[..|steps| - 1][i] == steps[i]
  {
    assert steps[..|steps| - 1][..i] == steps[..i];
  }

  lemma AnswerPersists(s: System, steps: seq<Step>, i: int, j: int, topic: string, answer: Option<Resolved>)
    requires steps != [] && AnsweredAt(s, steps[..|steps| - 1], i, j, topic, answer)
    requires !Clears(Run(s, steps[..|steps| - 1]), steps[|steps| - 1])
    ensures AnsweredAt(s, steps, i, j, topic, answer) && steps[..|steps| - 1][j] == steps[j]
  {
    BeginningPersists(s, steps, i, topic, answer);
    hide BegunAt;
  }

  /** The last step has recorded what step `i` had read. */
  lemma AnswerRecorded(s: System, steps: seq<Step>, i: int, topic: string, answer: Option<Resolved>)
    requires steps != [] && BegunAt(s, steps, i, topic, answer)
    requires if steps[i].Message? then i == |steps| - 1 else steps[|steps| - 1].End?
    ensures AnsweredAt(s, steps, i, |steps| - 1, topic, answer)
  {
    var init := steps[..|steps| - 1];
    assert Uncleared(s, init, |init|);
  }

  /** Every pending answer was read by some earlier step. */
  lemma {:induction false} PendingWasBegun(s: System, steps: seq<Step>, k: nat)
    requires s.pending == [] && k < |Run(s, steps).pending|
    ensures exists i :: BegunAt(s, steps, i, Run(s, steps).pending[k].topic, Run(s, steps).pending[k].answer) && steps[i].Begin?
  {
    if steps == [] {
      assert false;
    } else {
      var init, step := steps[..|steps| - 1], steps[|steps| - 1];
      var p, p' := Run(s, init).pending, Run(s, steps).pending;
      hide Lookup, Record, AfterMessage, Answers;
      if step.Begin? && k == |p| {
        assert BegunAt(s, steps, |init|, p'[k].topic, p'[k].answer);
      } else {
        var l := if step.End? && step.k < |p| && k >= step.k then k + 1 else k;
        assert p'[k] == p[l];
        PendingWasBegun(s, init, l);
        var i :| BegunAt(s, init, i, p[l].topic, p[l].answer) && init[i].Begin?;
        BeginningPersists(s, steps, i, p[l].topic, p[l].answer);
      }
    }
  }

  /** The last step of the run has recorded an answer for `topic`. */
  predicate JustRecorded(s: System, steps: seq<Step>, topic: string)
    requires steps != []
  {
    var p, step := Run(s, steps[..|steps| - 1]), steps[|steps| - 1];
    || (step.Message? && step.topic == topic && !Answers(p.cache, topic, step.now))
    || (step.End? && step.k < |p.pending| && p.pending[step.k].topic == topic)
  }

  lemma RecordedWasRead(s: System, steps: seq<Step>, topic: string) returns (i: int, answer: Option<Resolved>)
    requires s.pending == [] && steps != [] && JustRecorded(s, steps, topic)
    ensures AnsweredAt(s, steps, i, |steps| - 1, topic, answer)
    ensures Run(s, steps).cache == Record(Run(s, steps[..|steps| - 1]).cache, topic, answer, steps[|steps| - 1].now)
  {
    hide Lookup, Record, Answers;
    var init, step := steps[..|steps| - 1], steps[|steps| - 1];
    var p := Run(s, init);
    if step.Message? {
      i, answer := |init|, Lookup(p.db, topic);
    } else {
      PendingWasBegun(s, init, step.k);
      answer := p.pending[step.k].answer;
      i :| BegunAt(s, init, i, topic, answer) && init[i].Begin?;
      BeginningPersists(s, steps, i, topic, answer);
    }
    AnswerRecorded(s, steps, i, topic, answer);
  }

  /** A step that does not record `topic` leaves its entries, or clears everything. */
  lemma OtherStepsLeaveEntries(s: System, steps: seq<Step>, topic: string)
    requires steps != [] && !JustRecorded(s, steps, topic)
    ensures var before, after := Run(s, steps[..|steps| - 1]), Run(s, steps).cache;
            if Clears(before, steps[|steps| - 1]) then after == EMPTY
            else
              && (topic in after.resolved ==> topic in before.cache.resolved && after.resolved[topic] == before.cache.resolved[topic])
              && (topic in after.missedAt ==> topic in before.cache.missedAt && after.missedAt[topic] == before.cache.missedAt[topic])
  {
    hide Lookup;
  }

  /** A cached hit goes back to a lookup recorded since the last clear. */
  lemma {:induction false} HitsAreJustified(s: System, steps: seq<Step>, topic: string)
    requires s.cache == EMPTY && s.pending == [] && topic in Run(s, steps).cache.resolved
    ensures exists i, j :: AnsweredAt(s, steps, i, j, topic, Some(Run(s, steps).cache.resolved[topic]))
  {
    if steps == [] {
      assert false;
    } else {
      hide Next, Lookup, Uncleared, BegunAt, AnsweredAt, Answers;
      var init, last := steps[..|steps| - 1], |steps| - 1;
      var c := Run(s, steps).cache;
      if JustRecorded(s, steps, topic) {
        var i, answer := RecordedWasRead(s, steps, topic);
        if answer.Some? {
          assert AnsweredAt(s, steps, i, last, topic, Some(c.resolved[topic]));
        } else {
          HitsAreJustified(s, init, topic);
          var i', j' :| AnsweredAt(s, init, i', j', topic, Some(c.resolved[topic]));
          AnswerPersists(s, steps, i', j', topic, Some(c.resolved[topic]));
        }
      } else {
        OtherStepsLeaveEntries(s, steps, topic);
        HitsAreJustified(s, init, topic);
        var i, j :| AnsweredAt(s, init, i, j, topic, Some(c.resolved[topic]));
        AnswerPersists(s, steps, i, j, topic, Some(c.resolved[topic]));
      }
    }
  }

  /** A cached miss goes back to a lookup recorded since the last clear, at the time it carries. */
  lemma {:induction false} MissesAreJustified(s: System, steps: seq<Step>, topic: string)
    requires s.cache == EMPTY && s.pending == [] && topic in Run(s, steps).cache.missedAt
    ensures exists i, j :: AnsweredAt(s, steps, i, j, topic, None) && steps[j].now == Run(s, steps).cache.missedAt[topic]
  {
    if steps == [] {
      assert false;
    } else {
      hide Next, Lookup, Uncleared, BegunAt, AnsweredAt, Answers;
      var init, last := steps[..|steps| - 1], |steps| - 1;
      var c := Run(s, steps).cache;
      if JustRecorded(s, steps, topic) {
        var i, answer := RecordedWasRead(s, steps, topic);
        assert AnsweredAt(s, steps, i, last, topic, None);
      } else {
        OtherStepsLeaveEntries(s, steps, topic);
        MissesAreJustified(s, init, topic);
        var i, j :| AnsweredAt(s, init, i, j, topic, None) && init[j].now == c.missedAt[topic];
        AnswerPersists(s, steps, i, j, topic, None);
      }
    }
  }

  /** Bounded staleness, over all runs whatsoever, lookups and updates interleaved, deletions and
      silent changes included: what the cache answers was the answer of a lookup recorded since
      the last clear, and a message is dropped without a lookup only if one that found nothing
      was recorded less than 60 s ago. A lookup that is not interrupted is recorded as it is made. */
  lemma StalenessIsBounded(s: System, steps: seq<Step>, topic: string, now: int)
    requires s.cache == EMPTY && s.pending == [] && Answers(Run(s, steps).cache, topic, now)
    ensures var answer := Dispatched(Run(s, steps).cache, Run(s, steps).db, topic, now);
            exists i, j ::
              && AnsweredAt(s, steps, i, j, topic, answer)
              && (answer == None ==> now - steps[j].now < 60000)
              && (Atomic(steps) ==> i == j)
  {
    hide Lookup, Uncleared, Run, BegunAt;
    var c := Run(s, steps).cache;
    var answer := Dispatched(c, Run(s, steps).db, topic, now);
    if topic in c.resolved {
      HitsAreJustified(s, steps, topic);
      var i, j :| AnsweredAt(s, steps, i, j, topic, answer);
      AtomicAnswers(s, steps, i, j, topic, answer);
      assert AnsweredAt(s, steps, i, j, topic, answer) && answer.Some?;
    } else {
      MissesAreJustified(s, steps, topic);
      var i, j :| AnsweredAt(s, steps, i, j, topic, None) && steps[j].now == c.missedAt[topic];
      AtomicAnswers(s, steps, i, j, topic, None);
      assert AnsweredAt(s, steps, i, j, topic, answer) && now - steps[j].now < NEGATIVE_TTL;
    }
  }

  lemma AtomicAnswers(s: System, steps: seq<Step>, i: int, j: int, topic: string, answer: Option<Resolved>)
    requires AnsweredAt(s, steps, i, j, topic, answer)
    ensures Atomic(steps) ==> i == j
  {
  }

  // ---------------------------------------------------------------- what is not cleared

  /** A hit survives any number of messages, registrations, deletions and push-channel changes:
      only an update that carries `mqtt` removes it. */
  lemma {:induction false} HitsOutliveChanges(s: System, steps: seq<Step>, topic: string)
    requires topic in s.cache.resolved && Atomic(steps) && Uncleared(s, steps, 0)
    ensures Cached(Run(s, steps).cache, topic) == Cached(s.cache, topic)
  {
    if steps == [] {
    } else {
      HitsOutliveChanges(s, steps[..|steps| - 1], topic);
      hide Lookup;
    }
  }

  /** So a deleted device keeps receiving the messages of its cached topic. */
  lemma DeletedDeviceIsStillServed(row: Row, topic: string, t0: int, now: int)
    requires Selects(row, topic)
    ensures var served := Next(System([row], EMPTY, []), Message(topic, t0));
            var deleted := Next(served, Delete(0));
            && Lookup(deleted.db, topic) == None
            && Dispatched(deleted.cache, deleted.db, topic, now) == Lookup([row], topic)
            && Lookup([row], topic).Some?
  {
    LookupExact([row], topic);
    assert Selects([row][0], topic);
  }

  /** And a lookup that spans the clearing update leaves a hit that no longer holds: the race
      between the `await` and `clear`. */
  lemma ClearDuringLookupIsLost(row: Row, topic: string, now: int)
    requires Selects(row, topic)
    ensures var begun := Next(System([row], EMPTY, []), Begin(topic));
            var updated := Next(begun, Update(0, ConfigUpdate(Some(None), None)));
            var ended := Next(updated, End(0, now));
            Lookup(ended.db, topic) == None && topic in ended.cache.resolved && !Coherent(ended)
  {
    LookupExact([row], topic);
    assert Selects([row][0], topic);
    var begun := Next(System([row], EMPTY, []), Begin(topic));
    assert begun.pending == [Pending(topic, Lookup([row], topic))];
    var updated := Next(begun, Update(0, ConfigUpdate(Some(None), None)));
    LookupExact(updated.db, topic);
  }

  /** And so does a lookup between the clear of an update and the commit of its transaction, even
      one that is not interrupted. */
  lemma ClearBeforeCommitIsLost(row: Row, topic: string, now: int)
    requires Selects(row, topic)
    ensures var start := System([row], EMPTY, []);
            var committed := Next(Next(Next(start, Clear), Message(topic, now)), Commit(0, ConfigUpdate(Some(None), None)));
            Lookup(committed.db, topic) == None && topic in committed.cache.resolved && !Coherent(committed)
  {
    LookupExact([row], topic);
    assert Selects([row][0], topic);
    var found := Next(Next(System([row], EMPTY, []), Clear), Message(topic, now));
    var committed := Next(found, Commit(0, ConfigUpdate(Some(None), None)));
    LookupExact(committed.db, topic);
  }
}
