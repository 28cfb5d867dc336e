/** Health scores of devices and of assets, over exact reals: clamped, rounded and weighted. */
module HealthScoring {
  import opened Wrappers

  // ---------------------------------------------------------------- rounding and clamping

  /** `Math.round`. */
  function Round(x: real): int {
    (x + 0.5).Floor
  }

  function Clamp(value: real, min: real, max: real): real {
    var raised := if value < min then min else value;
    if raised > max then max else raised
  }

  /** A percentage, clamped and rounded: the shape of every factor. */
  function Percent(x: real): (p: int)
    ensures 0 <= p <= 100
  {
    Round(Clamp(x, 0.0, 100.0))
  }

  /** Half-way values round up, all others to the nearest integer. */
  lemma RoundExact(x: real, n: int)
    ensures Round(x) == n <==> n as real - 0.5 <= x < n as real + 0.5
  {
  }

  /** A percentage is the nearest integer of a value within 0..100, and the nearer end otherwise. */
  lemma PercentExact(x: real)
    ensures x <= 0.0 ==> Percent(x) == 0
    ensures x >= 100.0 ==> Percent(x) == 100
    ensures 0.0 <= x <= 100.0 ==> Percent(x) as real - 0.5 <= x < Percent(x) as real + 0.5
  {
  }

  lemma PercentMonotone(x: real, y: real)
    requires x <= y
    ensures Percent(x) <= Percent(y)
  {
  }

  /** A percentage stays between integer bounds that lie within 0..100. */
  lemma PercentBetween(x: real, lo: int, hi: int)
    requires 0 <= lo <= hi <= 100 && lo as real <= x <= hi as real
    ensures lo <= Percent(x) <= hi
  {
  }

  // ---------------------------------------------------------------- the factors

  const FULL_DEGRADE_HOURS := 72.0
  const MS_PER_HOUR := 3600000.0

  datatype Status = Online | Offline

  function Max0(x: real): real {
    if x < 0.0 then 0.0 else x
  }

  function ComputeAgeScore(ageMonths: real, lifespanMonths: real): int
    requires lifespanMonths > 0.0
  {
    Percent(100.0 * (1.0 - Max0(ageMonths) / lifespanMonths))
  }

  function ComputeConnectivityScore(status: Status, lastSeenAt: Option<real>, now: real): int {
    if status == Online || lastSeenAt == None then 100
    else Percent(100.0 * (1.0 - (now - lastSeenAt.value) / MS_PER_HOUR / FULL_DEGRADE_HOURS))
  }

  function TelemetryScore(breaches: real, checks: real): int
    requires checks >= 0.0
  {
    if checks > 0.0 then Percent(100.0 * (1.0 - breaches / checks)) else 100
  }

  lemma QuotientEnds(x: real, d: real)
    requires d > 0.0
    ensures (x <= 0.0 ==> x / d <= 0.0) && (x >= d ==> x / d >= 1.0) && (0.0 <= x <= d ==> 0.0 <= x / d <= 1.0)
  {
    var q := x / d;
    assert q * d == x;
    assert q > 0.0 ==> q * d > 0.0;
    assert q < 0.0 ==> q * d < 0.0;
    assert (q - 1.0) * d == x - d;
  }

  /** Full score at or before installation, none from the expected end of life on, and in between
      the linear decline, to the nearest integer. */
  lemma AgeScoreIsLinear(ageMonths: real, lifespan: real)
    requires lifespan > 0.0
    ensures ageMonths <= 0.0 ==> ComputeAgeScore(ageMonths, lifespan) == 100
    ensures ageMonths >= lifespan ==> ComputeAgeScore(ageMonths, lifespan) == 0
    ensures 0.0 <= ageMonths <= lifespan ==>
              var exact := 100.0 * (1.0 - ageMonths / lifespan);
              exact - 0.5 <= ComputeAgeScore(ageMonths, lifespan) as real <= exact + 0.5
  {
    QuotientEnds(Max0(ageMonths), lifespan);
  }

  /** Full score while ONLINE, never heard, or just gone; none after 72 hours of silence. */
  lemma ConnectivityScoreEnds(status: Status, lastSeenAt: Option<real>, now: real)
    ensures status == Online || lastSeenAt == None ==> ComputeConnectivityScore(status, lastSeenAt, now) == 100
    ensures lastSeenAt.Some? && now <= lastSeenAt.value ==> ComputeConnectivityScore(status, lastSeenAt, now) == 100
    ensures status == Offline && lastSeenAt.Some? && now >= lastSeenAt.value + FULL_DEGRADE_HOURS * MS_PER_HOUR ==>
              ComputeConnectivityScore(status, lastSeenAt, now) == 0
  {
  }

  /** And in between the linear decline with the hours of silence, to the nearest integer. */
  lemma ConnectivityIsLinear(lastSeenAt: real, now: real)
    requires lastSeenAt <= now <= lastSeenAt + 72.0 * 3600000.0
    ensures var exact := 100.0 * (1.0 - (now - lastSeenAt) / (72.0 * 3600000.0));
            var score := ComputeConnectivityScore(Offline, Some(lastSeenAt), now) as real;
            score - 0.5 <= exact < score + 0.5
  {
    PercentExact(100.0 * (1.0 - (now - lastSeenAt) / MS_PER_HOUR / FULL_DEGRADE_HOURS));
    hide Percent;
  }

  /** 100 without checks, and otherwise the share of checks that were not breached. */
  lemma TelemetryIsLinear(breaches: nat, checks: nat)
    requires breaches <= checks
    ensures checks == 0 ==> TelemetryScore(breaches as real, checks as real) == 100
    ensures checks > 0 ==>
              var exact := 100.0 * (1.0 - breaches as real / checks as real);
              var score := TelemetryScore(breaches as real, checks as real) as real;
              score - 0.5 <= exact < score + 0.5
  {
    if checks > 0 {
      QuotientEnds(breaches as real, checks as real);
      PercentExact(100.0 * (1.0 - breaches as real / checks as real));
      hide Percent;
    }
  }

  lemma DivisionMonotone(x: real, y: real, d: real)
    requires x <= y && d > 0.0
    ensures x / d <= y / d
  {
  }

  lemma AgeNeverRaises(age1: real, age2: real, lifespan: real)
    requires lifespan > 0.0 && age1 <= age2
    ensures ComputeAgeScore(age1, lifespan) >= ComputeAgeScore(age2, lifespan)
  {
    DivisionMonotone(Max0(age1), Max0(age2), lifespan);
    PercentMonotone(100.0 * (1.0 - Max0(age2) / lifespan), 100.0 * (1.0 - Max0(age1) / lifespan));
  }

  lemma SilenceNeverRaises(lastSeenAt: Option<real>, now1: real, now2: real)
    requires now1 <= now2
    ensures ComputeConnectivityScore(Offline, lastSeenAt, now1) >= ComputeConnectivityScore(Offline, lastSeenAt, now2)
  {
  }

  lemma BreachesNeverRaise(b1: real, c1: real, b2: real, c2: real)
    requires c1 > 0.0 && c2 > 0.0 && b1 / c1 <= b2 / c2
    ensures TelemetryScore(b1, c1) >= TelemetryScore(b2, c2)
  {
  }

  // ---------------------------------------------------------------- the score of a device

  datatype Stage = New | Active | Aging | MaintenanceDue | EndOfLife | Decommissioned

  const GRACE_DAYS := 14.0
  const MS_PER_DAY := 86400000.0
  const DAYS_PER_MONTH := 30.44

  /** What an assessment reads from a device; `installedAt` falls back to the creation date and
      `lifespan` to 60 months before this point. */
  datatype Device = Device(stage: Stage, installedAt: real, lifespan: real, status: Status, lastSeenAt: Option<real>)

  /** `factors.reduce(...)` with the device weights, rounded. */
  function DeviceScore(age: int, connectivity: int, telemetry: int): int {
    Round(age as real * 0.25 + connectivity as real * 0.35 + telemetry as real * 0.4)
  }

  function StageOfScore(score: int): Stage {
    if score >= 80 then Active else if score >= 60 then Aging else if score >= 35 then MaintenanceDue else EndOfLife
  }

  predicate TooNew(d: Device, now: real) {
    (now - d.installedAt) / MS_PER_DAY < GRACE_DAYS && d.lastSeenAt == None
  }

  function DeriveStage(d: Device, score: int, now: real): Stage {
    if d.stage == Decommissioned then Decommissioned
    else if TooNew(d, now) then New
    else StageOfScore(score)
  }

  function AgeMonths(installedAt: real, now: real): real {
    (now - installedAt) / MS_PER_DAY / DAYS_PER_MONTH
  }

  function AssessDevice(d: Device, breaches: nat, checks: nat, now: real): (int, Stage)
    requires d.lifespan > 0.0
  {
    var score := DeviceScore(
      ComputeAgeScore(AgeMonths(d.installedAt, now), d.lifespan),
      ComputeConnectivityScore(d.status, d.lastSeenAt, now),
      TelemetryScore(breaches as real, checks as real));
    (score, DeriveStage(d, score, now))
  }

  /** From healthy to worn out; the stages outside the scale have no rank. */
  function Wear(stage: Stage): int {
    match stage
    case New => -1
    case Active => 0
    case Aging => 1
    case MaintenanceDue => 2
    case EndOfLife => 3
    case Decommissioned => 4
  }

  lemma DeviceScoreMonotone(a1: int, c1: int, t1: int, a2: int, c2: int, t2: int)
    requires a1 <= a2 && c1 <= c2 && t1 <= t2
    ensures DeviceScore(a1, c1, t1) <= DeviceScore(a2, c2, t2)
  {
  }

  /** The weights sum to 1: the score of a device is an average of its factors. */
  lemma DeviceScoreIsAverage(age: int, connectivity: int, telemetry: int, lo: int, hi: int)
    requires lo <= age <= hi && lo <= connectivity <= hi && lo <= telemetry <= hi
    ensures lo <= DeviceScore(age, connectivity, telemetry) <= hi
  {
    DeviceScoreMonotone(lo, lo, lo, age, connectivity, telemetry);
    DeviceScoreMonotone(age, connectivity, telemetry, hi, hi, hi);
    assert DeviceScore(lo, lo, lo) == lo && DeviceScore(hi, hi, hi) == hi;
  }

  /** What each factor is worth: 4 points of age are 1 point of the score, 20 of connectivity 7, and
      5 of telemetry 2; and full factors are a full score. */
  lemma DeviceWeights(age: int, connectivity: int, telemetry: int)
    ensures DeviceScore(age + 4, connectivity, telemetry) == DeviceScore(age, connectivity, telemetry) + 1
    ensures DeviceScore(age, connectivity + 20, telemetry) == DeviceScore(age, connectivity, telemetry) + 7
    ensures DeviceScore(age, connectivity, telemetry + 5) == DeviceScore(age, connectivity, telemetry) + 2
    ensures DeviceScore(100, 100, 100) == 100
  {
  }

  /** The stage of a device: decommissioned ones stay so, one never heard within 14 days of its
      installation is NEW, and all others are staged by their score at 80, 60 and 35. */
  lemma StageExact(d: Device, score: int, now: real)
    ensures DeriveStage(d, score, now) == Decommissioned <==> d.stage == Decommissioned
    ensures DeriveStage(d, score, now) == New <==>
              d.stage != Decommissioned && d.lastSeenAt == None && now < d.installedAt + 14.0 * 86400000.0
    ensures var scored := d.stage != Decommissioned && (d.lastSeenAt.Some? || now >= d.installedAt + 14.0 * 86400000.0);
            && (DeriveStage(d, score, now) == Active <==> scored && score >= 80)
            && (DeriveStage(d, score, now) == Aging <==> scored && 60 <= score < 80)
            && (DeriveStage(d, score, now) == MaintenanceDue <==> scored && 35 <= score < 60)
            && (DeriveStage(d, score, now) == EndOfLife <==> scored && score < 35)
  {
  }

  /** A month of age is 30.44 days. */
  lemma AgeIsInMonths(installedAt: real, months: real)
    ensures AgeMonths(installedAt, installedAt + months * 30.44 * 86400000.0) == months
  {
  }

  /** A stage never improves as the score falls. */
  lemma StageFollowsScore(s1: int, s2: int)
    requires s1 >= s2
    ensures Wear(StageOfScore(s1)) <= Wear(StageOfScore(s2))
  {
  }

  /** An empty window of records counts as no signal and scores 100: it raises the telemetry score
      exactly when more than one check in 200 was breached. */
  lemma EmptyWindowRaisesExactly(b: nat, c: nat)
    requires b <= c
    ensures TelemetryScore(0.0, 0.0) > TelemetryScore(b as real, c as real) <==> 200 * b > c
  {
    hide Percent;
    assert TelemetryScore(0.0, 0.0) == 100;
    if c > 0 {
      QuotientAbove(b as real, c as real);
      FullScoreExactly(b as real / c as real);
    }
  }

  lemma QuotientAbove(x: real, d: real)
    requires d > 0.0
    ensures x / d > 0.005 <==> 200.0 * x > d
  {
    var q := x / d;
    assert q * d == x;
    assert d * (q - 0.005) == x - 0.005 * d;
    SignOfScaled(q - 0.005, d);
  }

  lemma FullScoreExactly(ratio: real)
    ensures Percent(100.0 * (1.0 - ratio)) < 100 <==> ratio > 0.005
  {
  }

  /** The breaches of the window at a later moment weigh no less: the ratio is no lower, and where
      the window has emptied, at most one check in 200 had been breached. */
  predicate NoFewerBreaches(b1: nat, c1: nat, b2: nat, c2: nat) {
    c1 > 0 ==> if c2 > 0 then b1 as real / c1 as real <= b2 as real / c2 as real else 200 * b1 <= c1
  }

  /** A device left as it is never recovers, as long as its breaches do not fall out of the window:
      at a later moment, ONLINE or OFFLINE as before, its score is no higher, and once past the
      NEW rule its stage is no better. */
  lemma NeglectNeverHeals(d: Device, b1: nat, c1: nat, now1: real, b2: nat, c2: nat, now2: real)
    requires d.lifespan > 0.0 && now1 <= now2
    requires b1 <= c1 && b2 <= c2 && NoFewerBreaches(b1, c1, b2, c2)
    ensures var (s1, g1), (s2, g2) := AssessDevice(d, b1, c1, now1), AssessDevice(d, b2, c2, now2);
            && s1 >= s2
            && (g1 == New || g1 == Decommissioned || Wear(g1) <= Wear(g2))
            && (g1 == Decommissioned <==> g2 == Decommissioned)
  {
    hide ComputeAgeScore, ComputeConnectivityScore;
    DivisionMonotone(now1 - d.installedAt, now2 - d.installedAt, MS_PER_DAY);
    DivisionMonotone((now1 - d.installedAt) / MS_PER_DAY, (now2 - d.installedAt) / MS_PER_DAY, DAYS_PER_MONTH);
    AgeNeverRaises(AgeMonths(d.installedAt, now1), AgeMonths(d.installedAt, now2), d.lifespan);
    if d.status == Offline {
      SilenceNeverRaises(d.lastSeenAt, now1, now2);
    } else {
      ConnectivityScoreEnds(d.status, d.lastSeenAt, now1);
      ConnectivityScoreEnds(d.status, d.lastSeenAt, now2);
    }
    if c1 > 0 && c2 > 0 {
      BreachesNeverRaise(b1 as real, c1 as real, b2 as real, c2 as real);
    } else {
      EmptyWindowRaisesExactly(b1, c1);
    }
    hide TelemetryScore;
    DeviceScoreMonotone(
      ComputeAgeScore(AgeMonths(d.installedAt, now2), d.lifespan),
      ComputeConnectivityScore(d.status, d.lastSeenAt, now2), TelemetryScore(b2 as real, c2 as real),
      ComputeAgeScore(AgeMonths(d.installedAt, now1), d.lifespan),
      ComputeConnectivityScore(d.status, d.lastSeenAt, now1), TelemetryScore(b1 as real, c1 as real));
    StageFollowsScore(AssessDevice(d, b1, c1, now1).0, AssessDevice(d, b2, c2, now2).0);
  }

  /** Silence alone can raise a score: a device that went OFFLINE at once with every check breached
      scores 25 after four days and, when the 30-day window has emptied, 65 after forty. */
  lemma SilenceCanHeal()
    ensures var d := Device(Active, 0.0, 60.0, Offline, Some(0.0));
            && AssessDevice(d, 10, 10, 4.0 * MS_PER_DAY).0 == 25
            && AssessDevice(d, 0, 0, 40.0 * MS_PER_DAY).0 == 65
  {
    var d := Device(Active, 0.0, 60.0, Offline, Some(0.0));
    ConnectivityScoreEnds(Offline, Some(0.0), 4.0 * MS_PER_DAY);
    ConnectivityScoreEnds(Offline, Some(0.0), 40.0 * MS_PER_DAY);
    assert ComputeAgeScore(AgeMonths(0.0, 4.0 * MS_PER_DAY), 60.0) == 100;
    assert ComputeAgeScore(AgeMonths(0.0, 40.0 * MS_PER_DAY), 60.0) == 98;
    assert TelemetryScore(10.0, 10.0) == 0;
  }

  // ---------------------------------------------------------------- the pooled factors of an asset

  /** A device node of an asset: its weight, its own connectivity score and its breach counts. */
  datatype Node = Node(weight: real, connectivity: int, breaches: nat, checks: nat)

  /** A node as the database has it; the loop scores its connectivity at `now`. */
  datatype StoredNode = StoredNode(weight: real, status: Status, lastSeenAt: Option<real>, breaches: nat, checks: nat)

  function Measured(n: StoredNode, now: real): Node {
    Node(n.weight, ComputeConnectivityScore(n.status, n.lastSeenAt, now), n.breaches, n.checks)
  }

  function MeasuredAll(nodes: seq<StoredNode>, now: real): (measured: seq<Node>)
    ensures |measured| == |nodes| && forall k :: 0 <= k < |nodes| ==> measured[k] == Measured(nodes[k], now)
  {
    if nodes == [] then [] else MeasuredAll(nodes[..|nodes| - 1], now) + [Measured(nodes[|nodes| - 1], now)]
  }

  predicate ProperNode(n: Node) {
    n.weight >= 0.0 && 0 <= n.connectivity <= 100 && n.breaches <= n.checks
  }

  ghost predicate ProperNodes(nodes: seq<Node>) {
    forall k :: 0 <= k < |nodes| ==> ProperNode(nodes[k])
  }

  /** A stored node with a weight that is not negative counts as a proper one, at full connectivity
      while it is ONLINE and at none after 72 hours of silence. */
  lemma StoredNodeCounts(n: StoredNode, now: real)
    requires n.weight >= 0.0 && n.breaches <= n.checks
    ensures ProperNode(Measured(n, now)) && Measured(n, now).weight == n.weight
    ensures n.status == Online ==> Measured(n, now).connectivity == 100
    ensures n.status == Offline && n.lastSeenAt.Some? && now >= n.lastSeenAt.value + 72.0 * 3600000.0 ==> Measured(n, now).connectivity == 0
    ensures TelemetryScore(Measured(n, now).breaches as real, Measured(n, now).checks as real)
            == TelemetryScore(n.breaches as real, n.checks as real)
  {
    ConnectivityScoreEnds(n.status, n.lastSeenAt, now);
    hide Percent, TelemetryScore;
  }

  /** The four quantities the loop of `computeFactors` adds up. */
  datatype Quantity = Weight | Connectivity | Breaches | Checks

  function Amount(q: Quantity, n: Node): real {
    match q
    case Weight => n.weight
    case Connectivity => n.connectivity as real * n.weight
    case Breaches => n.breaches as real * n.weight
    case Checks => n.checks as real * n.weight
  }

  function Sum(q: Quantity, nodes: seq<Node>): real {
    if nodes == [] then 0.0 else Sum(q, nodes[..|nodes| - 1]) + Amount(q, nodes[|nodes| - 1])
  }

  datatype Factors = Factors(age: int, connectivity: int, telemetry: int)

  function PooledConnectivity(nodes: seq<Node>): int {
    var total := Sum(Weight, nodes);
    if total > 0.0 then Percent(Sum(Connectivity, nodes) / total) else 100
  }

  function PooledTelemetry(nodes: seq<Node>): int {
    var checks := Sum(Checks, nodes);
    if checks > 0.0 then Percent(100.0 * (1.0 - Sum(Breaches, nodes) / checks)) else 100
  }

  /** `computeFactors`, with its loop. */
  method ComputeFactors(stored: seq<StoredNode>, ageMonths: real, lifespanMonths: real, now: real) returns (factors: Factors)
    requires lifespanMonths > 0.0
    ensures var nodes := MeasuredAll(stored, now);
            factors == Factors(ComputeAgeScore(ageMonths, lifespanMonths), PooledConnectivity(nodes), PooledTelemetry(nodes))
  {
    hide ComputeAgeScore, ComputeConnectivityScore, Percent, MeasuredAll;
    ghost var nodes := MeasuredAll(stored, now);
    var age := ComputeAgeScore(ageMonths, lifespanMonths);
    if |stored| == 0 { return Factors(age, 100, 100); }
    var weightedConnectivitySum, connectivityWeightTotal, weightedBreaches, weightedChecks := 0.0, 0.0, 0.0, 0.0;
    for k := 0 to |stored|
      invariant weightedConnectivitySum == Sum(Connectivity, nodes[..k]) && connectivityWeightTotal == Sum(Weight, nodes[..k])
      invariant weightedBreaches == Sum(Breaches, nodes[..k]) && weightedChecks == Sum(Checks, nodes[..k])
    {
      var node := stored[k];
      var connectivity := ComputeConnectivityScore(node.status, node.lastSeenAt, now);
      assert nodes[k] == Measured(node, now);
      SumPush(nodes, k);
      weightedConnectivitySum := weightedConnectivitySum + connectivity as real * node.weight;
      connectivityWeightTotal := connectivityWeightTotal + node.weight;
      weightedBreaches := weightedBreaches + node.breaches as real * node.weight;
      weightedChecks := weightedChecks + node.checks as real * node.weight;
    }
    assert nodes[..|stored|] == nodes;
    var connectivityScore := if connectivityWeightTotal > 0.0 then Percent(weightedConnectivitySum / connectivityWeightTotal) else 100;
    var telemetryScore := if weightedChecks > 0.0 then Percent(100.0 * (1.0 - weightedBreaches / weightedChecks)) else 100;
    factors := Factors(age, connectivityScore, telemetryScore);
  }

  lemma SumPush(nodes: seq<Node>, k: nat)
    requires k < |nodes|
    ensures forall q: Quantity :: Sum(q, nodes[..k + 1]) == Sum(q, nodes[..k]) + Amount(q, nodes[k])
  {
    assert nodes[..k + 1][..k] == nodes[..k];
  }

  datatype AssetStatus = Healthy | Warning | Critical | Unknown

  function AssetScore(f: Factors): int {
    Round(f.age as real * 0.2 + f.connectivity as real * 0.3 + f.telemetry as real * 0.5)
  }

  function DeriveStatus(nodeCount: nat, score: Option<int>): AssetStatus {
    if nodeCount == 0 || score == None then Unknown
    else if score.value >= 80 then Healthy
    else if score.value >= 50 then Warning
    else Critical
  }

  /** The score and status that `assessAsset` stores. */
  function AssessAsset(nodes: seq<Node>, ageMonths: real, lifespanMonths: real): (Option<int>, AssetStatus)
    requires lifespanMonths > 0.0
  {
    var f := Factors(ComputeAgeScore(ageMonths, lifespanMonths), PooledConnectivity(nodes), PooledTelemetry(nodes));
    var score := if nodes == [] then None else Some(AssetScore(f));
    (score, DeriveStatus(|nodes|, score))
  }

  // ---------------------------------------------------------------- pooling is an average

  lemma ScaledBetween(lo: real, x: real, hi: real, w: real)
    requires lo <= x <= hi && w >= 0.0
    ensures lo * w <= x * w <= hi * w
  {
  }

  lemma Distribute(k: real, x: real, y: real)
    ensures k * (x + y) == k * x + k * y
  {
  }

  lemma Regroup(x: real, y: real, z: real)
    ensures x * y * z == x * (y * z)
  {
  }

  lemma NonNegativeProduct(x: real, y: real)
    requires x >= 0.0 && y >= 0.0
    ensures x * y >= 0.0
  {
  }

  /** Quantity `q` of a node lies between `lo` and `hi` times its quantity `base`. */
  predicate Between(q: Quantity, base: Quantity, n: Node, lo: real, hi: real) {
    Amount(base, n) >= 0.0 && lo * Amount(base, n) <= Amount(q, n) <= hi * Amount(base, n)
  }

  lemma ConnectivityBetween(n: Node, lo: real, hi: real)
    requires ProperNode(n) && (n.weight > 0.0 ==> lo <= n.connectivity as real <= hi)
    ensures Between(Connectivity, Weight, n, lo, hi)
  {
    if n.weight > 0.0 { ScaledBetween(lo, n.connectivity as real, hi, n.weight); }
  }

  lemma BreachesBetween(n: Node, lo: real, hi: real)
    requires ProperNode(n)
    requires n.weight > 0.0 && n.checks > 0 ==> lo * n.checks as real <= n.breaches as real <= hi * n.checks as real
    ensures Between(Breaches, Checks, n, lo, hi)
  {
    var c, b, w := n.checks as real, n.breaches as real, n.weight;
    NonNegativeProduct(c, w);
    Regroup(lo, c, w);
    Regroup(hi, c, w);
    if w > 0.0 && n.checks > 0 { ScaledBetween(lo * c, b, hi * c, w); }
  }

  /** Bounds on every node bound the sums. */
  lemma {:induction false} SumBetween(q: Quantity, base: Quantity, nodes: seq<Node>, lo: real, hi: real)
    requires forall k :: 0 <= k < |nodes| ==> Between(q, base, nodes[k], lo, hi)
    ensures Sum(base, nodes) >= 0.0
    ensures lo * Sum(base, nodes) <= Sum(q, nodes) <= hi * Sum(base, nodes)
  {
    hide Amount;
    if nodes == [] {
    } else {
      var init, last := nodes[..|nodes| - 1], nodes[|nodes| - 1];
      SumBetween(q, base, init, lo, hi);
      assert Between(q, base, last, lo, hi);
      Distribute(lo, Sum(base, init), Amount(base, last));
      Distribute(hi, Sum(base, init), Amount(base, last));
    }
  }

  lemma QuotientBetween(lo: real, x: real, hi: real, d: real)
    requires d > 0.0 && lo * d <= x <= hi * d
    ensures lo <= x / d <= hi
  {
    var q := x / d;
    assert q * d == x;
    assert (q - lo) * d >= 0.0 && (hi - q) * d >= 0.0;
  }

  /** Pooled connectivity lies between the lowest and the highest score of the nodes that count. */
  lemma ConnectivityIsAverage(nodes: seq<Node>, lo: int, hi: int)
    requires ProperNodes(nodes) && 0 <= lo <= hi <= 100 && Sum(Weight, nodes) > 0.0
    requires forall k :: 0 <= k < |nodes| && nodes[k].weight > 0.0 ==> lo <= nodes[k].connectivity <= hi
    ensures lo <= PooledConnectivity(nodes) <= hi
  {
    hide Between, Sum;
    forall k | 0 <= k < |nodes| ensures Between(Connectivity, Weight, nodes[k], lo as real, hi as real) {
      ConnectivityBetween(nodes[k], lo as real, hi as real);
    }
    SumBetween(Connectivity, Weight, nodes, lo as real, hi as real);
    QuotientBetween(lo as real, Sum(Connectivity, nodes), hi as real, Sum(Weight, nodes));
    PercentBetween(Sum(Connectivity, nodes) / Sum(Weight, nodes), lo, hi);
  }

  lemma TelemetryFollowsRatio(nodes: seq<Node>, lo: real, hi: real)
    requires Sum(Checks, nodes) > 0.0 && lo <= Sum(Breaches, nodes) / Sum(Checks, nodes) <= hi
    ensures Percent(100.0 * (1.0 - hi)) <= PooledTelemetry(nodes) <= Percent(100.0 * (1.0 - lo))
  {
    hide Sum, Percent;
    var r := Sum(Breaches, nodes) / Sum(Checks, nodes);
    PercentMonotone(100.0 * (1.0 - hi), 100.0 * (1.0 - r));
    PercentMonotone(100.0 * (1.0 - r), 100.0 * (1.0 - lo));
  }

  /** The pooled breach ratio lies between the lowest and the highest ratio of the nodes that
      count and have checks, and the telemetry score accordingly. */
  lemma BreachRatioIsAverage(nodes: seq<Node>, lo: real, hi: real)
    requires ProperNodes(nodes) && Sum(Checks, nodes) > 0.0
    requires forall k :: 0 <= k < |nodes| && nodes[k].weight > 0.0 && nodes[k].checks > 0 ==>
               lo * nodes[k].checks as real <= nodes[k].breaches as real <= hi * nodes[k].checks as real
    ensures lo <= Sum(Breaches, nodes) / Sum(Checks, nodes) <= hi
    ensures Percent(100.0 * (1.0 - hi)) <= PooledTelemetry(nodes) <= Percent(100.0 * (1.0 - lo))
  {
    hide Between, Sum, Percent, PooledTelemetry;
    forall k | 0 <= k < |nodes| ensures Between(Breaches, Checks, nodes[k], lo, hi) { BreachesBetween(nodes[k], lo, hi); }
    SumBetween(Breaches, Checks, nodes, lo, hi);
    QuotientBetween(lo, Sum(Breaches, nodes), hi, Sum(Checks, nodes));
    TelemetryFollowsRatio(nodes, lo, hi);
  }

  lemma {:induction false} NothingAddsUp(q: Quantity, nodes: seq<Node>)
    requires forall k :: 0 <= k < |nodes| ==> nodes[k].weight == 0.0
    ensures Sum(q, nodes) == 0.0
  {
    if nodes == [] {
    } else {
      NothingAddsUp(q, nodes[..|nodes| - 1]);
    }
  }

  /** Nodes that all weigh nothing leave both pooled factors at full score. */
  lemma NothingCountsIsHealthy(nodes: seq<Node>)
    requires forall k :: 0 <= k < |nodes| ==> nodes[k].weight == 0.0
    ensures PooledConnectivity(nodes) == 100 && PooledTelemetry(nodes) == 100
  {
    NothingAddsUp(Weight, nodes);
    NothingAddsUp(Checks, nodes);
    hide Percent, Sum;
  }

  /** The weights sum to 1: the score of an asset is an average of its factors. */
  lemma AssetScoreIsAverage(f: Factors, lo: int, hi: int)
    requires lo <= f.age <= hi && lo <= f.connectivity <= hi && lo <= f.telemetry <= hi
    ensures lo <= AssetScore(f) <= hi
  {
    assert (lo as real + 0.5).Floor == lo && (hi as real + 0.5).Floor == hi;
  }

  /** What each factor is worth: 5 points of age are 1 point of the score, 10 of connectivity 3, and
      2 of telemetry 1; and full factors are a full score. */
  lemma AssetWeights(age: int, connectivity: int, telemetry: int)
    ensures AssetScore(Factors(age + 5, connectivity, telemetry)) == AssetScore(Factors(age, connectivity, telemetry)) + 1
    ensures AssetScore(Factors(age, connectivity + 10, telemetry)) == AssetScore(Factors(age, connectivity, telemetry)) + 3
    ensures AssetScore(Factors(age, connectivity, telemetry + 2)) == AssetScore(Factors(age, connectivity, telemetry)) + 1
    ensures AssetScore(Factors(100, 100, 100)) == 100
  {
  }

  /** An asset with nodes is HEALTHY from 80 on and CRITICAL below 50. */
  lemma AssetStatusExact(nodes: seq<Node>, ageMonths: real, lifespanMonths: real)
    requires lifespanMonths > 0.0 && nodes != []
    ensures var (score, status) := AssessAsset(nodes, ageMonths, lifespanMonths);
            && score.Some?
            && (status == Healthy <==> score.value >= 80)
            && (status == Warning <==> 50 <= score.value < 80)
            && (status == Critical <==> score.value < 50)
  {
    hide Percent, Sum;
  }

  /** One thing wrong at a time: a new asset whose one node is ONLINE but breaches every check scores
      50, one whose node has long been silent 70, and one at the end of its life 80. */
  lemma OneFactorLost(checks: nat, lifespanMonths: real)
    requires checks > 0 && lifespanMonths > 0.0
    ensures AssessAsset([Node(1.0, 100, checks, checks)], 0.0, lifespanMonths) == (Some(50), Warning)
    ensures AssessAsset([Node(1.0, 0, 0, checks)], 0.0, lifespanMonths) == (Some(70), Warning)
    ensures AssessAsset([Node(1.0, 100, 0, checks)], lifespanMonths, lifespanMonths) == (Some(80), Healthy)
  {
    SingleNodeSpeaksForItself(Node(1.0, 100, checks, checks));
    SingleNodeSpeaksForItself(Node(1.0, 0, 0, checks));
    SingleNodeSpeaksForItself(Node(1.0, 100, 0, checks));
    AgeScoreIsLinear(0.0, lifespanMonths);
    AgeScoreIsLinear(lifespanMonths, lifespanMonths);
    TelemetryEnds(checks);
    hide Sum, Percent, PooledConnectivity, PooledTelemetry, ComputeAgeScore, TelemetryScore;
  }

  lemma TelemetryEnds(checks: nat)
    requires checks > 0
    ensures TelemetryScore(checks as real, checks as real) == 0 && TelemetryScore(0 as real, checks as real) == 100
  {
    QuotientEnds(checks as real, checks as real);
    QuotientEnds(0 as real, checks as real);
  }

  /** An assessed asset scores within 0..100, and is unknown exactly when it has no nodes. */
  lemma AssetScoreInRange(nodes: seq<Node>, ageMonths: real, lifespanMonths: real)
    requires lifespanMonths > 0.0
    ensures var (score, status) := AssessAsset(nodes, ageMonths, lifespanMonths);
            && (score == None <==> nodes == []) && (status == Unknown <==> nodes == [])
            && (score.Some? ==> 0 <= score.value <= 100)
  {
    hide Percent, Sum;
  }

  // ---------------------------------------------------------------- what does not change the scores

  lemma {:induction false} SumAppend(q: Quantity, a: seq<Node>, b: seq<Node>)
    ensures Sum(q, a + b) == Sum(q, a) + Sum(q, b)
  {
    if b == [] {
      assert a + b == a;
    } else {
      assert (a + b)[..|a + b| - 1] == a + b[..|b| - 1];
      SumAppend(q, a, b[..|b| - 1]);
    }
  }

  lemma Without(a: seq<Node>, i: nat)
    requires i < |a|
    ensures multiset(a[..i] + a[i + 1..]) == multiset(a) - multiset{a[i]}
  {
    assert a == a[..i] + [a[i]] + a[i + 1..];
  }

  lemma SumWithout(q: Quantity, a: seq<Node>, i: nat)
    requires i < |a|
    ensures Sum(q, a) == Sum(q, a[..i] + a[i + 1..]) + Amount(q, a[i])
  {
    hide Amount;
    assert a == (a[..i] + [a[i]]) + a[i + 1..];
    SumAppend(q, a[..i] + [a[i]], a[i + 1..]);
    SumAppend(q, a[..i], a[i + 1..]);
    assert (a[..i] + [a[i]])[..i] == a[..i];
  }

  lemma {:induction false} SumOfPermutation(q: Quantity, a: seq<Node>, b: seq<Node>)
    requires multiset(a) == multiset(b)
    ensures Sum(q, a) == Sum(q, b)
    decreases |a|
  {
    hide Amount;
    if a == [] {
      assert |multiset(b)| == 0;
    } else {
      assert a[0] in multiset(b);
      var i :| 0 <= i < |b| && b[i] == a[0];
      Without(a, 0);
      Without(b, i);
      SumWithout(q, a, 0);
      SumWithout(q, b, i);
      SumOfPermutation(q, a[..0] + a[1..], b[..i] + b[i + 1..]);
    }
  }

  /** The order of the nodes does not matter. */
  lemma OrderDoesNotMatter(a: seq<Node>, b: seq<Node>, ageMonths: real, lifespanMonths: real)
    requires multiset(a) == multiset(b) && lifespanMonths > 0.0
    ensures AssessAsset(a, ageMonths, lifespanMonths) == AssessAsset(b, ageMonths, lifespanMonths)
  {
    SumOfPermutation(Weight, a, b);
    SumOfPermutation(Connectivity, a, b);
    SumOfPermutation(Breaches, a, b);
    SumOfPermutation(Checks, a, b);
    assert |a| == |multiset(a)| == |multiset(b)| == |b|;
    hide Sum, Percent, ComputeAgeScore;
  }

  function Times(k: real, x: real): real {
    k * x
  }

  function ScaledNode(n: Node, k: real): Node {
    n.(weight := k * n.weight)
  }

  function Scaled(nodes: seq<Node>, k: real): (r: seq<Node>)
    ensures |r| == |nodes| && forall i :: 0 <= i < |nodes| ==> r[i] == ScaledNode(nodes[i], k)
  {
    if nodes == [] then [] else Scaled(nodes[..|nodes| - 1], k) + [ScaledNode(nodes[|nodes| - 1], k)]
  }

  lemma {:induction false} SumOfScaled(q: Quantity, nodes: seq<Node>, k: real)
    ensures Sum(q, Scaled(nodes, k)) == Times(k, Sum(q, nodes))
  {
    hide Amount, ScaledNode, Times, Sum, Scaled;
    if nodes == [] {
      ScaledEmpty(q, k);
    } else {
      var init, last := nodes[..|nodes| - 1], nodes[|nodes| - 1];
      SumOfScaled(q, init, k);
      ScaledStep(q, nodes, k);
      AmountOfScaled(q, last, k);
      AddScaled(Sum(q, Scaled(init, k)), Sum(q, init), Amount(q, ScaledNode(last, k)), Amount(q, last), k);
    }
  }

  lemma ScaledEmpty(q: Quantity, k: real)
    ensures Sum(q, Scaled([], k)) == Times(k, Sum(q, []))
  {
  }

  lemma ScaledStep(q: Quantity, nodes: seq<Node>, k: real)
    requires nodes != []
    ensures var init, last := nodes[..|nodes| - 1], nodes[|nodes| - 1];
            && Sum(q, Scaled(nodes, k)) == Sum(q, Scaled(init, k)) + Amount(q, ScaledNode(last, k))
            && Sum(q, nodes) == Sum(q, init) + Amount(q, last)
  {
    hide Amount, ScaledNode;
    assert Scaled(nodes, k)[..|nodes| - 1] == Scaled(nodes[..|nodes| - 1], k);
  }

  lemma AddScaled(x': real, x: real, y': real, y: real, k: real)
    requires x' == Times(k, x) && y' == Times(k, y)
    ensures x' + y' == Times(k, x + y)
  {
    Distribute(k, x, y);
  }

  lemma AmountOfScaled(q: Quantity, n: Node, k: real)
    ensures Amount(q, ScaledNode(n, k)) == Times(k, Amount(q, n))
  {
    Swapped(n.connectivity as real, k, n.weight);
    Swapped(n.breaches as real, k, n.weight);
    Swapped(n.checks as real, k, n.weight);
  }

  lemma Swapped(x: real, k: real, w: real)
    ensures x * (k * w) == k * (x * w)
  {
  }

  lemma ScaledQuotient(x: real, d: real, k: real)
    requires k > 0.0 && d > 0.0
    ensures k * d > 0.0 && (k * x) / (k * d) == x / d
  {
    var q := x / d;
    assert q * d == x;
    Swapped(q, k, d);
    assert q * (k * d) == k * x;
  }

  /** Only the proportions of the weights matter. */
  lemma ScaleDoesNotMatter(nodes: seq<Node>, k: real, ageMonths: real, lifespanMonths: real)
    requires k > 0.0 && lifespanMonths > 0.0
    ensures AssessAsset(Scaled(nodes, k), ageMonths, lifespanMonths) == AssessAsset(nodes, ageMonths, lifespanMonths)
  {
    hide Sum, Percent, ComputeAgeScore, Scaled;
    forall q: Quantity ensures Sum(q, Scaled(nodes, k)) == k * Sum(q, nodes) { SumOfScaled(q, nodes, k); }
    PoolingOfScaled(nodes, Scaled(nodes, k), k);
  }

  lemma PoolingOfScaled(nodes: seq<Node>, scaled: seq<Node>, k: real)
    requires k > 0.0 && forall q: Quantity :: Sum(q, scaled) == k * Sum(q, nodes)
    ensures PooledConnectivity(scaled) == PooledConnectivity(nodes) && PooledTelemetry(scaled) == PooledTelemetry(nodes)
  {
    hide Sum, Percent;
    SameQuotient(Sum(Connectivity, nodes), Sum(Weight, nodes), Sum(Connectivity, scaled), Sum(Weight, scaled), k);
    SameQuotient(Sum(Breaches, nodes), Sum(Checks, nodes), Sum(Breaches, scaled), Sum(Checks, scaled), k);
  }

  lemma SameQuotient(x: real, d: real, x': real, d': real, k: real)
    requires k > 0.0 && x' == k * x && d' == k * d
    ensures (d' > 0.0 <==> d > 0.0) && (d > 0.0 ==> x' / d' == x / d)
  {
    SignOfScaled(d, k);
    if d > 0.0 { ScaledQuotient(x, d, k); }
  }

  lemma SignOfScaled(x: real, k: real)
    requires k > 0.0
    ensures k * x > 0.0 <==> x > 0.0
  {
  }

  /** "0 excludes it": a node of weight 0, wherever it is listed, leaves the assessment as it was
      if and only if the asset has another node. On an asset without nodes it does not: the
      score turns from none into a number. */
  lemma ZeroWeightExcludesExactly(before: seq<Node>, node: Node, after: seq<Node>, ageMonths: real, lifespanMonths: real)
    requires node.weight == 0.0 && lifespanMonths > 0.0
    ensures AssessAsset(before + [node] + after, ageMonths, lifespanMonths) == AssessAsset(before + after, ageMonths, lifespanMonths)
            <==> before + after != []
    ensures before + after == [] ==>
              && AssessAsset(before + after, ageMonths, lifespanMonths) == (None, Unknown)
              && AssessAsset(before + [node] + after, ageMonths, lifespanMonths).0.Some?
  {
    forall q: Quantity ensures Sum(q, before + [node] + after) == Sum(q, before + after) {
      SumAppend(q, before + [node], after);
      SumAppend(q, before, [node]);
      SumAppend(q, before, after);
      assert Sum(q, [node]) == Amount(q, node) by { assert [node][..0] == []; }
      assert Amount(q, node) == 0.0;
    }
    hide Sum, Percent, ComputeAgeScore, Amount;
  }

  lemma SumOfOne(q: Quantity, n: Node)
    ensures Sum(q, [n]) == Amount(q, n)
  {
    assert [n][..0] == [];
  }

  /** An asset with one node that counts has that node's own connectivity and telemetry scores. */
  lemma SingleNodeSpeaksForItself(n: Node)
    requires ProperNode(n) && n.weight > 0.0
    ensures PooledConnectivity([n]) == n.connectivity
    ensures PooledTelemetry([n]) == TelemetryScore(n.breaches as real, n.checks as real)
  {
    hide Sum, Percent;
    SumOfOne(Weight, n);
    SumOfOne(Connectivity, n);
    SumOfOne(Breaches, n);
    SumOfOne(Checks, n);
    SingleConnectivity(n);
    SingleTelemetry(n);
  }

  lemma SingleTelemetry(n: Node)
    requires ProperNode(n) && n.weight > 0.0
    ensures var b, c := n.breaches as real * n.weight, n.checks as real * n.weight;
            (c > 0.0 <==> n.checks > 0) && (c > 0.0 ==> b / c == n.breaches as real / n.checks as real)
  {
    if n.checks > 0 {
      WeightedQuotient(n.breaches as real, n.checks as real, n.weight);
    } else {
      assert n.checks as real * n.weight == 0.0;
    }
  }

  lemma SingleConnectivity(n: Node)
    requires ProperNode(n) && n.weight > 0.0
    ensures Percent(n.connectivity as real * n.weight / n.weight) == n.connectivity
  {
    hide Percent;
    WeightedQuotient(n.connectivity as real, 1.0, n.weight);
    PercentBetween(n.connectivity as real, n.connectivity, n.connectivity);
  }

  lemma WeightedQuotient(x: real, d: real, w: real)
    requires w > 0.0 && d > 0.0
    ensures d * w > 0.0 && (x * w) / (d * w) == x / d
    ensures d == 1.0 ==> (x * w) / w == x
  {
    ScaledQuotient(x, d, w);
    assert x * w == w * x && d * w == w * d;
  }
}
