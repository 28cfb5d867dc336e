/** Warning bands on telemetry: the listener that warns about one reading, and the count of
    breaches that the health scores are built from. */
module TelemetryWarnings {
  import opened Wrappers

  datatype Field = Field(key: string, warningMin: Option<real>, warningMax: Option<real>)

  /** A device's override of one field's band. */
  datatype Override = Override(enabled: Option<bool>, min: Option<real>, max: Option<real>)

  /** The numeric readings of a telemetry record; other values never take part. */
  type Payload = map<string, real>

  type Overrides = map<string, Override>

  function OrElse(a: Option<real>, b: Option<real>): Option<real> {
    if a.Some? then a else b
  }

  /** `checkThreshold`: the band that is breached, if any. */
  function CheckThreshold(field: Field, value: real, override: Option<Override>): Option<(Option<real>, Option<real>)> {
    if override.Some? && override.value.enabled == Some(false) then None
    else
      var min := if override.Some? then OrElse(override.value.min, field.warningMin) else field.warningMin;
      var max := if override.Some? then OrElse(override.value.max, field.warningMax) else field.warningMax;
      if min == None && max == None then None
      else if (min.Some? && value < min.value) || (max.Some? && value > max.value) then Some((min, max))
      else None
  }

  function OverrideOf(overrides: Overrides, key: string): Option<Override> {
    if key in overrides then Some(overrides[key]) else None
  }

  /** The listener warns about this field of this record. */
  predicate Warns(field: Field, payload: Payload, overrides: Overrides) {
    field.key in payload && CheckThreshold(field, payload[field.key], OverrideOf(overrides, field.key)).Some?
  }

  /** The field of this record has a reading and a band to hold it against. */
  predicate Checked(field: Field, payload: Payload, overrides: Overrides) {
    && field.key in payload
    && var o := OverrideOf(overrides, field.key);
       if o == None then field.warningMin.Some? || field.warningMax.Some?
       else o.value.enabled != Some(false)
            && (OrElse(o.value.min, field.warningMin).Some? || OrElse(o.value.max, field.warningMax).Some?)
  }

  /** A bound takes part unless the override has one of its own in its place. */
  ghost predicate IsBound(own: Option<real>, template: Option<real>, bound: real) {
    own == Some(bound) || (own == None && template == Some(bound))
  }

  function OwnMin(overrides: Overrides, key: string): Option<real> {
    if key in overrides then overrides[key].min else None
  }

  function OwnMax(overrides: Overrides, key: string): Option<real> {
    if key in overrides then overrides[key].max else None
  }

  /** A warning is raised for a reading exactly when the device has not switched the field off and
      the reading is below its lower bound or above its upper bound, where the device's own bounds
      come before those of the template. */
  lemma WarnsExactly(field: Field, payload: Payload, overrides: Overrides)
    ensures Warns(field, payload, overrides) <==>
              && field.key in payload
              && !(field.key in overrides && overrides[field.key].enabled == Some(false))
              && (|| (exists min :: IsBound(OwnMin(overrides, field.key), field.warningMin, min) && payload[field.key] < min)
                  || (exists max :: IsBound(OwnMax(overrides, field.key), field.warningMax, max) && payload[field.key] > max))
  {
    var key := field.key;
    var min, max := OrElse(OwnMin(overrides, key), field.warningMin), OrElse(OwnMax(overrides, key), field.warningMax);
    BoundOf(OwnMin(overrides, key), field.warningMin);
    BoundOf(OwnMax(overrides, key), field.warningMax);
    if min.Some? { assert IsBound(OwnMin(overrides, key), field.warningMin, min.value); }
    if max.Some? { assert IsBound(OwnMax(overrides, key), field.warningMax, max.value); }
  }

  lemma BoundOf(own: Option<real>, template: Option<real>)
    ensures forall bound :: IsBound(own, template, bound) <==> OrElse(own, template) == Some(bound)
    ensures own == None ==> OrElse(own, template) == template
  {
  }

  /** A reading is checked exactly when the field is not switched off and has some bound. */
  lemma CheckedExactly(field: Field, payload: Payload, overrides: Overrides)
    ensures Checked(field, payload, overrides) <==>
              && field.key in payload
              && !(field.key in overrides && overrides[field.key].enabled == Some(false))
              && (exists bound ::
                    IsBound(OwnMin(overrides, field.key), field.warningMin, bound)
                    || IsBound(OwnMax(overrides, field.key), field.warningMax, bound))
  {
    var key := field.key;
    var min, max := OrElse(OwnMin(overrides, key), field.warningMin), OrElse(OwnMax(overrides, key), field.warningMax);
    BoundOf(OwnMin(overrides, key), field.warningMin);
    BoundOf(OwnMax(overrides, key), field.warningMax);
    if min.Some? { assert IsBound(OwnMin(overrides, key), field.warningMin, min.value); }
    if max.Some? { assert IsBound(OwnMax(overrides, key), field.warningMax, max.value); }
  }

  // ---------------------------------------------------------------- the listener

  /** The fields of `schema` the listener warns about, in schema order. */
  function Warned(schema: seq<Field>, payload: Payload, overrides: Overrides): seq<Field> {
    if schema == [] then []
    else
      var last := schema[|schema| - 1];
      Warned(schema[..|schema| - 1], payload, overrides) + (if Warns(last, payload, overrides) then [last] else [])
  }

  /** Warnings come field by field, in the order of the schema: those of two schemas in a row are
      those of the first and then those of the second, and a single field has its own or none. */
  lemma {:induction false} WarnedExact(a: seq<Field>, b: seq<Field>, field: Field, payload: Payload, overrides: Overrides)
    ensures Warned(a + b, payload, overrides) == Warned(a, payload, overrides) + Warned(b, payload, overrides)
    ensures Warned([field], payload, overrides) == if Warns(field, payload, overrides) then [field] else []
  {
    hide Warns;
    assert [field][..0] == [];
    if b == [] {
      assert a + b == a;
    } else {
      assert (a + b)[..|a + b| - 1] == a + b[..|b| - 1];
      WarnedExact(a, b[..|b| - 1], field, payload, overrides);
    }
  }

  /** `handleTelemetry`: one warning for each field in breach. */
  method HandleTelemetry(schema: seq<Field>, payload: Payload, overrides: Overrides) returns (warnings: seq<Field>)
    ensures warnings == Warned(schema, payload, overrides)
  {
    warnings := [];
    for j := 0 to |schema|
      invariant warnings == Warned(schema[..j], payload, overrides)
    {
      var field := schema[j];
      assert schema[..j + 1][..j] == schema[..j];
      if field.key !in payload { continue; }
      var breach := CheckThreshold(field, payload[field.key], OverrideOf(overrides, field.key));
      if breach == None { continue; }
      warnings := warnings + [field];
    }
    assert schema[..|schema|] == schema;
  }

  // ---------------------------------------------------------------- the count

  /** Record-field pairs before record `r`, and of record `r` before field `f`. */
  predicate Before(i: int, j: int, r: nat, f: nat, fields: nat) {
    0 <= j < fields && (0 <= i < r || (i == r && j < f))
  }

  ghost function Pairs(records: seq<Payload>, schema: seq<Field>, overrides: Overrides, r: nat, f: nat, warning: bool): set<(int, int)>
    requires r <= |records| && f <= |schema| && (r == |records| ==> f == 0)
  {
    set i, j | 0 <= i < |records| && 0 <= j < |schema| && Before(i, j, r, f, |schema|)
               && (if warning then Warns(schema[j], records[i], overrides) else Checked(schema[j], records[i], overrides)) :: (i, j)
  }

  /** All pairs for which the listener would warn. */
  ghost function WarningPairs(records: seq<Payload>, schema: seq<Field>, overrides: Overrides): set<(int, int)> {
    Pairs(records, schema, overrides, |records|, 0, true)
  }

  ghost function CheckedPairs(records: seq<Payload>, schema: seq<Field>, overrides: Overrides): set<(int, int)> {
    Pairs(records, schema, overrides, |records|, 0, false)
  }

  lemma PairsStep(records: seq<Payload>, schema: seq<Field>, overrides: Overrides, r: nat, f: nat, warning: bool)
    requires r < |records| && f < |schema|
    ensures var before, after := Pairs(records, schema, overrides, r, f, warning), Pairs(records, schema, overrides, r, f + 1, warning);
            && (r, f) !in before
            && after == if (if warning then Warns(schema[f], records[r], overrides) else Checked(schema[f], records[r], overrides))
                        then before + {(r, f)} else before
  {
    hide Warns, Checked;
  }

  lemma PairsNextRecord(records: seq<Payload>, schema: seq<Field>, overrides: Overrides, r: nat, warning: bool)
    requires r < |records|
    ensures Pairs(records, schema, overrides, r, |schema|, warning) == Pairs(records, schema, overrides, r + 1, 0, warning)
  {
    hide Warns, Checked;
  }

  /** `getTelemetryBreachCounts` on the records of the assessment window: the two counts are the
      numbers of record-field pairs that the listener would warn about, and could. */
  method GetTelemetryBreachCounts(records: seq<Payload>, schema: seq<Field>, overrides: Overrides)
    returns (breaches: nat, totalChecks: nat)
    ensures breaches == |WarningPairs(records, schema, overrides)|
    ensures totalChecks == |CheckedPairs(records, schema, overrides)|
    ensures breaches <= totalChecks
  {
    WarningsAreChecked(records, schema, overrides);
    if |schema| == 0 || |records| == 0 {
      assert WarningPairs(records, schema, overrides) == {} && CheckedPairs(records, schema, overrides) == {};
      return 0, 0;
    }
    totalChecks, breaches := 0, 0;
    for r := 0 to |records|
      invariant breaches == |Pairs(records, schema, overrides, r, 0, true)|
      invariant totalChecks == |Pairs(records, schema, overrides, r, 0, false)|
    {
      breaches, totalChecks := CountRecord(records, schema, overrides, r, breaches, totalChecks);
    }
  }

  /** One more check, and perhaps a breach: how the two sets grow by a pair. */
  lemma CountsStep(records: seq<Payload>, schema: seq<Field>, overrides: Overrides, r: nat, f: nat)
    requires r < |records| && f < |schema|
    ensures |Pairs(records, schema, overrides, r, f + 1, true)|
         == |Pairs(records, schema, overrides, r, f, true)| + (if Warns(schema[f], records[r], overrides) then 1 else 0)
    ensures |Pairs(records, schema, overrides, r, f + 1, false)|
         == |Pairs(records, schema, overrides, r, f, false)| + (if Checked(schema[f], records[r], overrides) then 1 else 0)
  {
    PairsStep(records, schema, overrides, r, f, true);
    PairsStep(records, schema, overrides, r, f, false);
    hide Pairs, Warns, Checked;
  }

  /** The inner loop, over the fields of one record. */
  method CountRecord(records: seq<Payload>, schema: seq<Field>, overrides: Overrides, r: nat, breaches0: nat, checks0: nat)
    returns (breaches: nat, totalChecks: nat)
    requires r < |records|
    requires breaches0 == |Pairs(records, schema, overrides, r, 0, true)|
    requires checks0 == |Pairs(records, schema, overrides, r, 0, false)|
    ensures breaches == |Pairs(records, schema, overrides, r + 1, 0, true)|
    ensures totalChecks == |Pairs(records, schema, overrides, r + 1, 0, false)|
  {
    PairsNextRecord(records, schema, overrides, r, true);
    PairsNextRecord(records, schema, overrides, r, false);
    hide Pairs;
    breaches, totalChecks := breaches0, checks0;
    for f := 0 to |schema|
      invariant breaches == |Pairs(records, schema, overrides, r, f, true)|
      invariant totalChecks == |Pairs(records, schema, overrides, r, f, false)|
    {
      CountsStep(records, schema, overrides, r, f);
      var field, payload := schema[f], records[r];
      if field.key !in payload { continue; }
      var value := payload[field.key];
      var override := OverrideOf(overrides, field.key);
      if override.Some? && override.value.enabled == Some(false) { continue; }
      var min := if override.Some? then OrElse(override.value.min, field.warningMin) else field.warningMin;
      var max := if override.Some? then OrElse(override.value.max, field.warningMax) else field.warningMax;
      if min == None && max == None { continue; }
      totalChecks := totalChecks + 1;
      if (min.Some? && value < min.value) || (max.Some? && value > max.value) {
        breaches := breaches + 1;
      }
    }
  }

  lemma SubsetIsNoLarger<T>(a: set<T>, b: set<T>)
    requires a <= b
    ensures |a| <= |b|
  {
    assert b == a + (b - a);
  }

  lemma WarningsAreChecked(records: seq<Payload>, schema: seq<Field>, overrides: Overrides)
    ensures WarningPairs(records, schema, overrides) <= CheckedPairs(records, schema, overrides)
    ensures |WarningPairs(records, schema, overrides)| <= |CheckedPairs(records, schema, overrides)|
  {
    forall i, j | (i, j) in WarningPairs(records, schema, overrides) ensures (i, j) in CheckedPairs(records, schema, overrides) {
      assert Checked(schema[j], records[i], overrides);
    }
    SubsetIsNoLarger(WarningPairs(records, schema, overrides), CheckedPairs(records, schema, overrides));
  }

  /** The warnings the listener has sent for a list of records. */
  function WarningsSent(records: seq<Payload>, schema: seq<Field>, overrides: Overrides): nat {
    if records == [] then 0
    else WarningsSent(records[..|records| - 1], schema, overrides) + |Warned(schema, records[|records| - 1], overrides)|
  }

  lemma {:induction false} PairsAreWarnings(records: seq<Payload>, schema: seq<Field>, overrides: Overrides, r: nat, f: nat)
    requires r <= |records| && f <= |schema| && (r == |records| ==> f == 0)
    ensures |Pairs(records, schema, overrides, r, f, true)|
         == WarningsSent(records[..r], schema, overrides) + (if f == 0 then 0 else |Warned(schema[..f], records[r], overrides)|)
    decreases r, f
  {
    hide Pairs, Warns;
    if f > 0 {
      PairsAreWarnings(records, schema, overrides, r, f - 1);
      CountsStep(records, schema, overrides, r, f - 1);
      hide WarningsSent;
      assert schema[..f][..f - 1] == schema[..f - 1];
    } else if r > 0 {
      PairsAreWarnings(records, schema, overrides, r - 1, |schema|);
      PairsNextRecord(records, schema, overrides, r - 1, true);
      assert records[..r][..r - 1] == records[..r - 1] && schema[..|schema|] == schema;
    } else {
      NoPairsYet(records, schema, overrides);
    }
  }

  lemma NoPairsYet(records: seq<Payload>, schema: seq<Field>, overrides: Overrides)
    ensures Pairs(records, schema, overrides, 0, 0, true) == {}
  {
  }

  /** The breaches counted over a window are the warnings sent for its records: the listener and
      the assessment agree under the same template and overrides. */
  lemma BreachesAreWarningsSent(records: seq<Payload>, schema: seq<Field>, overrides: Overrides)
    ensures |WarningPairs(records, schema, overrides)| == WarningsSent(records, schema, overrides)
  {
    PairsAreWarnings(records, schema, overrides, |records|, 0);
    assert records[..|records|] == records;
  }
}
