/** The field validator/cleaner (`clean_and_validate_sensor_data`): six
    readings are each checked against a fixed inclusive range; non-numeric and
    out-of-range values become `None`, in-range floats are rounded to two
    decimals. A nulled field is logged with `cleaned_data['sensor_index']`,
    so a payload without `sensor_index` raises `KeyError` at that point. */
module Cleaning {
  import opened Payload
  import opened Rounding

  /** One row of the range table: a field and its inclusive bounds. */
  datatype Row = Row(key: string, lo: int, hi: int)

  /** The key the log lines read. */
  const SensorIndexKey: string := "sensor_index"

  /** The range table, in the order the source validates the fields. */
  const Ranges: seq<Row> := [
    Row("temperature", 0, 120),
    Row("humidity", 0, 100),
    Row("pressure", 750, 1300),
    Row("pm2.5", 0, 500),
    Row("pm2.5_alt", 0, 500),
    Row("visual_range", 0, 500)
  ]

  function KeysOf(rows: seq<Row>): set<string> {
    set i | 0 <= i < |rows| :: rows[i].key
  }

  lemma KeysOfCons(rows: seq<Row>)
    requires rows != []
    ensures KeysOf(rows) == {rows[0].key} + KeysOf(rows[1..])
  {
    forall k | k in KeysOf(rows) ensures k in {rows[0].key} + KeysOf(rows[1..]) {
      var i :| 0 <= i < |rows| && rows[i].key == k;
      if i > 0 { assert rows[1..][i - 1].key == k; }
    }
    forall k | k in KeysOf(rows[1..]) ensures k in KeysOf(rows) {
      var i :| 0 <= i < |rows[1..]| && rows[1..][i].key == k;
      assert rows[i + 1].key == k;
    }
  }

  predicate DistinctKeys(rows: seq<Row>) {
    forall i, j :: 0 <= i < j < |rows| ==> rows[i].key != rows[j].key
  }

  /** A numeric value inside `[lo, hi]`, bounds included. */
  predicate InRange(v: Value, lo: int, hi: int) {
    IsNumeric(v) && lo as real <= NumVal(v) <= hi as real
  }

  /** The new value `validate_and_update_data` stores for a field whose
      current value is `v`. */
  function ValidateValue(v: Value, lo: int, hi: int): (r: Value)
    ensures r == NoneV || InRange(r, lo, hi)
    ensures r != NoneV <==> InRange(v, lo, hi)
    ensures InRange(v, lo, hi) && !v.FloatV? ==> r == v
    ensures InRange(v, lo, hi) && v.FloatV? ==>
      r.FloatV? && -0.005 <= r.r - v.r <= 0.005 && (r.r * 100.0).Floor as real == r.r * 100.0
  {
    if !IsNumeric(v) then NoneV
    else if !(lo as real <= NumVal(v) <= hi as real) then NoneV
    else if v.FloatV? then
      Round2StaysInBounds(v.r, lo, hi);
      FloatV(Round2(v.r))
    else v
  }

  /** Validating a validated value changes nothing. */
  lemma ValidateValueIdempotent(v: Value, lo: int, hi: int)
    ensures ValidateValue(ValidateValue(v, lo, hi), lo, hi) == ValidateValue(v, lo, hi)
  {
    if InRange(v, lo, hi) && v.FloatV? {
      Round2Idempotent(v.r);
    }
  }

  /** Boundary cases of the decision table: bounds are inclusive, `True`
      counts as the number 1, a numeric string is not numeric, and floats
      are rounded with exact ties going to the even hundredth (0.125 and
      0.375 are exact binary fractions, so Python's `round` agrees). */
  lemma ValidateValueExamples()
    ensures ValidateValue(IntV(150), 0, 120) == NoneV
    ensures ValidateValue(IntV(120), 0, 120) == IntV(120)
    ensures ValidateValue(FloatV(-0.01), 0, 100) == NoneV
    ensures ValidateValue(FloatV(0.125), 0, 100) == FloatV(0.12)
    ensures ValidateValue(FloatV(0.375), 0, 100) == FloatV(0.38)
    ensures ValidateValue(BoolV(true), 0, 100) == BoolV(true)
    ensures ValidateValue(BoolV(true), 750, 1300) == NoneV
    ensures ValidateValue(BoolV(true), 1, 100) == BoolV(true)
    ensures ValidateValue(BoolV(false), 1, 100) == NoneV
    ensures ValidateValue(StrV("12"), 0, 120) == NoneV
    ensures ValidateValue(NoneV, 0, 120) == NoneV
  {
    assert (0.125 * 100.0).Floor == 12;
    assert (0.375 * 100.0).Floor == 37;
  }

  /** One call `validate_and_update_data(key, lo, hi)` on the working copy. */
  function ValidateAndUpdate(m: map<string, Value>, row: Row): (r: Result<map<string, Value>>)
    ensures r.Err? <==> SensorIndexKey !in m && !InRange(Get(m, row.key), row.lo, row.hi)
    ensures r.Err? ==> r.fault == KeyError(SensorIndexKey)
    ensures r.Ok? ==> r.value.Keys == m.Keys + {row.key}
    ensures r.Ok? ==> forall k :: k in m && k != row.key ==> r.value[k] == m[k]
    ensures r.Ok? ==> r.value[row.key] == ValidateValue(Get(m, row.key), row.lo, row.hi)
  {
    var nv := ValidateValue(Get(m, row.key), row.lo, row.hi);
    if nv == NoneV && SensorIndexKey !in m then Err(KeyError(SensorIndexKey))
    else Ok(m[row.key := nv])
  }

  /** The rows applied one after another, stopping at the first exception. */
  function CleanFields(m: map<string, Value>, rows: seq<Row>): (r: Result<map<string, Value>>)
    ensures r.Err? ==> r.fault == KeyError(SensorIndexKey) && SensorIndexKey !in m
    ensures r.Ok? ==> r.value.Keys == m.Keys + KeysOf(rows)
    decreases |rows|
  {
    if rows == [] then Ok(m)
    else
      KeysOfCons(rows);
      match ValidateAndUpdate(m, rows[0])
      case Err(e) => Err(e)
      case Ok(m') => CleanFields(m', rows[1..])
  }

  /** Some row nulls its field (and therefore logs). */
  ghost predicate SomeFieldNulled(m: map<string, Value>, rows: seq<Row>) {
    exists i :: 0 <= i < |rows| && ValidateValue(Get(m, rows[i].key), rows[i].lo, rows[i].hi) == NoneV
  }

  /** `c` is `m` with every row's field validated independently: the keys are
      those of `m` plus the row keys, other keys keep their values. */
  ghost predicate CleanedFrom(m: map<string, Value>, c: map<string, Value>, rows: seq<Row>) {
    && c.Keys == m.Keys + KeysOf(rows)
    && (forall k :: k in m && k !in KeysOf(rows) ==> c[k] == m[k])
    && (forall i :: 0 <= i < |rows| ==> c[rows[i].key] == ValidateValue(Get(m, rows[i].key), rows[i].lo, rows[i].hi))
  }

  /** The tail of a table with distinct keys has distinct keys, none of them
      the head's key. */
  lemma DistinctTail(rows: seq<Row>)
    requires rows != [] && DistinctKeys(rows)
    ensures DistinctKeys(rows[1..])
    ensures KeysOf(rows) == {rows[0].key} + KeysOf(rows[1..])
    ensures rows[0].key !in KeysOf(rows[1..])
  {
    KeysOfCons(rows);
    var rest := rows[1..];
    forall i, j | 0 <= i < j < |rest| ensures rest[i].key != rest[j].key {
      assert rows[i + 1].key != rows[j + 1].key;
    }
    forall i | 0 <= i < |rest| ensures rest[i].key != rows[0].key {
      assert rows[0].key != rows[i + 1].key;
    }
  }

  /** Updating the head row's field leaves every later row reading the same
      value, so the later rows null a field from the updated map exactly when
      they do from the original one. */
  lemma TailReadsUnchanged(m: map<string, Value>, rows: seq<Row>, nv: Value)
    requires rows != [] && DistinctKeys(rows)
    ensures var m' := m[rows[0].key := nv];
      forall i :: 0 <= i < |rows| - 1 ==> Get(m', rows[1..][i].key) == Get(m, rows[i + 1].key)
    ensures SomeFieldNulled(m[rows[0].key := nv], rows[1..]) <==>
      exists i :: 1 <= i < |rows| && ValidateValue(Get(m, rows[i].key), rows[i].lo, rows[i].hi) == NoneV
  {
    var m', rest := m[rows[0].key := nv], rows[1..];
    forall i | 0 <= i < |rest| ensures Get(m', rest[i].key) == Get(m, rows[i + 1].key) {
      assert rows[0].key != rows[i + 1].key;
    }
    if SomeFieldNulled(m', rest) {
      var i :| 0 <= i < |rest| && ValidateValue(Get(m', rest[i].key), rest[i].lo, rest[i].hi) == NoneV;
      assert rows[i + 1] == rest[i];
    }
    if exists i :: 1 <= i < |rows| && ValidateValue(Get(m, rows[i].key), rows[i].lo, rows[i].hi) == NoneV {
      var i :| 1 <= i < |rows| && ValidateValue(Get(m, rows[i].key), rows[i].lo, rows[i].hi) == NoneV;
      assert rest[i - 1] == rows[i];
    }
  }

  /** With distinct keys, the sequential updates amount to validating each
      field on its own; they raise exactly when `sensor_index` is absent and
      some field is nulled. */
  lemma {:induction false} CleanFieldsCharacterized(m: map<string, Value>, rows: seq<Row>)
    requires DistinctKeys(rows) && SensorIndexKey !in KeysOf(rows)
    ensures CleanFields(m, rows).Err? <==> SensorIndexKey !in m && SomeFieldNulled(m, rows)
    ensures CleanFields(m, rows).Err? ==> CleanFields(m, rows).fault == KeyError(SensorIndexKey)
    ensures CleanFields(m, rows).Ok? ==> CleanedFrom(m, CleanFields(m, rows).value, rows)
    decreases |rows|
  {
    if rows == [] {
      assert KeysOf(rows) == {};
    } else {
      var row, rest := rows[0], rows[1..];
      DistinctTail(rows);
      var nv := ValidateValue(Get(m, row.key), row.lo, row.hi);
      if nv == NoneV && SensorIndexKey !in m {
        assert ValidateValue(Get(m, rows[0].key), rows[0].lo, rows[0].hi) == NoneV;
      } else {
        var m' := m[row.key := nv];
        assert ValidateAndUpdate(m, row) == Ok(m');
        CleanFieldsCharacterized(m', rest);
        TailReadsUnchanged(m, rows, nv);
        assert SensorIndexKey !in m && SomeFieldNulled(m, rows) ==> SomeFieldNulled(m', rest) by {
          if SensorIndexKey !in m && SomeFieldNulled(m, rows) {
            var i :| 0 <= i < |rows| && ValidateValue(Get(m, rows[i].key), rows[i].lo, rows[i].hi) == NoneV;
            assert i != 0;
          }
        }
        if CleanFields(m', rest).Ok? {
          var c := CleanFields(m', rest).value;
          forall i | 0 <= i < |rows|
            ensures c[rows[i].key] == ValidateValue(Get(m, rows[i].key), rows[i].lo, rows[i].hi)
          {
            if i > 0 { assert rest[i - 1] == rows[i]; }
          }
        }
      }
    }
  }

  /** `clean_and_validate_sensor_data(data)`: the range table applied to a
      copy of `data` (a Dafny map is a value, so the caller's map is never
      changed). */
  method CleanAndValidateSensorData(data: map<string, Value>) returns (r: Result<map<string, Value>>)
    ensures r == CleanFields(data, Ranges)
  {
    var cleaned := data;
    var i := 0;
    while i < |Ranges|
      invariant 0 <= i <= |Ranges|
      invariant CleanFields(cleaned, Ranges[i..]) == CleanFields(data, Ranges)
    {
      var step := ValidateAndUpdate(cleaned, Ranges[i]);
      if step.Err? {
        return Err(step.fault);
      }
      assert Ranges[i..][1..] == Ranges[i + 1..];
      cleaned := step.value;
      i := i + 1;
    }
    return Ok(cleaned);
  }

  lemma RangesWellFormed()
    ensures DistinctKeys(Ranges) && SensorIndexKey !in KeysOf(Ranges)
    ensures KeysOf(Ranges) == {"temperature", "humidity", "pressure", "pm2.5", "pm2.5_alt", "visual_range"}
  {
    assert KeysOf(Ranges) == {"temperature", "humidity", "pressure", "pm2.5", "pm2.5_alt", "visual_range"} by {
      forall k | k in KeysOf(Ranges)
        ensures k in {"temperature", "humidity", "pressure", "pm2.5", "pm2.5_alt", "visual_range"}
      {
      }
      assert Ranges[0].key in KeysOf(Ranges) && Ranges[1].key in KeysOf(Ranges) && Ranges[2].key in KeysOf(Ranges);
      assert Ranges[3].key in KeysOf(Ranges) && Ranges[4].key in KeysOf(Ranges) && Ranges[5].key in KeysOf(Ranges);
    }
  }

  /** Raising, keys and bounds of a cleaning pass over any table of rows with
      distinct keys, none of them `sensor_index`. */
  lemma CleanFieldsOutcome(data: map<string, Value>, rows: seq<Row>)
    requires DistinctKeys(rows) && SensorIndexKey !in KeysOf(rows)
    ensures CleanFields(data, rows).Err? <==>
      SensorIndexKey !in data && exists i :: 0 <= i < |rows| && !InRange(Get(data, rows[i].key), rows[i].lo, rows[i].hi)
    ensures CleanFields(data, rows).Ok? ==>
      var c := CleanFields(data, rows).value;
      && (forall i :: 0 <= i < |rows| ==> c[rows[i].key] == NoneV || InRange(c[rows[i].key], rows[i].lo, rows[i].hi))
      && CleanedFrom(data, c, rows)
  {
    CleanFieldsCharacterized(data, rows);
    if SensorIndexKey !in data && exists i :: 0 <= i < |rows| && !InRange(Get(data, rows[i].key), rows[i].lo, rows[i].hi) {
      var i :| 0 <= i < |rows| && !InRange(Get(data, rows[i].key), rows[i].lo, rows[i].hi);
      assert ValidateValue(Get(data, rows[i].key), rows[i].lo, rows[i].hi) == NoneV;
    }
  }

  /** A record cleaned from `data` reads, in every row's field, a value that
      validation leaves alone. */
  lemma CleanedFieldsAreFixed(data: map<string, Value>, c: map<string, Value>, rows: seq<Row>)
    requires CleanedFrom(data, c, rows)
    ensures forall i :: 0 <= i < |rows| ==>
      ValidateValue(Get(c, rows[i].key), rows[i].lo, rows[i].hi) == Get(c, rows[i].key) &&
      Get(c, rows[i].key) == ValidateValue(Get(data, rows[i].key), rows[i].lo, rows[i].hi)
  {
    forall i | 0 <= i < |rows|
      ensures ValidateValue(Get(c, rows[i].key), rows[i].lo, rows[i].hi) == Get(c, rows[i].key)
      ensures Get(c, rows[i].key) == ValidateValue(Get(data, rows[i].key), rows[i].lo, rows[i].hi)
    {
      assert rows[i].key in KeysOf(rows);
      ValidateValueIdempotent(Get(data, rows[i].key), rows[i].lo, rows[i].hi);
    }
  }

  /** Validating the fields of a cleaned record again changes nothing. */
  lemma RecleanedIsSame(data: map<string, Value>, c: map<string, Value>, c2: map<string, Value>, rows: seq<Row>)
    requires CleanedFrom(data, c, rows) && CleanedFrom(c, c2, rows)
    ensures c2 == c
  {
    CleanedFieldsAreFixed(data, c, rows);
    forall k | k in c2 ensures k in c && c2[k] == c[k] {
      if k in KeysOf(rows) {
        var i :| 0 <= i < |rows| && rows[i].key == k;
      }
    }
  }

  /** A cleaned record nulls a field on a second pass only where the first
      pass already did. */
  lemma RecleanNullsOnlyNulled(data: map<string, Value>, c: map<string, Value>, rows: seq<Row>)
    requires CleanedFrom(data, c, rows)
    ensures SomeFieldNulled(c, rows) ==> SomeFieldNulled(data, rows)
  {
    CleanedFieldsAreFixed(data, c, rows);
  }

  /** Cleaning twice with any table of rows with distinct keys, none of them
      `sensor_index`, is cleaning once. */
  lemma CleanFieldsIdempotent(data: map<string, Value>, rows: seq<Row>)
    requires DistinctKeys(rows) && SensorIndexKey !in KeysOf(rows)
    requires CleanFields(data, rows).Ok?
    ensures CleanFields(CleanFields(data, rows).value, rows) == CleanFields(data, rows)
  {
    CleanFieldsCharacterized(data, rows);
    var c := CleanFields(data, rows).value;
    RecleanNullsOnlyNulled(data, c, rows);
    CleanFieldsCharacterized(c, rows);
    RecleanedIsSame(data, c, CleanFields(c, rows).value, rows);
  }

  /** The cleaner raises (`KeyError` on `sensor_index`, from a log line)
      exactly when `sensor_index` is absent and one of the six fields is
      missing, non-numeric or out of range. Otherwise each of the six ends
      `None` or inside its range, the six keys are present, and every other
      key keeps its value. */
  lemma CleanOutcome(data: map<string, Value>)
    ensures CleanFields(data, Ranges).Err? <==>
      SensorIndexKey !in data && exists i :: 0 <= i < |Ranges| && !InRange(Get(data, Ranges[i].key), Ranges[i].lo, Ranges[i].hi)
    ensures CleanFields(data, Ranges).Ok? ==>
      var c := CleanFields(data, Ranges).value;
      && (forall i :: 0 <= i < |Ranges| ==> c[Ranges[i].key] == NoneV || InRange(c[Ranges[i].key], Ranges[i].lo, Ranges[i].hi))
      && CleanedFrom(data, c, Ranges)
  {
    RangesWellFormed();
    CleanFieldsOutcome(data, Ranges);
  }

  /** Cleaning a cleaned record returns it unchanged. */
  lemma CleanIdempotent(data: map<string, Value>)
    ensures CleanFields(data, Ranges).Ok? ==>
      CleanFields(CleanFields(data, Ranges).value, Ranges) == CleanFields(data, Ranges)
  {
    if CleanFields(data, Ranges).Ok? {
      RangesWellFormed();
      CleanFieldsIdempotent(data, Ranges);
    }
  }
}
