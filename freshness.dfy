/** The freshness gate of the ingestion run (`check_sensor_freshness`): a
    reading is used only when the sensor reported it less than ten minutes
    before the fetch. Times are Unix seconds; `now` is the fetch time. */
module Freshness {
  import opened Payload

  /** Ten minutes, in seconds. */
  const DelayRange: int := 600

  /** `data["sensor"]["last_seen"]`, or the exception that subscript raises. */
  function LastSeen(data: Value): (r: Result<Value>)
    ensures r.Ok? <==>
      data.DictV? && "sensor" in data.fields &&
      data.fields["sensor"].DictV? && "last_seen" in data.fields["sensor"].fields
    ensures r.Ok? ==> r.value == data.fields["sensor"].fields["last_seen"]
    ensures !data.DictV? ==> r == Err(TypeError)
    ensures data.DictV? && "sensor" !in data.fields ==> r == Err(KeyError("sensor"))
    ensures data.DictV? && "sensor" in data.fields && !data.fields["sensor"].DictV? ==> r == Err(TypeError)
    ensures (data.DictV? && "sensor" in data.fields && data.fields["sensor"].DictV? &&
             "last_seen" !in data.fields["sensor"].fields) ==> r == Err(KeyError("last_seen"))
  {
    match Subscript(data, "sensor")
    case Err(e) => Err(e)
    case Ok(sensor) => Subscript(sensor, "last_seen")
  }

  /** `check_sensor_freshness(data, now)`. A falsy payload and a falsy
      `last_seen` are rejected; a payload without a `sensor` dict holding a
      `last_seen` key raises, and so does a truthy `last_seen` that is not a
      number (it cannot be turned into a timestamp). Otherwise the reading is
      fresh exactly when its age is strictly below the threshold. */
  function CheckSensorFreshness(data: Value, now: int): (r: Result<bool>)
    ensures !Truthy(data) ==> r == Ok(false)
    ensures Truthy(data) && LastSeen(data).Err? ==> r == Err(LastSeen(data).fault)
    ensures LastSeen(data).Ok? && !Truthy(LastSeen(data).value) ==> r == Ok(false)
    ensures (Truthy(data) && LastSeen(data).Ok? &&
             Truthy(LastSeen(data).value) && !IsNumeric(LastSeen(data).value)) ==> r == Err(TypeError)
    ensures r == Ok(true) <==>
      Truthy(data) && LastSeen(data).Ok? &&
      Truthy(LastSeen(data).value) && IsNumeric(LastSeen(data).value) &&
      (now as real) - NumVal(LastSeen(data).value) < DelayRange as real
    ensures r.Err? <==>
      Truthy(data) &&
      (LastSeen(data).Err? || (Truthy(LastSeen(data).value) && !IsNumeric(LastSeen(data).value)))
  {
    if !Truthy(data) then Ok(false)
    else
      match LastSeen(data)
      case Err(e) => Err(e)
      case Ok(lastSeen) =>
        if !Truthy(lastSeen) then Ok(false)
        else if !IsNumeric(lastSeen) then Err(TypeError)
        else Ok((now as real) - NumVal(lastSeen) < DelayRange as real)
  }

  /** A payload `{"sensor": {..., "last_seen": t}}` (the sensor dict may hold
      other keys). */
  function Reading(sensor: map<string, Value>, t: int): Value {
    DictV(map["sensor" := DictV(sensor["last_seen" := IntV(t)])])
  }

  /** With an integer `last_seen` other than 0 the gate is the strict test
      `now - last_seen < 600`. */
  lemma FreshIffYoungerThanDelay(sensor: map<string, Value>, t: int, now: int)
    requires t != 0
    ensures CheckSensorFreshness(Reading(sensor, t), now) == Ok(now - t < DelayRange)
  {
    assert LastSeen(Reading(sensor, t)) == Ok(IntV(t));
  }

  /** A reading exactly ten minutes old is stale; one dated in the future
      (negative age) passes. */
  lemma ThresholdIsStrictAndFutureIsFresh(sensor: map<string, Value>, now: int, ahead: nat)
    requires now + ahead != 0
    ensures CheckSensorFreshness(Reading(sensor, now - 600), now) == Ok(false)
    ensures CheckSensorFreshness(Reading(sensor, now + ahead), now) == Ok(true)
  {
    if now == 600 {
      // The reading is then dated 0, which is falsy and rejected as well.
      assert LastSeen(Reading(sensor, 0)) == Ok(IntV(0));
    } else {
      FreshIffYoungerThanDelay(sensor, now - 600, now);
    }
    FreshIffYoungerThanDelay(sensor, now + ahead, now);
  }

  /** A `last_seen` of 0 or `None` is rejected without looking at its age. */
  lemma FalsyLastSeenRejected(sensor: map<string, Value>, now: int)
    ensures CheckSensorFreshness(Reading(sensor, 0), now) == Ok(false)
    ensures CheckSensorFreshness(DictV(map["sensor" := DictV(sensor["last_seen" := NoneV])]), now) == Ok(false)
  {
    assert LastSeen(Reading(sensor, 0)) == Ok(IntV(0));
  }

  /** A payload whose `sensor` dict lacks `last_seen` raises `KeyError`
      rather than being rejected. */
  lemma MissingLastSeenRaises(sensor: map<string, Value>, now: int)
    requires "last_seen" !in sensor
    ensures CheckSensorFreshness(DictV(map["sensor" := DictV(sensor)]), now) == Err(KeyError("last_seen"))
  {
  }
}
