/** Flattening of the `stats` sub-dictionary of the sensor payload (the block
    of `process_purpleair_data` that runs before the cleaner): the six-hour
    PM2.5 average is lifted to the top level and `stats` is dropped. */
module Stats {
  import opened Payload

  const StatsKey: string := "stats"
  const SixHourKey: string := "pm2.5_6hour"

  /** The value the source lifts: `stats.get('pm2.5_6hour')` when `stats` is a
      non-empty dict, `None` in every other case (missing, `None`, empty, or
      not a dict). */
  function LiftedAverage(sensor: map<string, Value>): (v: Value)
    ensures StatsKey !in sensor ==> v == NoneV
    ensures StatsKey in sensor && !sensor[StatsKey].DictV? ==> v == NoneV
    ensures StatsKey in sensor && sensor[StatsKey] == DictV(map[]) ==> v == NoneV
    ensures StatsKey in sensor && sensor[StatsKey].DictV? && SixHourKey in sensor[StatsKey].fields ==>
      v == sensor[StatsKey].fields[SixHourKey]
    ensures v != NoneV ==> StatsKey in sensor && sensor[StatsKey].DictV? && SixHourKey in sensor[StatsKey].fields
  {
    var stats := Get(sensor, StatsKey);
    if Truthy(stats) && stats.DictV? then Get(stats.fields, SixHourKey) else NoneV
  }

  /** The in-place rewrite of `sensor_data`: assign `pm2.5_6hour`, then
      `pop('stats', None)`. */
  method FlattenStats(sensor: map<string, Value>) returns (flat: map<string, Value>)
    ensures flat.Keys == sensor.Keys - {StatsKey} + {SixHourKey}
    ensures StatsKey !in flat
    ensures flat[SixHourKey] == LiftedAverage(sensor)
    ensures forall k :: k in sensor && k != StatsKey && k != SixHourKey ==> flat[k] == sensor[k]
  {
    flat := sensor;
    var stats := Get(flat, StatsKey);
    if Truthy(stats) && stats.DictV? {
      flat := flat[SixHourKey := Get(stats.fields, SixHourKey)];
    } else {
      flat := flat[SixHourKey := NoneV];
    }
    flat := flat - {StatsKey};
  }
}
