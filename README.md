# PurpleAir ingestion: freshness gate, field cleaner, stats flattening

A Dafny model of the decision logic of a scheduled job. The job fetches one
PurpleAir sensor reading, rejects it unless it is fresh, lifts the six-hour
PM2.5 average out of the `stats` sub-dictionary, cleans six numeric fields
against fixed ranges, and writes one Parquet row to S3. Only the decisions are
modelled. Fetching, DataFrame building and the upload are I/O.

- `payload.dfy` (`Payload`): a decoded JSON value (`None`, bool, int, float,
  string, list, dict). It also holds Python truthiness, the
  `isinstance(x, (int, float))` test (booleans count, as 1 and 0), `dict.get`,
  string subscripting, and the exceptions `KeyError` and `TypeError` as a
  `Result`.
- `rounding.dfy` (`Rounding`): `round(x, 2)` on exact reals. It rounds to the
  nearest hundredth, and exact ties go to the even hundredth, which is
  Python's tie rule.
- `freshness.dfy` (`Freshness`): `check_sensor_freshness`, a pure function.
  Times are integer Unix seconds.
- `cleaning.dfy` (`Cleaning`): `clean_and_validate_sensor_data`. The range
  table is a constant. Each row is one call of the nested
  `validate_and_update_data`. A method loops over the table and updates a map
  variable. It is proved equal to the fold `CleanFields`, and the lemmas are
  about that fold.
- `stats.dfy` (`Stats`): the `stats` flattening block of
  `process_purpleair_data`, as a method over a map variable.

Behaviours of the code that the model keeps:

- The freshness threshold is strict. An age of exactly 600 s is stale, and a
  `last_seen` in the future counts as fresh.
- `data["sensor"]['last_seen']` is subscripted directly. A truthy payload that has
  no `sensor` dict, or a `sensor` dict with no `last_seen`, raises. It is not
  rejected with `False`.
- The cleaner's warning lines read `cleaned_data['sensor_index']`. So when
  `sensor_index` is absent, the cleaner raises `KeyError` as soon as a field is
  missing, non-numeric or out of range (main.py:76, main.py:81).
- A missing field is read as `None` and then written back, so all six keys are
  present after cleaning.
- `pm2.5_6hour` is not one of the six fields. The cleaner never validates it.

## Model

| member | source | states |
|---|---|---|
| Payload.Truthy | main.py:48-51 | Python's `not x`: `None` is falsy; a dict, list or string is truthy exactly when it is non-empty |
| Payload.IsNumeric | main.py:75 | `isinstance(x, (int, float))`: a bool counts as numeric; `None`, strings, lists and dicts do not |
| Payload.NumVal | main.py:80 | the number a numeric value compares as: non-zero exactly when the value is truthy; a bool compares as 0 or 1; an int or a float as itself |
| Payload.Get | main.py:74 | `d.get(key)`: the stored value when the key is present, `None` when it is absent |
| Payload.Subscript | main.py:51 | string subscripting succeeds only on a dict that has the key; a dict without it raises `KeyError`, anything else raises `TypeError` |
| Freshness.LastSeen | main.py:51 | `data["sensor"]["last_seen"]` is found exactly when the payload is a dict whose `sensor` is a dict with a `last_seen` key; a non-dict payload or non-dict `sensor` raises `TypeError`, a missing `sensor` raises `KeyError('sensor')`, a missing `last_seen` raises `KeyError('last_seen')` |
| Freshness.CheckSensorFreshness | main.py:44-66 | a falsy payload gives `False`; a truthy payload with no `sensor`/`last_seen` raises; a falsy `last_seen` gives `False`; the result is `True` exactly when `last_seen` is truthy, numeric and `now - last_seen < 600`; it raises exactly when the lookup fails (with the lookup's exception) or `last_seen` is truthy but not a number (`TypeError` from `datetime.fromtimestamp`) |
| Freshness.FreshIffYoungerThanDelay | main.py:46-66 | for an integer `last_seen` other than 0, the result is `now - last_seen < 600` |
| Freshness.ThresholdIsStrictAndFutureIsFresh | main.py:59-66 | a reading exactly 600 s old is stale; a reading dated in the future is fresh |
| Freshness.FalsyLastSeenRejected | main.py:51-53 | `last_seen` equal to 0 or `None` gives `False` whatever `now` is |
| Freshness.MissingLastSeenRaises | main.py:51 | a `sensor` dict without `last_seen` raises `KeyError('last_seen')` instead of returning `False` |
| Rounding.RoundHalfEven | main.py:85 | the integer nearest to `x` (within 1/2); a whole `x` is returned as is; an exact tie goes to the even neighbour, the tie rule of `round` |
| Rounding.Round2 | main.py:85 | `round(r, 2)` is a whole number of hundredths within 0.005 of `r` |
| Rounding.Round2Idempotent | main.py:85 | rounding a rounded value changes nothing |
| Rounding.Round2StaysInBounds | main.py:80-85 | rounding a value inside an interval with integer end points stays inside it |
| Cleaning.ValidateValue | main.py:73-85 | the new value is `None` or inside `[lo, hi]`; it is non-`None` exactly when the old value is numeric and inside the inclusive range; in range, ints and bools are unchanged and floats become a whole number of hundredths within 0.005 |
| Cleaning.ValidateValueIdempotent | main.py:73-85 | validating a validated value gives the same value |
| Cleaning.ValidateValueExamples | main.py:80-92 | 150 is out of the temperature range; 120 is kept; -0.01 is out of the humidity range; the exact ties 0.125 and 0.375 become 0.12 and 0.38; `True` is kept for humidity but nulled for pressure; `True` compares as 1 and `False` as 0 (with bounds [1, 100] the first is kept, the second nulled); a numeric string and `None` become `None` |
| Cleaning.ValidateAndUpdate | main.py:73-85 | one call of `validate_and_update_data`: it raises `KeyError('sensor_index')` (from the warning line) exactly when `sensor_index` is absent and the field is missing, non-numeric or out of range; otherwise the field is written back (so it is present afterwards) as the validation of its old value (an in-range int or bool kept, an in-range float rounded, anything else `None`), and every other key is unchanged |
| Cleaning.CleanFields | main.py:87-92 | the rows applied in order: a raise is always `KeyError('sensor_index')` with `sensor_index` absent from the input; on success the keys are the input's keys plus every row's key |
| Cleaning.CleanFieldsCharacterized | main.py:71-94 | for rows with distinct keys, none of them `sensor_index`, the sequential updates raise `KeyError('sensor_index')` exactly when `sensor_index` is absent and some field is nulled; otherwise the result has the input's keys plus the row keys, other keys keep their values, and each row's field is validated independently of the others |
| Cleaning.CleanAndValidateSensorData | main.py:69-94 | the loop over the range table returns what applying the six rows in order returns, including the exception |
| Cleaning.RangesWellFormed | main.py:87-92 | the six keys of the table are distinct and are temperature, humidity, pressure, pm2.5, pm2.5_alt and visual_range; `sensor_index` is not among them |
| Cleaning.CleanFieldsOutcome | main.py:73-94 | for any table of rows with distinct keys, none of them `sensor_index`, cleaning raises exactly when `sensor_index` is absent and some field is not numeric and in range; on success every row's field is `None` or in range, other keys are unchanged, and each field is the validation of its input value |
| Cleaning.CleanFieldsIdempotent | main.py:71-94 | for any table of rows with distinct keys, none of them `sensor_index`, cleaning a successfully cleaned record returns it unchanged |
| Cleaning.CleanOutcome | main.py:69-94 | for the six-row table: raises exactly when `sensor_index` is absent and a field is missing, non-numeric or out of range; otherwise the six keys are present, each `None` or inside its range, and every other key (e.g. `sensor_index`, `last_seen`, `pm2.5_6hour`) keeps its value; each of the six is the validation of its own input value (a missing field becomes a present `None`) |
| Cleaning.CleanIdempotent | main.py:69-94 | cleaning an already cleaned record yields the identical record |
| Stats.LiftedAverage | main.py:140-147 | `pm2.5_6hour` is taken from `stats` only when `stats` is a non-empty dict holding that key; a missing, empty or non-dict `stats`, or a `stats` without the key, gives `None` |
| Stats.FlattenStats | main.py:140-148 | afterwards `stats` is gone, `pm2.5_6hour` is present with the lifted value, and every other key is unchanged |

## Left out

- `get_data`: the HTTP request, JSON decoding and the wall clock are I/O. The fetch time is a parameter `now` of the freshness check. The source's failure branches return an unassigned `now` and so raise `UnboundLocalError`. That path is not modelled.
- `lambda_handler`: environment configuration, Parquet serialisation, the S3 upload, the object key built from `datetime.now()`, and the status-code replies are foreign calls and plumbing.
- The part of `process_purpleair_data` outside the stats block: building the DataFrame and deriving the `date`/`time` strings is pandas/datetime library behaviour. The `sensor is None` gate is not modelled either.
- Logging is not modelled. The only effect kept is the `KeyError` raised by the `sensor_index` lookup in the warning lines.
- The commented-out earlier validator is dead code.
- Rounding.Round2: the model rounds the exact real. Python rounds the binary double, whose value can sit just below a decimal tie. So `round(55.555, 2)` is 55.55 in Python, while `Round2(55.555)` is 55.56. The result is also not re-rounded to the nearest double.
- Payload.Value: floats are exact reals. NaN and infinities are not represented. In the source they fail the range test and would become `None`.
- Freshness.CheckSensorFreshness: `now` is whole seconds, and a float `last_seen` is compared exactly. `datetime.fromtimestamp` rounding to microseconds and its errors for timestamps outside the supported range are not modelled.
- Cleaning.CleanAndValidateSensorData: the source copies the dict before mutating it. Dafny maps are values, so the caller's map is unchanged by construction, and aliasing is not modelled.
- Stats.FlattenStats: the source mutates the `sensor` dict inside the response in place. The model returns the new map, so the aliasing with the response dict is not modelled.
