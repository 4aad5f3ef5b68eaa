# Tasmota MQTT counter sensor, modelled in Dafny

A Tasmota device counts pulses (water or energy meter ticks) but forgets the
count on every reboot. The Home Assistant sensor `MqttTasmotaCounter` turns the
stream of raw counter samples and uptime reports into a running total that
only grows: each sample adds its difference to the previous raw sample (the
baseline), a difference above `max_valid_diff` is rejected, a sample below the
baseline is read as a 32-bit wrap, and an uptime that goes backwards means the
device rebooted, so the next sample only becomes the new baseline. The total,
the baseline and the uptime are written to Home Assistant's recorder as state
attributes and read back at start-up. A watchdog tick clears a freshness flag
and marks the sensor stale when no sample was accepted since the previous tick
(as intended; see Findings).

The model:

- `Reconcile` (reconcile.dfy): the reconciliation state (`CounterState`: total,
  baseline, uptime, trusted-baseline flag, freshness flag) and one function per
  event: `CounterStep`, `UptimeStep`, `KeepaliveStep`, `Restore`, and the
  attribute map `Attributes`. Their contracts state the sensor's properties;
  lemmas relate them (restore round trip, the total never decreasing over any
  run of events whose raw values and starting baseline lie in [0, 2^32); outside
  that range the total can go down, see `OversizedBaselineLowersTotal`).
- `Counter` (counter.dfy): class `TasmotaCounter`, whose methods update the
  fields in place as the Python callbacks do, each proved against the matching
  `Reconcile` function, plus what it does to the displayed state and to the
  count of refresh requests sent to Home Assistant.
- `Uptime` (uptime.dfy): `UptimeToSec`, the parser for Tasmota's
  `"<days>T<hh>:<mm>:<ss>"` uptime, specified against the regular expression it
  uses and checked against a formatter for the same text.
- `Topics` (topics.dfy): the three MQTT topic names of a device.
- `Decimal` (decimal.dfy) and `Wrappers` (wrappers.dfy): decimal digit strings
  and the `Option` type.

Python's `None` is `Option.None`. Where the Python code raises (comparing the
baseline `None` with a number, adding to a `None` total) the model returns an
`Outcome` that names the failure and keeps the state the Python code leaves
behind. The wrap modulus is 2^32 (`0xffffffff + 1`), as the code computes it,
although the code's comment speaks of 64 bits. Where the restore fails to
convert a stored attribute, the field keeps its earlier value (`None`, or the
uptime sentinel 100000000000), as the code does; only a missing total becomes 0.
On the snapshot path the restore sets the trusted-baseline flag when the
restored uptime is positive and otherwise leaves it as it was; that path never
clears it (only the cold start does). It can therefore trust a
baseline that is still `None` (a snapshot without `old_value`), after which
every sample ends in the `NoBaseline` outcome until an uptime drop clears the
flag.

## Model

| member | source | states |
|---|---|---|
| Reconcile.CounterStep | custom_components/sensor/tasmota_counter.py:189-215 | A sample is only a new baseline exactly when there is no trusted baseline; it is added exactly when baseline and total are known and diff != 0 and diff <= max (a negative wrapped diff is accepted too; see OversizedBaselineLowersTotal), and then the total grows by exactly the (possibly wrapped) diff, the baseline becomes the sample and the freshness flag is set; with a trusted baseline, a zero or too large diff leaves every field unchanged; a trusted but missing baseline (NoBaseline) changes nothing; an acceptable diff with no total (NoTotal) only sets the freshness flag; with raw values in [0, 2^32) the total never goes down and an accepted diff is positive |
| Reconcile.UptimeStep | custom_components/sensor/tasmota_counter.py:254-262 | A negative uptime changes nothing; otherwise the uptime is recorded and the baseline stays trusted exactly when it was trusted and the uptime did not go down; total and baseline are never touched |
| Reconcile.KeepaliveStep | custom_components/sensor/tasmota_counter.py:180-186 | The tick is stale exactly when the freshness flag was clear; afterwards the flag is clear; total, baseline, uptime and trusted flag are unchanged |
| Reconcile.ToIntRoundTrip | custom_components/sensor/tasmota_counter.py:291 | `int()` of the decimal text of a stored number is that number |
| Reconcile.SentinelMakesFirstReportAReboot | custom_components/sensor/tasmota_counter.py:123-262 | With the initial uptime sentinel, any first real uptime report clears the trusted baseline |
| Reconcile.RestoreWithoutUptimeThenReport | custom_components/sensor/tasmota_counter.py:284-300 | A snapshot without uptime_sec keeps the sentinel and trusts the baseline; the first uptime report then clears that trust |
| Reconcile.Attributes | custom_components/sensor/tasmota_counter.py:324-334 | No attributes while the total is unknown; otherwise exactly the keys value, old_value, uptime_sec |
| Reconcile.SetAttrs | custom_components/sensor/tasmota_counter.py:285-293 | The attribute loop never changes the trusted or freshness flags |
| Reconcile.RestoreFields | custom_components/sensor/tasmota_counter.py:285-293 | The loop sets each of total, baseline and uptime to its converted attribute when that conversion succeeds, and leaves it as it was otherwise |
| Reconcile.Restore | custom_components/sensor/tasmota_counter.py:265-301 | The total is known afterwards; nothing changes when it was already known; without a snapshot total and baseline are 0 and the baseline is untrusted; from a snapshot each attribute that converts replaces its field, a failed or missing one leaves it as it was except the total, which defaults to 0, and the baseline is trusted exactly when it was or the resulting uptime is positive; the freshness flag is untouched |
| Reconcile.RestoreRoundTrip | custom_components/sensor/tasmota_counter.py:265-334 | A freshly constructed sensor restoring the attributes the sensor wrote gets the same total, baseline and uptime, with the baseline trusted exactly when the uptime is positive |
| Reconcile.RunKeepsTotal | custom_components/sensor/tasmota_counter.py:189-262 | Over any sequence of samples, uptime texts and watchdog ticks, with raw values and the starting baseline in [0, 2^32), the total never decreases and the baseline stays in range |
| Reconcile.MalformedUptimeIgnored | custom_components/sensor/tasmota_counter.py:226-256 | An uptime text the regular expression does not match leaves the state unchanged |
| Reconcile.RebootRebaselines | custom_components/sensor/tasmota_counter.py:212-262 | After an uptime drop the next sample is only a new baseline: trusted again, total unchanged |
| Reconcile.WrapSample | custom_components/sensor/tasmota_counter.py:192-198 | Baseline 4294967290 and sample 5 give a wrapped diff of 11, accepted when the maximum is at least 11 |
| Reconcile.OversizedBaselineLowersTotal | custom_components/sensor/tasmota_counter.py:192-208 | A baseline more than 2^32 above the sample yields a negative diff that passes both checks and lowers the total |
| Uptime.UptimeToSec | custom_components/sensor/tasmota_counter.py:226-232 | The result is non-negative exactly when the text starts with a match of `(\d+)T(\d\d):(\d\d):(\d\d)`, is then S + 60 M + 3600 H + 86400 D of the groups, and is -1 otherwise |
| Uptime.MatchIsGreedy | custom_components/sensor/tasmota_counter.py:228 | The day group of any match is the whole leading digit run |
| Uptime.UptimeRoundTrip | custom_components/sensor/tasmota_counter.py:226-230 | Parsing an uptime in Tasmota's spelling, followed by anything, gives its total seconds |
| Uptime.UptimeSample | custom_components/sensor/tasmota_counter.py:95 | "0T00:00:23" is 23 seconds |
| Uptime.NoDayFieldRejected | custom_components/sensor/tasmota_counter.py:231-232 | Text without the day field gives -1 |
| Decimal.LeadingDigits | custom_components/sensor/tasmota_counter.py:228 | The greedy `\d+` run: all digits, followed by a non-digit or the end |
| Decimal.DigitsValue | custom_components/sensor/tasmota_counter.py:230 | `int()` of k digits is below 10^k |
| Decimal.ParseInt | custom_components/sensor/tasmota_counter.py:291 | `int()` of text succeeds exactly for digits with an optional leading minus |
| Decimal.IntTextRoundTrip | custom_components/sensor/tasmota_counter.py:291 | `int(str(n)) == n` for every integer |
| Topics.TopicsRoundTrip | custom_components/sensor/tasmota_counter.py:48-55 | Each topic name gives back the short topic it was built from |
| Topics.TopicsInjective | custom_components/sensor/tasmota_counter.py:48-55 | Different devices get different topic names |
| Topics.TopicsDistinct | custom_components/sensor/tasmota_counter.py:48-55 | The availability, sensor and state topics never coincide |
| Counter.TasmotaCounter.constructor | custom_components/sensor/tasmota_counter.py:110-135 | No total or baseline, uptime sentinel, untrusted baseline, fresh flag set, display unknown, the three topics of the device |
| Counter.TasmotaCounter.UpdateStateValue | custom_components/sensor/tasmota_counter.py:218-223 | The display is the total, or the template rendered with it |
| Counter.TasmotaCounter.UpdateCounter | custom_components/sensor/tasmota_counter.py:189-215 | Fields as `CounterStep` gives them; an accepted sample re-renders the display and requests one refresh, any other outcome leaves display and requests alone |
| Counter.TasmotaCounter.UpdateUptime | custom_components/sensor/tasmota_counter.py:254-262 | Fields as `UptimeStep` gives them; only the uptime and trusted flag may change |
| Counter.TasmotaCounter.UpdateFromUptimeText | custom_components/sensor/tasmota_counter.py:236-243 | The uptime text is parsed and recorded; a text that does not match changes nothing |
| Counter.TasmotaCounter.KeepaliveAsWritten | custom_components/sensor/tasmota_counter.py:180-186 | Flags as `KeepaliveStep` gives them; a stale tick writes "unknown" to the unread attribute and requests a refresh, leaving the display as it was |
| Counter.TasmotaCounter.Keepalive | custom_components/sensor/tasmota_counter.py:180-186 | As intended: a stale tick sets the display to "unknown" and requests a refresh |
| Counter.TasmotaCounter.RestoreAttributes | custom_components/sensor/tasmota_counter.py:280-301 | The attribute loop and its aftermath give the fields `Restore` gives, and the display is rendered from the restored total |
| Counter.TasmotaCounter.LoadStateFromRecorder | custom_components/sensor/tasmota_counter.py:265-301 | Fields as `Restore` gives them; a first restore renders the display; only the cold start requests a refresh |
| Counter.TasmotaCounter.LoadStateFromRecorderAsWritten | custom_components/sensor/tasmota_counter.py:265-278 | Fields as `Restore` gives them; the cold start raises, leaving the display unrendered and requesting nothing |
| Counter.ColdStartDiscrepancy | custom_components/sensor/tasmota_counter.py:270-278 | On a first start the code as written raises and shows "unknown"; the corrected restore shows 0 |
| Counter.StaleDiscrepancy | custom_components/sensor/tasmota_counter.py:180-186 | After two ticks without a sample the code as written still shows the total; the corrected watchdog shows "unknown" |
| Counter.RebootScenario | custom_components/sensor/tasmota_counter.py:254-262 | Uptime 500 then 10 clears the trusted baseline; a sample of 0 trusts it again and leaves the total at 42 |

## Findings

| source | as written | input that shows it | evidently intended | confidence | as-written member | corrected member |
|---|---|---|---|---|---|---|
| custom_components/sensor/tasmota_counter.py:276 | The cold start calls `self.update_state_value(self)`, one positional argument more than the method takes, so it raises a TypeError after setting total, baseline and trusted flag; the display is never rendered and no refresh is requested (and the subscriptions set up after the restore are never made) | first start, no recorded state | render the display from the total 0 and request one refresh | high; not executed | `Counter.TasmotaCounter.LoadStateFromRecorderAsWritten`, exhibited by `Counter.ColdStartDiscrepancy` | `Counter.TasmotaCounter.LoadStateFromRecorder` |
| custom_components/sensor/tasmota_counter.py:185 | The watchdog writes "unknown" to `_m_state`, an attribute nothing reads, so the displayed state never becomes "unknown" | a restored total of 42, then two watchdog ticks with no sample | set the displayed state `_state` to "unknown" | high; not executed | `Counter.TasmotaCounter.KeepaliveAsWritten`, exhibited by `Counter.StaleDiscrepancy` | `Counter.TasmotaCounter.Keepalive` |

## Left out

- MQTT subscription and availability (`async_added_to_hass`, `MqttAvailability`): message-bus plumbing; the topic names are modelled, the subscriptions are not.
- JSON payload parsing in `update_mqtt_sensor` and `update_mqtt_state`: the extracted counter integer is the input of `UpdateCounter`, and the extracted uptime text the input of `UpdateFromUptimeText`.
- The value template: modelled as an opaque function from the total to text; Home Assistant's template engine, and any dependence of a rendering on other entities, is not.
- `async_get_last_state` and the async machinery: the recorded state is the `Option<Snapshot>` argument of the restore.
- The keepalive timer (`async_track_time_interval`, only started when `expire_after` is positive) and `async_schedule_update_ha_state`: a refresh request is counted in `refreshRequests`; the scheduling and the rendering it triggers are not modelled.
- `device_state_attributes` is modelled only as `Reconcile.Attributes` on the reconciliation state; the entity property itself is not repeated in the class.
- Logging, the configuration schema, the setup functions and the property getters (`name`, `icon`, `unit_of_measurement`, `should_poll`, `state`): no behaviour to verify. The counter id and `expire_after` are therefore not constructor parameters.
- Concurrency: Home Assistant's event loop runs one callback at a time; each method is one atomic step.
- Decimal.ParseInt: Python's `int()` also accepts surrounding whitespace, a leading '+', underscores between digits, and non-ASCII digits; text of those forms is treated as a failing conversion. Float and bool attributes (`int(3.7) == 3`, `int(True) == 1`) are not modelled: `AttrValue` has only numbers, null and text.
- Uptime.UptimeToSec: Python's `\d` also matches non-ASCII decimal digits; only '0'..'9' are digits in the model.
- Reconcile.RunKeepsTotal: covers runs after the restore; the restore itself may replace the total, as designed.
