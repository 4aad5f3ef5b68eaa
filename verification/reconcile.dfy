/**
 * The reconciliation state of one Tasmota pulse counter and how each event
 * changes it. The device forgets its counter on every reboot; the sensor keeps
 * a running total and adds to it the difference between each raw sample and
 * the previous one (the baseline), guarded by a maximum accepted difference.
 * A drop in the device's uptime means it rebooted, so the next sample is only
 * taken as a new baseline.
 *
 * These functions are the specification the class in module Counter is proved
 * against; the properties of the sensor are stated about them.
 */
module Reconcile {
  import opened Wrappers
  import Decimal
  import Uptime

  /** The modulus the Python code uses when a sample is below the baseline: 0xffffffff + 1. */
  const WrapModulus: int := 0x1_0000_0000

  /**
   * Initial uptime: larger than any real uptime, so the first report always
   * reads as a reboot unless a restored uptime replaced it.
   */
  const UptimeSentinel: int := 100000000000

  /** The names of the three attributes written to and read back from the recorder. */
  const ValueKey: string := "value"
  const OldValueKey: string := "old_value"
  const UptimeKey: string := "uptime_sec"

  /**
   * value: the accumulated total (None until restored); oldValue: the raw
   * baseline; uptimeSec: the last uptime; validRef: whether the baseline can be
   * trusted; mqttUpdate: the freshness flag, set by the accept path (even when the
   * add then fails) and cleared by a watchdog tick; it starts set.
   */
  datatype CounterState = CounterState(
    value: Option<int>,
    oldValue: Option<int>,
    uptimeSec: int,
    validRef: bool,
    mqttUpdate: bool)

  /** The state of a freshly constructed sensor. */
  const Initial: CounterState := CounterState(None, None, UptimeSentinel, false, true)

  /**
   * What one raw sample did. NoBaseline and NoTotal are the Python TypeErrors
   * raised when the baseline or the total is still None.
   */
  datatype Outcome =
    | Rebaselined
    | Accepted(diff: int)
    | Duplicate
    | RejectedWrap(diff: int)
    | RejectedJump(diff: int)
    | NoBaseline
    | NoTotal

  datatype Step = Step(next: CounterState, outcome: Outcome)

  /** The increment from baseline `base` to sample `n`, assuming one 32-bit wrap when `n` is lower. */
  function Diff(base: int, n: int): int {
    if n < base then n + WrapModulus - base else n - base
  }

  /** The baseline holds a raw value the device can report (an unsigned 32-bit number). */
  predicate InRange(s: CounterState) {
    s.oldValue.Some? ==> 0 <= s.oldValue.value < WrapModulus
  }

  /** The total did not go down, and once known it stays known. */
  predicate TotalKept(before: Option<int>, after: Option<int>) {
    before.Some? ==> after.Some? && before.value <= after.value
  }

  /** `update_counter`: apply one raw sample `n` with acceptance threshold `maxDiff`. */
  function CounterStep(s: CounterState, n: int, maxDiff: int): (r: Step)
    // the uptime is never touched
    ensures r.next.uptimeSec == s.uptimeSec
    // without a trusted baseline the sample only becomes the baseline
    ensures !s.validRef ==>
      r.outcome == Rebaselined && r.next.oldValue == Some(n) && r.next.validRef
      && r.next.value == s.value && r.next.mqttUpdate == s.mqttUpdate
    // a sample is added exactly when baseline and total are known and diff != 0, diff <= maxDiff
    // (a negative wrapped diff is accepted too; see OversizedBaselineLowersTotal)
    ensures r.outcome.Accepted? <==>
      s.validRef && s.oldValue.Some? && s.value.Some?
      && Diff(s.oldValue.value, n) != 0 && Diff(s.oldValue.value, n) <= maxDiff
    ensures r.outcome.Accepted? ==>
      r.outcome.diff == Diff(s.oldValue.value, n)
      && r.next == s.(value := Some(s.value.value + r.outcome.diff), oldValue := Some(n),
                      mqttUpdate := true)
    // a duplicate or a rejected sample leaves every field as it was
    ensures (r.outcome.Duplicate? || r.outcome.RejectedWrap? || r.outcome.RejectedJump?
             || r.outcome.NoBaseline?) ==> r.next == s
    ensures r.outcome.Rebaselined? <==> !s.validRef
    ensures r.outcome.NoBaseline? <==> s.validRef && s.oldValue.None?
    // a trusted baseline with a zero or too large difference leaves every field as it was
    ensures (s.validRef && s.oldValue.Some?
             && (Diff(s.oldValue.value, n) == 0 || Diff(s.oldValue.value, n) > maxDiff)) ==> r.next == s
    // an acceptable difference with no total only sets the freshness flag (the TypeError path)
    ensures r.outcome.NoTotal? <==>
      s.validRef && s.oldValue.Some? && s.value.None?
      && Diff(s.oldValue.value, n) != 0 && Diff(s.oldValue.value, n) <= maxDiff
    ensures r.outcome.NoTotal? ==> r.next == s.(mqttUpdate := true)
    ensures r.outcome.Duplicate? ==>
      s.validRef && s.oldValue.Some? && Diff(s.oldValue.value, n) == 0
    ensures r.outcome.RejectedWrap? ==>
      s.oldValue.Some? && n < s.oldValue.value && r.outcome.diff == Diff(s.oldValue.value, n) > maxDiff
    ensures r.outcome.RejectedJump? ==>
      s.oldValue.Some? && n >= s.oldValue.value && r.outcome.diff == Diff(s.oldValue.value, n) > maxDiff
    // with raw values in the device's 32-bit range the total never goes down
    ensures InRange(s) && 0 <= n < WrapModulus ==>
      InRange(r.next) && TotalKept(s.value, r.next.value)
      && (r.outcome.Accepted? ==> r.outcome.diff > 0)
  {
    if !s.validRef then
      Step(s.(oldValue := Some(n), validRef := true), Rebaselined)
    else if s.oldValue.None? then
      Step(s, NoBaseline)
    else
      var base := s.oldValue.value;
      if n < base && n + WrapModulus - base > maxDiff then
        Step(s, RejectedWrap(n + WrapModulus - base))
      else
        var diff := Diff(base, n);
        if diff == 0 then Step(s, Duplicate)
        else if diff > maxDiff then Step(s, RejectedJump(diff))
        else if s.value.None? then Step(s.(mqttUpdate := true), NoTotal)
        else Step(s.(value := Some(s.value.value + diff), oldValue := Some(n), mqttUpdate := true),
                  Accepted(diff))
  }

  /** `update_uptime`: a negative uptime (a failed parse) is ignored; a smaller one means a reboot. */
  function UptimeStep(s: CounterState, u: int): (r: CounterState)
    ensures u < 0 ==> r == s
    ensures u >= 0 ==> r.uptimeSec == u
    ensures u >= 0 ==> (r.validRef <==> s.validRef && u >= s.uptimeSec)
    ensures r.value == s.value && r.oldValue == s.oldValue && r.mqttUpdate == s.mqttUpdate
  {
    if u < 0 then s
    else if u < s.uptimeSec then s.(validRef := false, uptimeSec := u)
    else s.(uptimeSec := u)
  }

  datatype Tick = Tick(next: CounterState, stale: bool)

  /** The flag logic of `_async_keepalive`: stale when nothing was accepted since the last tick. */
  function KeepaliveStep(s: CounterState): (r: Tick)
    ensures r.stale <==> !s.mqttUpdate
    ensures !r.next.mqttUpdate
    ensures r.next.value == s.value && r.next.oldValue == s.oldValue
    ensures r.next.uptimeSec == s.uptimeSec && r.next.validRef == s.validRef
  {
    if s.mqttUpdate then Tick(s.(mqttUpdate := false), false) else Tick(s, true)
  }

  // ---------------------------------------------------------------------------
  // The recorder snapshot

  /** A stored attribute value: a number, a null, or text. */
  datatype AttrValue = IntAttr(n: int) | NullAttr | TextAttr(t: string)

  /** The last recorded state of the entity: its state string and its attributes. */
  datatype Snapshot = Snapshot(state: string, attributes: map<string, AttrValue>)

  /** Python's `int()` on a stored attribute; None where it raises. */
  function ToInt(a: AttrValue): (r: Option<int>)
    ensures a.IntAttr? ==> r == Some(a.n)
    ensures a.NullAttr? ==> r.None?
  {
    match a
    case IntAttr(n) => Some(n)
    case NullAttr => None
    case TextAttr(t) => Decimal.ParseInt(t)
  }

  /** `int()` of the decimal text of a number is that number. */
  lemma ToIntRoundTrip(n: int)
    ensures ToInt(TextAttr(Decimal.IntToText(n))) == Some(n)
  {
    Decimal.IntTextRoundTrip(n);
  }

  /** `device_state_attributes`: nothing before the total is known, else the three fields. */
  function Attributes(s: CounterState): (r: map<string, AttrValue>)
    ensures s.value.None? <==> r == map[]
    ensures s.value.Some? ==> r.Keys == {ValueKey, OldValueKey, UptimeKey}
  {
    if s.value.None? then map[]
    else
      var r := map[ValueKey := IntAttr(s.value.value),
                   OldValueKey := if s.oldValue.Some? then IntAttr(s.oldValue.value) else NullAttr,
                   UptimeKey := IntAttr(s.uptimeSec)];
      assert ValueKey in r;
      r
  }

  /** The field each restored attribute is written to. */
  datatype Field = ValueField | OldValueField | UptimeField

  /** The (attribute, field) pairs the restore walks through, in order. */
  const RestoreTable: seq<(string, Field)> :=
    [(ValueKey, ValueField), (OldValueKey, OldValueField), (UptimeKey, UptimeField)]

  /** The converted attribute `key`, or None when it is missing or `int()` rejects it. */
  function Lookup(attrs: map<string, AttrValue>, key: string): (r: Option<int>)
    ensures key !in attrs ==> r.None?
  {
    if key in attrs then ToInt(attrs[key]) else None
  }

  /** One `setattr` of the restore loop: a failed conversion leaves the field as it was. */
  function SetAttr(s: CounterState, attrs: map<string, AttrValue>, entry: (string, Field)): (r: CounterState)
    ensures r.validRef == s.validRef && r.mqttUpdate == s.mqttUpdate
  {
    var v := Lookup(attrs, entry.0);
    if v.None? then s
    else match entry.1
      case ValueField => s.(value := v)
      case OldValueField => s.(oldValue := v)
      case UptimeField => s.(uptimeSec := v.value)
  }

  /** The restore loop after the entries of `table`. */
  function SetAttrs(s: CounterState, attrs: map<string, AttrValue>, table: seq<(string, Field)>): (r: CounterState)
    ensures r.validRef == s.validRef && r.mqttUpdate == s.mqttUpdate
    decreases |table|
  {
    if table == [] then s
    else SetAttr(SetAttrs(s, attrs, table[..|table| - 1]), attrs, table[|table| - 1])
  }

  /**
   * `load_state_from_recorder` on the reconciliation state: nothing when the
   * total is already known; the cold-start values without a snapshot; else the
   * stored attributes that convert, a total of 0 if none did, and a trusted
   * baseline once the uptime is positive.
   */
  function Restore(s: CounterState, snapshot: Option<Snapshot>): (r: CounterState)
    ensures r.value.Some?
    ensures s.value.Some? ==> r == s
    ensures s.value.None? && snapshot.None? ==>
      r == s.(value := Some(0), oldValue := Some(0), validRef := false)
    // from a snapshot: each converted attribute replaces its field, only the total defaults to 0,
    // and the baseline becomes trusted when the resulting uptime is positive
    ensures s.value.None? && snapshot.Some? ==>
      var attrs := snapshot.value.attributes;
      var v, o, u := Lookup(attrs, ValueKey), Lookup(attrs, OldValueKey), Lookup(attrs, UptimeKey);
      && r.value == (if v.Some? then v else Some(0))
      && r.oldValue == (if o.Some? then o else s.oldValue)
      && r.uptimeSec == (if u.Some? then u.value else s.uptimeSec)
      && (r.validRef <==> s.validRef || r.uptimeSec > 0)
    ensures r.mqttUpdate == s.mqttUpdate
  {
    if s.value.Some? then s
    else if snapshot.None? then s.(value := Some(0), oldValue := Some(0), validRef := false)
    else
      RestoreFields(s, snapshot.value.attributes);
      var t := SetAttrs(s, snapshot.value.attributes, RestoreTable);
      var t' := if t.value.None? then t.(value := Some(0)) else t;
      if t'.uptimeSec > 0 then t'.(validRef := true) else t'
  }

  /** Restoring the three attributes field by field, as the loop does. */
  lemma RestoreFields(s: CounterState, attrs: map<string, AttrValue>)
    ensures SetAttrs(s, attrs, RestoreTable) ==
      var v := Lookup(attrs, ValueKey);
      var o := Lookup(attrs, OldValueKey);
      var u := Lookup(attrs, UptimeKey);
      s.(value := if v.Some? then v else s.value,
         oldValue := if o.Some? then o else s.oldValue,
         uptimeSec := if u.Some? then u.value else s.uptimeSec)
  {
    var t := RestoreTable;
    assert t[..1][..0] == [] && t[..1][0] == (ValueKey, ValueField);
    assert SetAttrs(s, attrs, t[..1][..0]) == s;
    assert t[..2][..1] == t[..1] && t[..2][1] == (OldValueKey, OldValueField);
    assert t[..|t| - 1] == t[..2];
    var s1 := SetAttrs(s, attrs, t[..1]);
    var s2 := SetAttrs(s, attrs, t[..2]);
    assert s1 == SetAttr(s, attrs, (ValueKey, ValueField));
    assert s2 == SetAttr(s1, attrs, (OldValueKey, OldValueField));
    assert SetAttrs(s, attrs, t) == SetAttr(s2, attrs, (UptimeKey, UptimeField));
  }

  /**
   * What the sensor writes to the recorder is what a freshly constructed sensor
   * restores: the same total, baseline and uptime, with the baseline trusted
   * exactly when the uptime is positive.
   */
  lemma {:induction false} RestoreRoundTrip(s: CounterState, state: string)
    requires s.value.Some?
    ensures var r := Restore(Initial, Some(Snapshot(state, Attributes(s))));
      r.value == s.value && r.oldValue == s.oldValue && r.uptimeSec == s.uptimeSec
      && (r.validRef <==> s.uptimeSec > 0)
  {
    var a := Attributes(s);
    RestoreFields(Initial, a);
    assert Lookup(a, ValueKey) == s.value;
    assert Lookup(a, UptimeKey) == Some(s.uptimeSec);
    assert Lookup(a, OldValueKey) == s.oldValue;
  }

  // ---------------------------------------------------------------------------
  // Runs of events after the restore

  /** The events the sensor receives once running: a counter sample, an uptime text, a watchdog tick. */
  datatype Event = Sample(n: int) | UptimeReport(text: string) | KeepaliveTick

  function Apply(s: CounterState, e: Event, maxDiff: int): CounterState {
    match e
    case Sample(n) => CounterStep(s, n, maxDiff).next
    case UptimeReport(text) => UptimeStep(s, Uptime.UptimeToSec(text))
    case KeepaliveTick => KeepaliveStep(s).next
  }

  function Run(s: CounterState, events: seq<Event>, maxDiff: int): CounterState
    decreases |events|
  {
    if events == [] then s else Run(Apply(s, events[0], maxDiff), events[1..], maxDiff)
  }

  predicate SamplesInRange(events: seq<Event>) {
    forall i :: 0 <= i < |events| && events[i].Sample? ==> 0 <= events[i].n < WrapModulus
  }

  /**
   * The total only ever grows: over any interleaving of samples, uptime reports
   * and watchdog ticks, provided the device's raw values and the starting
   * baseline are unsigned 32-bit numbers.
   */
  lemma {:induction false} RunKeepsTotal(s: CounterState, events: seq<Event>, maxDiff: int)
    requires InRange(s) && SamplesInRange(events)
    ensures InRange(Run(s, events, maxDiff))
    ensures TotalKept(s.value, Run(s, events, maxDiff).value)
    decreases |events|
  {
    if events != [] {
      var t := Apply(s, events[0], maxDiff);
      assert InRange(t) && TotalKept(s.value, t.value);
      assert SamplesInRange(events[1..]) by {
        forall i | 0 <= i < |events[1..]| && events[1..][i].Sample?
          ensures 0 <= events[1..][i].n < WrapModulus
        {
          assert events[1..][i] == events[i + 1];
        }
      }
      RunKeepsTotal(t, events[1..], maxDiff);
    }
  }

  /** An uptime text that does not parse changes nothing. */
  lemma MalformedUptimeIgnored(s: CounterState, text: string, maxDiff: int)
    requires !Uptime.Matches(text)
    ensures Apply(s, UptimeReport(text), maxDiff) == s
  {
  }

  /**
   * A reboot forces a new baseline: after a smaller uptime the next sample is
   * taken as the baseline and the total does not move.
   */
  lemma RebootRebaselines(s: CounterState, u: int, n: int, maxDiff: int)
    requires 0 <= u < s.uptimeSec
    ensures var t := UptimeStep(s, u);
      !t.validRef && CounterStep(t, n, maxDiff).outcome == Rebaselined
      && CounterStep(t, n, maxDiff).next.validRef
      && CounterStep(t, n, maxDiff).next.value == s.value
  {
  }

  /**
   * The uptime sentinel does not protect the first report: any real uptime is
   * below it, so the first report clears the trusted baseline.
   */
  lemma SentinelMakesFirstReportAReboot(s: CounterState, u: int)
    requires s.uptimeSec == UptimeSentinel && 0 <= u < UptimeSentinel
    ensures !UptimeStep(s, u).validRef
  {
  }

  /**
   * A snapshot without an uptime keeps the sentinel, which is positive, so the
   * restore trusts the baseline; the first uptime report then takes it away.
   */
  lemma {:induction false} RestoreWithoutUptimeThenReport(attrs: map<string, AttrValue>, state: string, u: int)
    requires UptimeKey !in attrs && 0 <= u < UptimeSentinel
    ensures var r := Restore(Initial, Some(Snapshot(state, attrs)));
      r.validRef && r.uptimeSec == UptimeSentinel && !UptimeStep(r, u).validRef
  {
    var r := Restore(Initial, Some(Snapshot(state, attrs)));
    assert Lookup(attrs, UptimeKey).None?;
    SentinelMakesFirstReportAReboot(r, u);
  }

  /** A wrap of the 32-bit counter: 4294967290 then 5 is an increment of 11. */
  lemma WrapSample(s: CounterState, maxDiff: int)
    requires s.validRef && s.oldValue == Some(4294967290) && s.value.Some? && maxDiff >= 11
    ensures CounterStep(s, 5, maxDiff) ==
      Step(s.(value := Some(s.value.value + 11), oldValue := Some(5), mqttUpdate := true), Accepted(11))
  {
  }

  /**
   * A baseline more than 2^32 above the sample (a restored or 64-bit baseline,
   * or a sample below the baseline minus 2^32) gives a negative wrapped
   * difference, which passes both rejection checks: the total goes down.
   * At exactly 2^32 above, the difference is zero and the sample is a duplicate.
   */
  lemma OversizedBaselineLowersTotal(s: CounterState, n: int, maxDiff: int)
    requires s.validRef && s.oldValue.Some? && s.value.Some?
    requires s.oldValue.value > n + WrapModulus && maxDiff >= 0
    ensures CounterStep(s, n, maxDiff).outcome.Accepted?
    ensures CounterStep(s, n, maxDiff).next.value.value < s.value.value
  {
  }
}
