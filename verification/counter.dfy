/**
 * The Home Assistant sensor entity for one Tasmota pulse counter. Its fields
 * are updated in place by the MQTT callbacks, the watchdog and the restore at
 * start-up; each method is proved against the matching function of module
 * Reconcile, and states what it does to the displayed state.
 */
module Counter {
  import opened Wrappers
  import opened Reconcile
  import Topics
  import Uptime

  /** What the entity shows: "unknown", the total itself, or text. */
  datatype DisplayState = Unknown | Count(n: int) | Text(s: string)

  class TasmotaCounter {
    var value: Option<int>
    var oldValue: Option<int>
    var uptimeSec: int
    var validRef: bool
    var mqttUpdate: bool
    var state: DisplayState
    /** The attribute the Python watchdog writes; nothing ever reads it. */
    var mState: Option<DisplayState>
    /** How many state refreshes were requested from Home Assistant. */
    var refreshRequests: nat

    const maxValidDiff: int
    /** The optional value template, an opaque function of the total. */
    const template: Option<int -> string>
    const availTopic: string
    const teleTopic: string
    const stateTopic: string

    function Model(): CounterState
      reads this
    {
      CounterState(value, oldValue, uptimeSec, validRef, mqttUpdate)
    }

    /** The displayed value for total `v`: `v` itself, or the rendered template. */
    function Render(v: int): DisplayState {
      if template.None? then Count(v) else Text(template.value(v))
    }

    constructor (topic: string, maxValidDiff: int, template: Option<int -> string>)
      ensures Model() == Initial && state == Unknown && mState == None && refreshRequests == 0
      ensures this.maxValidDiff == maxValidDiff && this.template == template
      ensures availTopic == Topics.AvailTopic(topic)
      ensures teleTopic == Topics.TeleTopic(topic) && stateTopic == Topics.StateTopic(topic)
    {
      availTopic := Topics.AvailTopic(topic);
      state := Unknown;
      oldValue := None;
      value := None;
      uptimeSec := UptimeSentinel;
      validRef := false;
      this.maxValidDiff := maxValidDiff;
      teleTopic := Topics.TeleTopic(topic);
      stateTopic := Topics.StateTopic(topic);
      this.template := template;
      mqttUpdate := true;
      mState := None;
      refreshRequests := 0;
    }

    /** `update_state_value`: every caller has a known total. */
    method UpdateStateValue()
      requires value.Some?
      modifies this`state
      ensures state == Render(value.value)
    {
      if template.None? {
        state := Count(value.value);
      } else {
        state := Text(template.value(value.value));
      }
    }

    /** `update_counter`: apply one raw counter sample. */
    method UpdateCounter(newCounter: int) returns (outcome: Outcome)
      modifies this
      ensures Model() == CounterStep(old(Model()), newCounter, maxValidDiff).next
      ensures outcome == CounterStep(old(Model()), newCounter, maxValidDiff).outcome
      ensures outcome.Accepted? ==>
        state == Render(value.value) && refreshRequests == old(refreshRequests) + 1
      ensures !outcome.Accepted? ==>
        state == old(state) && refreshRequests == old(refreshRequests)
      ensures mState == old(mState)
    {
      if validRef {
        if oldValue.None? {
          // comparing with None raises a TypeError
          return NoBaseline;
        }
        var base := oldValue.value;
        var diff := 0;
        if newCounter < base {
          diff := (newCounter + 0xffff_ffff + 1) - base;
          if diff > maxValidDiff {
            return RejectedWrap(diff);
          }
        } else {
          diff := newCounter - base;
        }
        if diff == 0 {
          return Duplicate;
        }
        if diff > maxValidDiff {
          outcome := RejectedJump(diff);
        } else {
          mqttUpdate := true;
          if value.None? {
            // adding to None raises a TypeError after the flag is set
            return NoTotal;
          }
          value := Some(value.value + diff);
          oldValue := Some(newCounter);
          UpdateStateValue();
          refreshRequests := refreshRequests + 1;
          outcome := Accepted(diff);
        }
      } else {
        oldValue := Some(newCounter);
        validRef := true;
        outcome := Rebaselined;
      }
    }

    /** `update_uptime`: record an uptime in seconds, noticing a reboot. */
    method UpdateUptime(seconds: int)
      modifies this`validRef, this`uptimeSec
      ensures Model() == UptimeStep(old(Model()), seconds)
    {
      if seconds < 0 {
        return;
      }
      if seconds < uptimeSec {
        validRef := false;
        uptimeSec := seconds;
      } else {
        uptimeSec := seconds;
      }
    }

    /** The uptime path of `update_mqtt_state`, from the "Uptime" text onwards. */
    method UpdateFromUptimeText(text: string)
      modifies this`validRef, this`uptimeSec
      ensures Model() == UptimeStep(old(Model()), Uptime.UptimeToSec(text))
      ensures !Uptime.Matches(text) ==> Model() == old(Model())
    {
      var seconds := Uptime.UptimeToSec(text);
      UpdateUptime(seconds);
    }

    /** `_async_keepalive` as written: the stale mark goes to an attribute nobody reads. */
    method KeepaliveAsWritten()
      modifies this`mqttUpdate, this`mState, this`refreshRequests
      ensures Model() == KeepaliveStep(old(Model())).next
      ensures KeepaliveStep(old(Model())).stale ==>
        mState == Some(Unknown) && refreshRequests == old(refreshRequests) + 1
      ensures !KeepaliveStep(old(Model())).stale ==>
        mState == old(mState) && refreshRequests == old(refreshRequests)
    {
      if mqttUpdate {
        mqttUpdate := false;
      } else {
        mState := Some(Unknown);
        refreshRequests := refreshRequests + 1;
      }
    }

    /** The watchdog as intended: a counter with no accepted sample since the last tick shows "unknown". */
    method Keepalive()
      modifies this`mqttUpdate, this`state, this`refreshRequests
      ensures Model() == KeepaliveStep(old(Model())).next
      ensures KeepaliveStep(old(Model())).stale ==>
        state == Unknown && refreshRequests == old(refreshRequests) + 1
      ensures !KeepaliveStep(old(Model())).stale ==>
        state == old(state) && refreshRequests == old(refreshRequests)
    {
      if mqttUpdate {
        mqttUpdate := false;
      } else {
        state := Unknown;
        refreshRequests := refreshRequests + 1;
      }
    }

    /** The snapshot branch of `load_state_from_recorder`: the `setattr` loop and what follows it. */
    method RestoreAttributes(snapshot: Snapshot)
      requires value.None?
      modifies this
      ensures Model() == Restore(old(Model()), Some(snapshot))
      ensures state == Render(value.value)
      ensures refreshRequests == old(refreshRequests) && mState == old(mState)
    {
      state := Text(snapshot.state);
      ghost var s0 := Model();
      var attrs := snapshot.attributes;
      var i := 0;
      while i < |RestoreTable|
        invariant 0 <= i <= |RestoreTable|
        invariant Model() == SetAttrs(s0, attrs, RestoreTable[..i])
        invariant refreshRequests == old(refreshRequests) && mState == old(mState)
      {
        var (key, field) := RestoreTable[i];
        if key in attrs {
          var converted := ToInt(attrs[key]);
          // a failed conversion is logged and the field keeps its value
          if converted.Some? {
            match field
            case ValueField => value := converted;
            case OldValueField => oldValue := converted;
            case UptimeField => uptimeSec := converted.value;
          }
        }
        assert RestoreTable[..i + 1][..i] == RestoreTable[..i];
        i := i + 1;
      }
      assert RestoreTable[..i] == RestoreTable;
      if value.None? {
        value := Some(0);
      }
      if uptimeSec > 0 {
        validRef := true;
      }
      UpdateStateValue();
    }

    /**
     * `load_state_from_recorder` with the cold start rendering the display, as
     * intended: the snapshot is what the recorder returned.
     */
    method LoadStateFromRecorder(snapshot: Option<Snapshot>)
      modifies this
      ensures Model() == Restore(old(Model()), snapshot)
      ensures old(value).Some? ==> state == old(state)
      ensures old(value).None? ==> state == Render(value.value)
      ensures refreshRequests == old(refreshRequests) + (if old(value).None? && snapshot.None? then 1 else 0)
      ensures mState == old(mState)
    {
      if value.Some? {
        return;
      }
      if snapshot.None? {
        value := Some(0);
        oldValue := Some(0);
        validRef := false;
        UpdateStateValue();
        refreshRequests := refreshRequests + 1;
        return;
      }
      RestoreAttributes(snapshot.value);
    }

    /**
     * `load_state_from_recorder` as written: the cold start calls
     * `update_state_value` with one argument too many, which raises a
     * TypeError after the three fields are set, so nothing is rendered and no
     * refresh is requested.
     */
    method LoadStateFromRecorderAsWritten(snapshot: Option<Snapshot>) returns (raised: bool)
      modifies this
      ensures Model() == Restore(old(Model()), snapshot)
      ensures raised <==> old(value).None? && snapshot.None?
      ensures raised || old(value).Some? ==>
        state == old(state) && refreshRequests == old(refreshRequests)
      ensures !raised && old(value).None? ==>
        state == Render(value.value) && refreshRequests == old(refreshRequests)
      ensures mState == old(mState)
    {
      raised := false;
      if value.Some? {
        return;
      }
      if snapshot.None? {
        value := Some(0);
        oldValue := Some(0);
        validRef := false;
        raised := true;
        return;
      }
      RestoreAttributes(snapshot.value);
    }
  }

  /**
   * First start without a snapshot: as written the display stays "unknown"
   * (and the TypeError aborts the start-up); as intended it shows 0.
   */
  method ColdStartDiscrepancy() returns (asWritten: DisplayState, corrected: DisplayState, raised: bool)
    ensures raised && asWritten == Unknown && corrected == Count(0)
  {
    var a := new TasmotaCounter("water_out", 100, None);
    raised := a.LoadStateFromRecorderAsWritten(None);
    asWritten := a.state;
    var b := new TasmotaCounter("water_out", 100, None);
    b.LoadStateFromRecorder(None);
    corrected := b.state;
  }

  /**
   * A restored total of 42 and two watchdog ticks with no sample in between:
   * as written the display still shows 42; as intended it shows "unknown".
   */
  method StaleDiscrepancy() returns (asWritten: DisplayState, corrected: DisplayState)
    ensures asWritten == Count(42) && corrected == Unknown
  {
    var stored := CounterState(Some(42), Some(7), 300, true, true);
    var snapshot := Snapshot("42", Attributes(stored));
    RestoreRoundTrip(stored, "42");
    var a := new TasmotaCounter("water_out", 100, None);
    a.LoadStateFromRecorder(Some(snapshot));
    a.KeepaliveAsWritten();
    a.KeepaliveAsWritten();
    asWritten := a.state;
    var b := new TasmotaCounter("water_out", 100, None);
    b.LoadStateFromRecorder(Some(snapshot));
    b.Keepalive();
    b.Keepalive();
    corrected := b.state;
  }

  /**
   * The reboot scenario: a trusted baseline, uptime 500, then uptime 10 and a
   * sample of 0. The uptime drop clears the baseline; the sample re-establishes
   * it without changing the total.
   */
  method RebootScenario() returns (afterUptime: bool, afterSample: bool, total: Option<int>)
    ensures !afterUptime && afterSample && total == Some(42)
  {
    var stored := CounterState(Some(42), Some(7), 500, true, true);
    RestoreRoundTrip(stored, "42");
    var c := new TasmotaCounter("water_out", 100, None);
    c.LoadStateFromRecorder(Some(Snapshot("42", Attributes(stored))));
    c.UpdateUptime(10);
    afterUptime := c.validRef;
    var outcome := c.UpdateCounter(0);
    afterSample := c.validRef;
    total := c.value;
  }
}
