/**
 * The three MQTT topics a Tasmota device publishes under its short topic:
 * the last-will ("LWT") availability topic, the "SENSOR" telemetry topic that
 * carries the counters, and the "STATE" telemetry topic that carries the uptime.
 */
module Topics {
  import opened Wrappers

  const TelePrefix: string := "tele/"
  const AvailSuffix: string := "/LWT"
  const SensorSuffix: string := "/SENSOR"
  const StateSuffix: string := "/STATE"

  function AvailTopic(topic: string): string {
    TelePrefix + topic + AvailSuffix
  }

  function TeleTopic(topic: string): string {
    TelePrefix + topic + SensorSuffix
  }

  function StateTopic(topic: string): string {
    TelePrefix + topic + StateSuffix
  }

  /** The short topic inside `full`, when `full` is "tele/" + short topic + `suffix`. */
  function ShortTopic(full: string, suffix: string): (r: Option<string>)
    ensures r.Some? ==> full == TelePrefix + r.value + suffix
  {
    if |full| >= |TelePrefix| + |suffix| && full[..|TelePrefix|] == TelePrefix
       && full[|full| - |suffix|..] == suffix
    then
      var t := full[|TelePrefix|..|full| - |suffix|];
      assert full == full[..|TelePrefix|] + t + full[|full| - |suffix|..];
      Some(t)
    else None
  }

  lemma ShortTopicOf(topic: string, suffix: string)
    ensures ShortTopic(TelePrefix + topic + suffix, suffix) == Some(topic)
  {
    var full := TelePrefix + topic + suffix;
    assert full[..|TelePrefix|] == TelePrefix;
    assert full[|full| - |suffix|..] == suffix;
    assert full[|TelePrefix|..|full| - |suffix|] == topic;
  }

  /** Each helper can be inverted: the topic name recovers the short topic. */
  lemma {:induction false} TopicsRoundTrip(topic: string)
    ensures ShortTopic(AvailTopic(topic), AvailSuffix) == Some(topic)
    ensures ShortTopic(TeleTopic(topic), SensorSuffix) == Some(topic)
    ensures ShortTopic(StateTopic(topic), StateSuffix) == Some(topic)
  {
    ShortTopicOf(topic, AvailSuffix);
    ShortTopicOf(topic, SensorSuffix);
    ShortTopicOf(topic, StateSuffix);
  }

  /** Distinct devices get distinct topics. */
  lemma TopicsInjective(t: string, u: string)
    requires t != u
    ensures AvailTopic(t) != AvailTopic(u)
    ensures TeleTopic(t) != TeleTopic(u)
    ensures StateTopic(t) != StateTopic(u)
  {
    TopicsRoundTrip(t);
    TopicsRoundTrip(u);
  }

  /**
   * The three subscriptions never collide, whatever the two short topics are:
   * the names differ in their last character.
   */
  lemma TopicsDistinct(t: string, u: string)
    ensures AvailTopic(t) != TeleTopic(u)
    ensures AvailTopic(t) != StateTopic(u)
    ensures TeleTopic(t) != StateTopic(u)
  {
    var a, s, e := AvailTopic(t), TeleTopic(u), StateTopic(u);
    var s' := TeleTopic(t);
    assert a[|a| - 1] == 'T';
    assert s[|s| - 1] == 'R';
    assert s'[|s'| - 1] == 'R';
    assert e[|e| - 1] == 'E';
  }
}
