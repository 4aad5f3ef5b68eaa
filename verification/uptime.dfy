/**
 * Tasmota reports its uptime as "<days>T<hh>:<mm>:<ss>", for example
 * "0T00:00:23". The sensor turns it into seconds with the regular expression
 * `(\d+)T(\d\d):(\d\d):(\d\d)` matched at the start of the text (anything after
 * the match is ignored) and returns -1 when the text does not match.
 */
module Uptime {
  import opened Decimal

  datatype UptimeFields = UptimeFields(days: nat, hours: nat, minutes: nat, seconds: nat)

  function TotalSeconds(u: UptimeFields): nat {
    u.seconds + 60 * u.minutes + 3600 * u.hours + 86400 * u.days
  }

  /** The regular expression matches `s`, with its day group `s[..k]`. */
  predicate MatchesAt(s: string, k: int) {
    1 <= k && k + 9 <= |s| && AllDigits(s[..k]) && s[k] == 'T'
    && IsDigit(s[k + 1]) && IsDigit(s[k + 2]) && s[k + 3] == ':'
    && IsDigit(s[k + 4]) && IsDigit(s[k + 5]) && s[k + 6] == ':'
    && IsDigit(s[k + 7]) && IsDigit(s[k + 8])
  }

  ghost predicate Matches(s: string) {
    exists k :: MatchesAt(s, k)
  }

  /** The four groups of the match whose day group is `s[..k]`, as numbers. */
  function FieldsAt(s: string, k: int): UptimeFields
    requires MatchesAt(s, k)
  {
    UptimeFields(DigitsValue(s[..k]), DigitsValue(s[k + 1..k + 3]),
                 DigitsValue(s[k + 4..k + 6]), DigitsValue(s[k + 7..k + 9]))
  }

  lemma MatchIsGreedy(s: string, k: int)
    requires MatchesAt(s, k)
    ensures k == LeadingDigits(s)
  {
    DigitRunEndsAtLeading(s, k);
  }

  /**
   * Seconds since boot, or -1 when the text is not an uptime. A result is
   * non-negative exactly when the text matches, and then it is the total of
   * the matched groups.
   */
  function UptimeToSec(s: string): (r: int)
    ensures r >= 0 <==> Matches(s)
    ensures r < 0 ==> r == -1
    ensures forall k :: MatchesAt(s, k) ==> r == TotalSeconds(FieldsAt(s, k))
  {
    var k := LeadingDigits(s);
    if MatchesAt(s, k) then TotalSeconds(FieldsAt(s, k))
    else
      assert forall j :: MatchesAt(s, j) ==> j == k by {
        forall j | MatchesAt(s, j) { MatchIsGreedy(s, j); }
      }
      -1
  }

  /** Tasmota's own spelling of an uptime. */
  function FormatUptime(u: UptimeFields): string
    requires u.hours < 100 && u.minutes < 100 && u.seconds < 100
  {
    NatToDigits(u.days) + "T" + TwoDigits(u.hours) + ":" + TwoDigits(u.minutes)
    + ":" + TwoDigits(u.seconds)
  }

  /** Parsing what Tasmota prints gives back its seconds, whatever follows it. */
  lemma {:induction false} UptimeRoundTrip(u: UptimeFields, rest: string)
    requires u.hours < 100 && u.minutes < 100 && u.seconds < 100
    ensures UptimeToSec(FormatUptime(u) + rest) == TotalSeconds(u)
  {
    var d := NatToDigits(u.days);
    var h, m, c := TwoDigits(u.hours), TwoDigits(u.minutes), TwoDigits(u.seconds);
    var s := FormatUptime(u) + rest;
    var k := |d|;
    assert s == d + ("T" + h + ":" + m + ":" + c + rest);
    assert s[..k] == d;
    assert s[k + 1..k + 3] == h;
    assert s[k + 4..k + 6] == m;
    assert s[k + 7..k + 9] == c;
    assert MatchesAt(s, k);
    DigitsRoundTrip(u.days);
    assert FieldsAt(s, k) == u;
  }

  /** The sample from the sensor's header comment: "0T00:00:23" is 23 seconds. */
  lemma UptimeSample()
    ensures UptimeToSec("0T00:00:23") == 23
  {
    var s := "0T00:00:23";
    assert s[..1] == NatToDigits(0);
    assert s[2..4] == TwoDigits(0);
    assert s[5..7] == TwoDigits(0);
    assert s[8..10] == TwoDigits(23);
    assert MatchesAt(s, 1);
    DigitsRoundTrip(0);
    assert FieldsAt(s, 1) == UptimeFields(0, 0, 0, 23);
  }

  /** A clock time without the day field is not an uptime. */
  lemma NoDayFieldRejected()
    ensures UptimeToSec("00:00:23 uptime") == -1
  {
  }
}
