/**
 * The pure policy of the death ban: how long a ban lasts, how much of it
 * remains, when an entry counts as expired, and how a duration is shown
 * to the player.
 */
module BanPolicy {
  import opened JavaInt
  import opened Decimal

  /** The `Config` record: duration parts as Java `int`s and the operator exemption switch. */
  datatype Config = Config(banDurationHours: Int32, banDurationMinutes: Int32, excludeOps: bool)

  /** The configuration used when the configuration file cannot be read. */
  const DEFAULT_CONFIG: Config := Config(24, 0, true)

  /**
   * `Config.getTotalBanMillis`: `(hours * 3600L + minutes * 60L) * 1000L`,
   * every step a Java `long` operation. For `int` inputs none of them wraps.
   */
  function TotalBanMillis(config: Config): (total: Int64)
    ensures total == config.banDurationHours * 3_600_000 + config.banDurationMinutes * 60_000
    ensures config.banDurationHours >= 0 && config.banDurationMinutes >= 0 ==> total >= 0
  {
    var hourSeconds := Wrap64(config.banDurationHours * 3600);
    var minuteSeconds := Wrap64(config.banDurationMinutes * 60);
    Wrap64(Wrap64(hourSeconds + minuteSeconds) * 1000)
  }

  /**
   * The time left on a ban that started at `bannedAt`, as the join check
   * computes it: `(bannedAt + total) - now` in `long` arithmetic.
   */
  function Remaining(bannedAt: Int64, total: Int64, now: Int64): (r: Int64)
    ensures InLong(bannedAt + total) && InLong(bannedAt + total - now) ==> r == bannedAt + total - now
  {
    Wrap64(Wrap64(bannedAt + total) - now)
  }

  /** The sweep's removal condition: `bannedAt + total <= now` in `long` arithmetic. */
  predicate SweepExpired(bannedAt: Int64, total: Int64, now: Int64) {
    Wrap64(bannedAt + total) <= now
  }

  /**
   * `formatTime`: whole hours and the minutes past them when at least an hour
   * is left, else whole minutes when at least a minute is left, else the
   * seconds. Divisions truncate toward zero, as in Java.
   */
  function FormatTime(millis: Int64): (r: string)
    ensures millis >= 3_600_000 ==>
      r == IntToString(millis / 3_600_000) + " hours " + IntToString(millis / 60_000 % 60) + " minutes"
    ensures 60_000 <= millis < 3_600_000 ==>
      r == IntToString(millis / 60_000) + " minutes"
    ensures 0 <= millis < 60_000 ==>
      r == IntToString(millis / 1000) + " seconds"
    ensures millis < 0 ==>
      r == IntToString(-((-(millis as int)) / 1000 % 60)) + " seconds"
  {
    var seconds := JavaDiv(millis, 1000);
    var minutes := JavaDiv(seconds, 60);
    var hours := JavaDiv(minutes, 60);
    var minutesPastHour := JavaRem(minutes, 60);
    FormatTimeUnits(millis);
    if hours > 0 then
      IntToString(hours) + " hours " + IntToString(minutesPastHour) + " minutes"
    else if minutesPastHour > 0 then
      IntToString(minutesPastHour) + " minutes"
    else
      IntToString(JavaRem(seconds, 60)) + " seconds"
  }

  /** The chained truncating divisions of `formatTime` in terms of `millis` alone. */
  lemma FormatTimeUnits(millis: int)
    ensures millis >= 0 ==> JavaDiv(millis, 1000) == millis / 1000
    ensures millis >= 0 ==> JavaDiv(JavaDiv(millis, 1000), 60) == millis / 60_000
    ensures millis >= 0 ==> JavaDiv(JavaDiv(JavaDiv(millis, 1000), 60), 60) == millis / 3_600_000
    ensures millis < 0 ==> JavaDiv(JavaDiv(JavaDiv(millis, 1000), 60), 60) <= 0
    ensures millis < 0 ==> JavaRem(JavaDiv(JavaDiv(millis, 1000), 60), 60) <= 0
    ensures millis < 0 ==> JavaRem(JavaDiv(millis, 1000), 60) == -((-millis) / 1000 % 60)
  {
    if millis >= 0 {
      var s := millis / 1000;
      var m := s / 60;
      assert m == millis / 60_000 by {
        MillisUnitDivisions(millis, 1000, 60);
      }
      assert m / 60 == millis / 3_600_000 by {
        MillisUnitDivisions(millis, 60_000, 60);
      }
    }
  }

  /**
   * Milliseconds to minutes and to hours in two steps: dividing by 1000 or
   * 60 000 and then by 60 is dividing by 60 000 or 3 600 000.
   */
  lemma MillisUnitDivisions(a: nat, b: nat, c: nat)
    requires b == 1000 || b == 60_000
    requires c == 60
    ensures a / b / c == a / (b * c)
  {
    var q := a / b;
    var r := a % b;
    var q2 := q / c;
    var r2 := q % c;
    assert a == b * q + r;
    assert q == c * q2 + r2;
    assert a == (b * c) * q2 + (b * r2 + r);
    assert 0 <= b * r2 + r < b * c;
  }

  /**
   * Without wrap-around, a ban has time remaining exactly until `now`
   * reaches `bannedAt + total`, and the sweep treats it as expired from then on.
   */
  lemma ExpiryThreshold(bannedAt: Int64, total: Int64, now: Int64)
    requires InLong(bannedAt + total) && InLong(bannedAt + total - now)
    ensures Remaining(bannedAt, total, now) > 0 <==> now < bannedAt + total
    ensures SweepExpired(bannedAt, total, now) <==> now >= bannedAt + total
  {
  }

  /**
   * The join check's "no time remaining" and the sweep's removal condition
   * agree whenever the subtraction `(bannedAt + total) - now` does not wrap.
   */
  lemma ExpiryAgreement(bannedAt: Int64, total: Int64, now: Int64)
    requires InLong(Wrap64(bannedAt + total) - now)
    ensures Remaining(bannedAt, total, now) <= 0 <==> SweepExpired(bannedAt, total, now)
  {
  }

  /** Both conditions agree for any non-negative timestamps within 2^62 ms. */
  lemma ExpiryAgreementForClockValues(bannedAt: Int64, total: Int64, now: Int64)
    requires 0 <= bannedAt < 0x4000_0000_0000_0000 && 0 <= total < 0x4000_0000_0000_0000
    requires 0 <= now
    ensures Remaining(bannedAt, total, now) <= 0 <==> SweepExpired(bannedAt, total, now)
  {
    ExpiryAgreement(bannedAt, total, now);
  }

  /**
   * Whenever the subtraction `(bannedAt + total) - now` wraps, the two
   * conditions disagree: exactly one of them considers the ban over.
   */
  lemma ExpiryDisagreement(bannedAt: Int64, total: Int64, now: Int64)
    requires !InLong(Wrap64(bannedAt + total) - now)
    ensures Remaining(bannedAt, total, now) <= 0 <==> !SweepExpired(bannedAt, total, now)
  {
  }

  /**
   * An instance with the default one-day duration: a ban whose stored start
   * is `Long.MIN_VALUE` is expired for the sweep at any time from
   * 86 400 001 ms on, yet the join check still finds time remaining.
   */
  lemma ExpiryDisagreesOnWrap(now: Int64)
    requires now >= 86_400_001
    ensures SweepExpired(LONG_MIN, 86_400_000, now)
    ensures Remaining(LONG_MIN, 86_400_000, now) == LONG_MAX + 1 + 86_400_000 - now
    ensures Remaining(LONG_MIN, 86_400_000, now) > 0
  {
  }

  /** Zero milliseconds shows as zero seconds. */
  lemma FormatTimeZero()
    ensures FormatTime(0) == "0 seconds"
  {
    assert IntToString(0) == [DigitChar(0)];
  }

  /** Ninety seconds shows as one minute: the minutes bucket drops the seconds. */
  lemma FormatTimeNinetySeconds()
    ensures FormatTime(90_000) == "1 minutes"
  {
    assert 90_000 / 60_000 == 1;
    assert IntToString(1) == [DigitChar(1)];
  }

  /** One second short of a day shows as 23 hours 59 minutes. */
  lemma FormatTimeAlmostADay()
    ensures FormatTime(86_399_000) == "23 hours 59 minutes"
  {
    assert 86_399_000 / 3_600_000 == 23;
    assert 86_399_000 / 60_000 % 60 == 59;
    var hours := IntToString(23);
    var minutes := IntToString(59);
    assert hours == "23" by {
      assert NatToString(23) == NatToString(2) + [DigitChar(3)];
    }
    assert minutes == "59" by {
      assert NatToString(59) == NatToString(5) + [DigitChar(9)];
    }
    assert FormatTime(86_399_000) == hours + " hours " + minutes + " minutes";
  }
}
