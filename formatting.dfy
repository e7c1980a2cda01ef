/**
 * The two display formatters of `PicaPicaViewModel`: a clock reading
 * `"HH:MM"` and an elapsed time `"MM:SS"` or `"HH:MM:SS"`.
 */
module Formatting {
  import opened JavaTime
  import opened TextFormat

  /** `formatTime`: `"%02d:%02d".format(time.hour, time.minute)`. */
  function FormatTime(t: LocalDateTime): (r: string)
    ensures |r| == 5 && r[2] == ':' && AllDigits(r[..2]) && AllDigits(r[3..])
    ensures var hh := DecimalValue(r[..2]); var mm := DecimalValue(r[3..]);
      hh < 24 && mm < 60 && hh * 3600 + mm * 60 <= SecondOfDay(t) < hh * 3600 + mm * 60 + 60
  {
    var hh := ZeroPad2(Hour(t));
    var mm := ZeroPad2(Minute(t));
    var r := hh + ":" + mm;
    assert r[..2] == hh && r[3..] == mm;
    r
  }

  /**
   * For a non-negative duration, `toHours`, `toMinutes() % 60` and
   * `seconds % 60` are its clock fields, and they add back up to its seconds.
   */
  lemma ClockFields(d: Duration)
    requires d.seconds >= 0
    ensures var h, m, s := ToHours(d), JavaRem(ToMinutes(d), 60), JavaRem(d.seconds, 60);
      0 <= h && 0 <= m < 60 && 0 <= s < 60 && h * 3600 + m * 60 + s == d.seconds &&
      (h > 0 <==> d.seconds >= 3600)
  {
    var n := d.seconds;
    var q := n / 60;
    assert ToHours(d) == n / 3600 && ToMinutes(d) == q;
    assert n == q * 60 + n % 60;
    assert q == (q / 60) * 60 + q % 60;
    assert q / 60 == n / 3600;
  }

  /** `"%02d:%02d:%02d"` of clock fields reads back to those fields. */
  lemma ThreeFields(h: int, m: int, sec: int)
    requires h >= 1 && 0 <= m < 60 && 0 <= sec < 60
    ensures var r := ZeroPad2(h) + ":" + ZeroPad2(m) + ":" + ZeroPad2(sec); var n := |r|;
      n >= 8 && r[n - 6] == ':' && r[n - 3] == ':' && r[..n - 6] == ZeroPad2(h) &&
      AllDigits(r[..n - 6]) && AllDigits(r[n - 5..n - 3]) && AllDigits(r[n - 2..]) &&
      DecimalValue(r[..n - 6]) == h && DecimalValue(r[n - 5..n - 3]) == m && DecimalValue(r[n - 2..]) == sec
  {
    var a, b, c := ZeroPad2(h), ZeroPad2(m), ZeroPad2(sec);
    var r := a + ":" + b + ":" + c;
    var n := |r|;
    assert r[..n - 6] == a && r[n - 5..n - 3] == b && r[n - 2..] == c;
  }

  /** `"%02d:%02d"` of clock fields reads back to those fields. */
  lemma TwoFields(m: int, sec: int)
    requires 0 <= m < 60 && 0 <= sec < 60
    ensures var r := ZeroPad2(m) + ":" + ZeroPad2(sec);
      |r| == 5 && r[2] == ':' && AllDigits(r[..2]) && AllDigits(r[3..]) &&
      DecimalValue(r[..2]) == m && DecimalValue(r[3..]) == sec
  {
    var a, b := ZeroPad2(m), ZeroPad2(sec);
    var r := a + ":" + b;
    assert r[..2] == a && r[3..] == b;
  }

  /**
   * `formatDuration`: `"%02d:%02d:%02d"` of hours, minutes and seconds when
   * the duration reaches an hour, `"%02d:%02d"` of minutes and seconds
   * otherwise. For a non-negative duration the fields read back to its whole
   * seconds.
   */
  function FormatDuration(d: Duration): (r: string)
    ensures 0 <= d.seconds < 3600 ==>
      |r| == 5 && r[2] == ':' && AllDigits(r[..2]) && AllDigits(r[3..]) &&
      var mm := DecimalValue(r[..2]); var ss := DecimalValue(r[3..]);
      mm < 60 && ss < 60 && mm * 60 + ss == d.seconds
    ensures d.seconds >= 3600 ==>
      var n := |r|;
      n >= 8 && r[n - 6] == ':' && r[n - 3] == ':' &&
      AllDigits(r[..n - 6]) && AllDigits(r[n - 5..n - 3]) && AllDigits(r[n - 2..]) &&
      var hh := DecimalValue(r[..n - 6]);
      var mm := DecimalValue(r[n - 5..n - 3]);
      var ss := DecimalValue(r[n - 2..]);
      hh >= 1 && mm < 60 && ss < 60 && hh * 3600 + mm * 60 + ss == d.seconds &&
      r[..n - 6] == ZeroPad2(hh)
  {
    var hours := ToHours(d);
    var minutes := JavaRem(ToMinutes(d), 60);
    var seconds := JavaRem(d.seconds, 60);
    if hours > 0 then
      var r := ZeroPad2(hours) + ":" + ZeroPad2(minutes) + ":" + ZeroPad2(seconds);
      if d.seconds < 0 then r
      else
        ClockFields(d);
        ThreeFields(hours, minutes, seconds);
        r
    else
      var r := ZeroPad2(minutes) + ":" + ZeroPad2(seconds);
      if d.seconds < 0 then r
      else
        ClockFields(d);
        TwoFields(minutes, seconds);
        r
  }

  /** The fields of the timer text five seconds before the start. */
  lemma ClockSetBackFields()
    ensures ZeroPad2(0) + ":" + ZeroPad2(-5) == "00:-5"
  {
    assert Digits(0) == "0" && Digits(5) == "5";
    assert ZeroPad2(0) == "00" && ZeroPad2(-5) == "-5";
  }

  /**
   * A wall clock set back five seconds after the start: `%02d` of a negative
   * field prints its sign, so the timer reads "00:-5".
   */
  lemma ClockSetBackText()
    ensures FormatDuration(Duration(-5, 0)) == "00:-5"
  {
    assert ToHours(Duration(-5, 0)) == 0 && ToMinutes(Duration(-5, 0)) == 0;
    assert JavaRem(0, 60) == 0 && JavaRem(-5, 60) == -5;
    ClockSetBackFields();
    assert FormatDuration(Duration(-5, 0)) == ZeroPad2(0) + ":" + ZeroPad2(-5);
  }
}
