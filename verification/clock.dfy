/** `format_ms` of main.py: a millisecond offset rendered as a zero-padded `mm:ss` clock reading. */
module Clock {
  import opened Base
  import opened Text

  /** Python's `f"{n:02d}"` for 0 <= n < 100: the numeral, left-padded with zeros to two characters. */
  function Pad2(n: nat): (s: string)
    requires n < 100
    ensures |s| == 2 && AllDigits(s) && ValueOf(s) == n
  {
    var d := Decimal(n);
    DecimalRoundTrip(n);
    if |d| < 2 then
      var s := "0" + d;
      assert s[..1] == "0";
      s
    else
      d
  }

  /**
   * `format_ms(ms)`: an absent or zero offset reads "00:00"; any other offset reads
   * minutes `(ms div 60000) mod 60` and seconds `(ms div 1000) mod 60`. Python computes
   * both through float division and `%`, which floors; Dafny's `/` and `%` with a positive
   * divisor floor as well, so negative offsets wrap the same way.
   */
  function FormatMs(ms: Option<int>): (s: string)
    ensures |s| == 5 && s[2] == ':'
    ensures AllDigits(s[..2]) && AllDigits(s[3..])
    ensures ValueOf(s[..2]) < 60 && ValueOf(s[3..]) < 60
  {
    if ms.None? || ms.value == 0 then
      assert ValueOf("00"[..1]) == 0;
      "00:00"
    else
      var minutes := Pad2((ms.value / 60000) % 60);
      var seconds := Pad2((ms.value / 1000) % 60);
      var s := minutes + ":" + seconds;
      assert s[..2] == minutes && s[3..] == seconds;
      s
  }

  /** The second-of-the-hour an `mm:ss` reading denotes, or None when the text is not such a reading. */
  function ClockSeconds(s: string): Option<nat> {
    if |s| == 5 && s[2] == ':' && AllDigits(s[..2]) && AllDigits(s[3..]) then
      Some(ValueOf(s[..2]) * 60 + ValueOf(s[3..]))
    else
      None
  }

  /** The position within its hour, in whole seconds, that an optional millisecond offset denotes. */
  function SecondOfHour(ms: Option<int>): nat {
    match ms
    case None => 0
    case Some(v) => (v / 1000) % 3600
  }

  /** Euclidean division is determined by any decomposition with an in-range remainder. */
  lemma DivModUnique(n: int, d: int, q: int, r: int)
    requires d > 0 && n == d * q + r && 0 <= r < d
    ensures n / d == q && n % d == r
  {
    var q' := n / d;
    var r' := n % d;
    var k := q - q';
    assert d * q == d * q' + d * k;
    assert k >= 1 ==> d * (k - 1) >= 0;
    assert k <= -1 ==> d * (-k - 1) >= 0;
  }

  /** Dividing by 1000 and then by 60 is dividing by 60000. */
  lemma DivDiv(ms: int)
    ensures (ms / 1000) / 60 == ms / 60000
  {
    var q := ms / 1000;
    var a := q / 60;
    var b := q % 60;
    var c := ms % 1000;
    assert ms == 1000 * q + c;
    assert q == 60 * a + b;
    assert ms == 60000 * a + (1000 * b + c);
    DivModUnique(ms, 60000, a, 1000 * b + c);
  }

  /** Minutes-of-hour and seconds-of-minute of a whole-second count recombine to its second-of-hour. */
  lemma HourSplit(q: int)
    ensures ((q / 60) % 60) * 60 + q % 60 == q % 3600
    ensures (q / 60) % 60 == (q % 3600) / 60
    ensures q % 60 == (q % 3600) % 60
  {
    var h := q / 3600;
    var r := q % 3600;
    assert q == 3600 * h + r;
    var m := r / 60;
    var s := r % 60;
    assert r == 60 * m + s;
    assert 0 <= m < 60;
    DivModUnique(q, 60, 60 * h + m, s);
    DivModUnique(q / 60, 60, h, m);
  }

  /** "00:00" for an absent or zero offset (main.py line 133). */
  lemma FormatMsZero()
    ensures FormatMs(None) == "00:00"
    ensures FormatMs(Some(0)) == "00:00"
  {
  }

  /** Reading the rendered clock back gives the offset's second within the hour. */
  lemma FormatMsReadsBack(ms: Option<int>)
    ensures ClockSeconds(FormatMs(ms)) == Some(SecondOfHour(ms))
  {
    var s := FormatMs(ms);
    if ms.Some? && ms.value != 0 {
      var v := ms.value;
      var q := v / 1000;
      DivDiv(v);
      HourSplit(q);
      var minutes := Pad2((v / 60000) % 60);
      var seconds := Pad2((v / 1000) % 60);
      assert s[..2] == minutes && s[3..] == seconds;
    } else {
      assert ValueOf(s[..2]) == 0 && ValueOf(s[3..]) == 0 by {
        assert s[..2] == "00" && s[3..] == "00";
        assert "00"[..1] == "0";
      }
    }
  }

  /** Two offsets render alike exactly when they fall on the same second of the hour. */
  lemma FormatMsSameIff(a: Option<int>, b: Option<int>)
    ensures FormatMs(a) == FormatMs(b) <==> SecondOfHour(a) == SecondOfHour(b)
  {
    FormatMsReadsBack(a);
    FormatMsReadsBack(b);
    if SecondOfHour(a) == SecondOfHour(b) {
      FormatMsBySecond(a);
      FormatMsBySecond(b);
    }
  }

  /** The rendering depends on the offset only through its second of the hour. */
  lemma FormatMsBySecond(ms: Option<int>)
    ensures FormatMs(ms) == Pad2(SecondOfHour(ms) / 60) + ":" + Pad2(SecondOfHour(ms) % 60)
  {
    if ms.Some? && ms.value != 0 {
      DivDiv(ms.value);
      HourSplit(ms.value / 1000);
    } else {
      assert Decimal(0) == "0";
    }
  }

  /** An offset and the same offset one hour later render alike: the clock wraps every hour. */
  lemma FormatMsHourly(ms: int)
    ensures FormatMs(Some(ms + 3600000)) == FormatMs(Some(ms))
  {
    DivModUnique(ms + 3600000, 1000, ms / 1000 + 3600, ms % 1000);
    DivModUnique(ms / 1000 + 3600, 3600, ms / 1000 / 3600 + 1, (ms / 1000) % 3600);
    FormatMsSameIff(Some(ms + 3600000), Some(ms));
  }

  /** The worked value: 90 000 ms is one minute thirty. */
  lemma FormatMsNinetySeconds()
    ensures FormatMs(Some(90000)) == "01:30"
  {
    assert (90000 / 60000) % 60 == 1 && (90000 / 1000) % 60 == 30;
    assert Pad2(1) == "01" by {
      assert Decimal(1) == "1";
    }
    assert Pad2(30) == "30" by {
      assert Decimal(3) == "3";
      assert Decimal(30) == "30";
    }
    assert FormatMs(Some(90000)) == Pad2(1) + ":" + Pad2(30);
  }

  /** A full hour wraps back to "00:00". */
  lemma FormatMsFullHour()
    ensures FormatMs(Some(3600000)) == "00:00"
  {
    FormatMsHourly(0);
  }
}
