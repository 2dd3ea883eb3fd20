/** `TimeRenderer`: a duration in milliseconds (and optional microseconds)
  written the way the shell reports how long a command took.
 */
module TimeRenderer {
  import opened Strings

  const SecondMillis := 1000
  const MinuteMillis := 60 * SecondMillis
  const HourMillis := 60 * MinuteMillis

  /** C#'s integer division, which truncates toward zero. */
  function Quot(a: int, b: int): (r: int)
    requires b != 0
  {
    if a >= 0 then (if b > 0 then a / b else -(a / -b))
    else (if b > 0 then -(-a / b) else -a / -b)
  }

  /** The quotient truncated toward zero is the one whose remainder has the
      dividend's sign and is smaller than the divisor. */
  lemma QuotUnique(a: int, b: int, q: int, rem: int)
    requires b != 0 && a == q * b + rem
    requires -b < rem < b || b < rem < -b
    requires (a >= 0 ==> rem >= 0) && (a <= 0 ==> rem <= 0)
    ensures Quot(a, b) == q
  {
    var n := if a >= 0 then a else -a;
    var m := if b > 0 then b else -b;
    var q0 := if (a >= 0) == (b > 0) then q else -q;
    var r0 := if a >= 0 then rem else -rem;
    assert n == q0 * m + r0 && 0 <= r0 < m;
    EuclidUnique(n, m, q0, r0);
  }

  lemma EuclidUnique(n: nat, m: nat, q: int, rem: int)
    requires m > 0 && n == q * m + rem && 0 <= rem < m
    ensures n / m == q
  {
    var q1 := n / m;
    var r1 := n % m;
    assert n == q1 * m + r1;
    if q1 > q {
      assert (q1 - q) * m == rem - r1;
      MulAtLeast(q1 - q, m);
    } else if q1 < q {
      assert (q - q1) * m == r1 - rem;
      MulAtLeast(q - q1, m);
    }
  }

  lemma {:induction false} MulAtLeast(k: nat, m: nat)
    requires k >= 1
    ensures k * m >= m
    decreases k
  {
    if k > 1 {
      MulAtLeast(k - 1, m);
      assert k * m == (k - 1) * m + m;
    }
  }

  /** `"0"` written in front when `pad` holds. */
  function ZeroIf(pad: bool): string {
    if pad then "0" else ""
  }

  /** The hours field: present only above a full hour, and then the
      decimal number of whole hours followed by "h ". */
  function HoursField(ms: int): (r: string)
    ensures r == "" <==> ms <= HourMillis
    ensures r != "" ==>
      && |r| >= 3 && r[|r| - 2..] == "h "
      && (forall i :: 0 <= i < |r| - 2 ==> IsDigit(r[i]))
      && DigitsValue(r[..|r| - 2]) == ms / HourMillis
  {
    if ms > HourMillis then
      var hours := NatToString(ms / HourMillis);
      NatToStringValue(ms / HourMillis);
      assert (hours + "h ")[..|hours|] == hours;
      hours + "h "
    else ""
  }

  /** A count written with a leading zero below ten, as minutes and
      seconds are after a larger field. */
  function Two(n: nat, pad: bool): (r: string)
    ensures forall i :: 0 <= i < |r| ==> IsDigit(r[i])
  {
    ZeroIf(pad && n < 10) + NatToString(n)
  }

  /** Milliseconds after the decimal point: always three digits. */
  function Millis(n: nat): (r: string)
    ensures forall i :: 0 <= i < |r| ==> IsDigit(r[i])
  {
    ZeroIf(n < 100) + ZeroIf(n < 10) + NatToString(n)
  }

  /** The minutes field: present after hours or above a full minute. */
  function MinutesField(rest: int, hourPrinted: bool): (r: string)
    requires hourPrinted ==> rest >= 0
  {
    if hourPrinted || rest > MinuteMillis then Two(rest / MinuteMillis, hourPrinted) + "m " else ""
  }

  /** The seconds field with its milliseconds after minutes or from a full
      second on; a bare millisecond count below that. */
  function SecondsField(rest: int, minutePrinted: bool): (r: string)
    requires minutePrinted ==> rest >= 0
  {
    if minutePrinted || rest >= SecondMillis then Two(rest / SecondMillis, minutePrinted) + "." + Millis(rest % SecondMillis)
    else if rest > 0 then NatToString(rest)
    else ""
  }

  /** The microseconds, or the "0 " written when nothing is left over. */
  function MicrosField(total: int, left: int, usec: int): (r: string)
  {
    if usec > 0 then (if total > 0 then "." + ZeroIf(usec < 100) + ZeroIf(usec < 10) else "") + NatToString(usec)
    else if left == 0 then "0 "
    else ""
  }

  /** `PrintTime(execTimeInMs, usec)`: each field is cut off the remaining
      milliseconds in turn. */
  function PrintTime(ms: int, usec: int): (r: string)
    ensures ms == 0 && usec <= 0 ==> r == "0 sec"
  {
    var hourPrinted := ms > HourMillis;
    var afterHours := if hourPrinted then ms % HourMillis else ms;
    var minutePrinted := hourPrinted || afterHours > MinuteMillis;
    var afterMinutes := if minutePrinted then afterHours % MinuteMillis else afterHours;
    var secondsShown := minutePrinted || afterMinutes >= SecondMillis;
    var left := if secondsShown then afterMinutes % SecondMillis else afterMinutes;
    HoursField(ms) + MinutesField(afterHours, hourPrinted) + SecondsField(afterMinutes, minutePrinted)
    + MicrosField(ms, left, usec) + Suffix(ms, usec)
  }

  /** The unit written last. */
  function Suffix(total: int, usec: int): (r: string)
    ensures |r| <= 3
  {
    if total > MinuteMillis then "s"
    else if total >= SecondMillis then " "
    else if total > 0 then " m"
    else if total == 0 && usec > 0 then " µ"
    else "sec"
  }

  /** `RenderTime(execTimeInMs)`: below a second the count of milliseconds
      is written with " m". */
  function RenderTime(ms: int): (r: string)
    ensures 0 < ms < SecondMillis ==> r == NatToString(ms) + " m"
  {
    assert 0 < ms < SecondMillis ==> HoursField(ms) == "";
    PrintTime(ms, 0)
  }

  /** `PrintFraction`: the time per item, to the microsecond, or " -- " when
      there are no items. */
  function PrintFraction(execTime: int, number: int): (r: string)
    ensures number == 0 ==> r == " -- "
    ensures number != 0 ==>
      var perItem := Quot(execTime * 1000, number);
      var milli := Quot(execTime, number);
      r == PrintTime(milli, perItem - milli * 1000)
  {
    if number == 0 then " -- "
    else
      var milli := Quot(execTime, number);
      var micro := Quot((execTime - number * milli) * 1000, number);
      FractionIsThousandths(execTime, number);
      PrintTime(milli, micro)
  }

  /** The two fields `PrintFraction` hands on are the time per item in
      thousandths of a millisecond, truncated as C# truncates:
      milliseconds times a thousand plus microseconds is exactly the
      truncated quotient of the time in microseconds by the count. */
  lemma FractionIsThousandths(execTime: int, number: int)
    requires number != 0
    ensures var milli := Quot(execTime, number);
      var micro := Quot((execTime - number * milli) * 1000, number);
      milli * 1000 + micro == Quot(execTime * 1000, number)
  {
    var milli := Quot(execTime, number);
    var rem := execTime - number * milli;
    QuotRemainder(execTime, number);
    var micro := Quot(rem * 1000, number);
    QuotRemainder(rem * 1000, number);
    var rem2 := rem * 1000 - number * micro;
    assert execTime * 1000 == (milli * 1000 + micro) * number + rem2;
    assert (execTime >= 0 ==> rem2 >= 0) && (execTime <= 0 ==> rem2 <= 0);
    QuotUnique(execTime * 1000, number, milli * 1000 + micro, rem2);
  }

  /** What is left over by the truncated quotient is smaller than the
      divisor and has the dividend's sign. */
  lemma QuotRemainder(a: int, b: int)
    requires b != 0
    ensures var rem := a - b * Quot(a, b);
      (-b < rem < b || b < rem < -b) && (a >= 0 ==> rem >= 0) && (a <= 0 ==> rem <= 0)
  {
    var n := if a >= 0 then a else -a;
    var m := if b > 0 then b else -b;
    var k := n / m;
    EuclidRemainder(n, m);
    var rem := a - b * Quot(a, b);
    if a >= 0 && b > 0 {
      assert rem == n - m * k;
    } else if a >= 0 {
      MulNeg(m, -k);
      assert rem == n - m * k;
    } else if b > 0 {
      MulNeg(m, k);
      assert rem == -(n - m * k);
    } else {
      MulNeg(m, k);
      assert rem == -(n - m * k);
    }
  }

  lemma MulNeg(x: int, y: int)
    ensures (-x) * y == -(x * y) && x * (-y) == -(x * y)
  {
  }

  lemma EuclidRemainder(n: nat, m: nat)
    requires m > 0
    ensures 0 <= n - m * (n / m) < m
  {
    assert n == (n / m) * m + n % m;
  }

  /** A whole number of seconds under a minute shows "0 " after the
      milliseconds: two seconds render as "2.0000  ". */
  lemma TwoSeconds()
    ensures RenderTime(2000) == "2.0000  "
  {
    assert NatToString(2) == "2" && NatToString(0) == "0";
  }

  /** The digits of `NatToString(n)`, `n` below `10^w`, padded on the left
      with zeros to `w` places, read back as `n`. */
  lemma PaddedValue(n: nat, pad: string)
    requires forall i :: 0 <= i < |pad| ==> pad[i] == '0'
    ensures forall i :: 0 <= i < |pad + NatToString(n)| ==> IsDigit((pad + NatToString(n))[i])
    ensures DigitsValue(pad + NatToString(n)) == n
  {
    DigitsAfterZeros(pad, NatToString(n));
    NatToStringValue(n);
  }

  lemma {:induction false} DigitsAfterZeros(pad: string, s: string)
    requires forall i :: 0 <= i < |pad| ==> pad[i] == '0'
    requires forall i :: 0 <= i < |s| ==> IsDigit(s[i])
    ensures forall i :: 0 <= i < |pad + s| ==> IsDigit((pad + s)[i])
    ensures DigitsValue(pad + s) == DigitsValue(s)
    decreases |s|
  {
    var t := pad + s;
    if |s| == 0 {
      assert t == pad;
      ZerosValue(pad);
    } else {
      assert t[..|t| - 1] == pad + s[..|s| - 1];
      DigitsAfterZeros(pad, s[..|s| - 1]);
    }
  }

  lemma {:induction false} ZerosValue(pad: string)
    requires forall i :: 0 <= i < |pad| ==> pad[i] == '0'
    ensures DigitsValue(pad) == 0
    decreases |pad|
  {
    if |pad| > 0 {
      ZerosValue(pad[..|pad| - 1]);
    }
  }

  /** The decimal text of `n` has exactly `k` digits for `10^(k-1) <= n`
      below `10^k`, for the widths the renderer pads to. */
  lemma NatToStringLength(n: nat)
    ensures n < 10 ==> |NatToString(n)| == 1
    ensures 10 <= n < 100 ==> |NatToString(n)| == 2
    ensures 100 <= n < 1000 ==> |NatToString(n)| == 3
  {
  }

  /** A padded field reads back as its count, with the width the renderer
      promises. */
  lemma TwoValue(n: nat, pad: bool)
    ensures forall i :: 0 <= i < |Two(n, pad)| ==> IsDigit(Two(n, pad)[i])
    ensures DigitsValue(Two(n, pad)) == n
    ensures pad && n < 100 ==> |Two(n, pad)| == 2
  {
    PaddedValue(n, ZeroIf(pad && n < 10));
    NatToStringLength(n);
  }

  lemma MillisValue(n: nat)
    requires n < 1000
    ensures forall i :: 0 <= i < |Millis(n)| ==> IsDigit(Millis(n)[i])
    ensures DigitsValue(Millis(n)) == n && |Millis(n)| == 3
  {
    PaddedValue(n, ZeroIf(n < 100) + ZeroIf(n < 10));
    NatToStringLength(n);
  }

  /** From a second up to a minute: seconds, a point, three millisecond
      digits and the unit " ". */
  lemma SecondsShape(ms: int)
    requires SecondMillis <= ms <= MinuteMillis
    ensures RenderTime(ms) == (Two(ms / SecondMillis, false) + "." + Millis(ms % SecondMillis))
      + (if ms % SecondMillis == 0 then "0 " else "") + " "
  {
    assert HoursField(ms) == "" && MinutesField(ms, false) == "";
    assert HoursField(ms) + MinutesField(ms, false) + SecondsField(ms, false) == SecondsField(ms, false);
  }

  /** Under a minute, at or above a second: the seconds and the three
      millisecond digits read back as the duration, and the unit is " ". */
  lemma SecondsReadBack(ms: int) returns (secs: string, millis: string)
    requires SecondMillis <= ms <= MinuteMillis
    ensures forall i :: 0 <= i < |secs| ==> IsDigit(secs[i])
    ensures forall i :: 0 <= i < |millis| ==> IsDigit(millis[i])
    ensures |millis| == 3
    ensures DigitsValue(secs) * SecondMillis + DigitsValue(millis) == ms
    ensures RenderTime(ms) == (secs + "." + millis) + (if ms % SecondMillis == 0 then "0 " else "") + " "
  {
    secs := Two(ms / SecondMillis, false);
    millis := Millis(ms % SecondMillis);
    SecondsShape(ms);
    TwoValue(ms / SecondMillis, false);
    MillisValue(ms % SecondMillis);
  }

  /** Above an hour: every field is written, minutes and seconds padded. */
  lemma HoursShape(ms: int)
    requires ms > HourMillis
    ensures RenderTime(ms) == (NatToString(ms / HourMillis) + "h ") + (Two(ms % HourMillis / MinuteMillis, true) + "m ")
      + (Two(ms % HourMillis % MinuteMillis / SecondMillis, true) + "." + Millis(ms % SecondMillis))
      + (if ms % SecondMillis == 0 then "0 " else "") + "s"
  {
    var afterHours := ms % HourMillis;
    var afterMinutes := afterHours % MinuteMillis;
    ModNest(ms);
    assert MinutesField(afterHours, true) == Two(afterHours / MinuteMillis, true) + "m ";
    assert SecondsField(afterMinutes, true) == Two(afterMinutes / SecondMillis, true) + "." + Millis(ms % SecondMillis);
    assert MicrosField(ms, afterMinutes % SecondMillis, 0) == (if ms % SecondMillis == 0 then "0 " else "");
    assert Suffix(ms, 0) == "s";
  }

  /** Above an hour: hours, then two-digit minutes and seconds, then three
      millisecond digits, all reading back as the duration, and the unit
      "s". */
  lemma HoursReadBack(ms: int) returns (h: string, m: string, s: string, millis: string)
    requires ms > HourMillis
    ensures |m| == 2 && |s| == 2 && |millis| == 3
    ensures forall i :: 0 <= i < |h| ==> IsDigit(h[i])
    ensures forall i :: 0 <= i < |m| ==> IsDigit(m[i])
    ensures forall i :: 0 <= i < |s| ==> IsDigit(s[i])
    ensures forall i :: 0 <= i < |millis| ==> IsDigit(millis[i])
    ensures DigitsValue(h) * HourMillis + DigitsValue(m) * MinuteMillis + DigitsValue(s) * SecondMillis + DigitsValue(millis) == ms
    ensures RenderTime(ms) == (h + "h ") + (m + "m ") + (s + "." + millis) + (if ms % SecondMillis == 0 then "0 " else "") + "s"
  {
    h := NatToString(ms / HourMillis);
    m := Two(ms % HourMillis / MinuteMillis, true);
    s := Two(ms % HourMillis % MinuteMillis / SecondMillis, true);
    millis := Millis(ms % SecondMillis);
    NatToStringValue(ms / HourMillis);
    TwoValue(ms % HourMillis / MinuteMillis, true);
    TwoValue(ms % HourMillis % MinuteMillis / SecondMillis, true);
    MillisValue(ms % SecondMillis);
    FieldBounds(ms);
    assert DigitsValue(h) * HourMillis + DigitsValue(m) * MinuteMillis + DigitsValue(s) * SecondMillis + DigitsValue(millis) == ms by {
      HoursSum(ms, DigitsValue(h), DigitsValue(m), DigitsValue(s), DigitsValue(millis));
    }
    HoursShape(ms);
  }

  lemma FieldBounds(ms: nat)
    ensures ms % HourMillis / MinuteMillis < 60 && ms % HourMillis % MinuteMillis / SecondMillis < 60
  {
  }

  lemma HoursSum(ms: nat, h: int, m: int, s: int, l: int)
    requires h == ms / HourMillis && m == ms % HourMillis / MinuteMillis
    requires s == ms % HourMillis % MinuteMillis / SecondMillis && l == ms % SecondMillis
    ensures h * HourMillis + m * MinuteMillis + s * SecondMillis + l == ms
  {
    ModNest(ms);
  }

  lemma ModNest(ms: nat)
    ensures ms % HourMillis % MinuteMillis % SecondMillis == ms % SecondMillis
  {
  }

  /** An hours field is written exactly when the duration is above an hour. */
  lemma HoursShown(ms: int, usec: int)
    ensures 'h' in PrintTime(ms, usec) <==> ms > HourMillis
  {
    var r := PrintTime(ms, usec);
    if ms > HourMillis {
      var hf := HoursField(ms);
      PrintTimeStartsWithHours(ms, usec);
      assert r[|hf| - 2] == hf[|hf| - 2] == 'h';
    } else {
      NoHour(ms, usec);
    }
  }

  lemma PrintTimeStartsWithHours(ms: int, usec: int)
    ensures |HoursField(ms)| <= |PrintTime(ms, usec)|
    ensures PrintTime(ms, usec)[..|HoursField(ms)|] == HoursField(ms)
  {
  }

  lemma NoHour(ms: int, usec: int)
    requires ms <= HourMillis
    ensures 'h' !in PrintTime(ms, usec)
  {
    var minutePrinted := ms > MinuteMillis;
    var afterMinutes := if minutePrinted then ms % MinuteMillis else ms;
    var secondsShown := minutePrinted || afterMinutes >= SecondMillis;
    var left := if secondsShown then afterMinutes % SecondMillis else afterMinutes;
    assert HoursField(ms) == "";
    MinutesNoH(ms, false);
    SecondsNoH(afterMinutes, minutePrinted);
    MicrosNoH(ms, left, usec);
  }

  lemma MinutesNoH(rest: int, hourPrinted: bool)
    requires hourPrinted ==> rest >= 0
    ensures 'h' !in MinutesField(rest, hourPrinted)
  {
    if hourPrinted || rest > MinuteMillis {
      DigitsNoH(Two(rest / MinuteMillis, hourPrinted));
    }
  }

  lemma SecondsNoH(rest: int, minutePrinted: bool)
    requires minutePrinted ==> rest >= 0
    ensures 'h' !in SecondsField(rest, minutePrinted)
  {
    if minutePrinted || rest >= SecondMillis {
      DigitsNoH(Two(rest / SecondMillis, minutePrinted));
      DigitsNoH(Millis(rest % SecondMillis));
    } else if rest > 0 {
      DigitsNoH(NatToString(rest));
    }
  }

  lemma MicrosNoH(total: int, left: int, usec: int)
    ensures 'h' !in MicrosField(total, left, usec)
  {
    if usec > 0 {
      DigitsNoH(NatToString(usec));
    }
  }

  lemma DigitsNoH(s: string)
    requires forall i :: 0 <= i < |s| ==> IsDigit(s[i])
    ensures 'h' !in s
  {
  }
}
