/** Wall-clock times of day as the app stores them: zero-padded "HH:mm"
    strings. Arithmetic is done in minutes since midnight, as App.tsx and
    components/Schedule.tsx do after `split(':').map(Number)`. */
module Clock {
  import opened Text

  const MinutesPerDay: nat := 1440

  /** A well-formed "HH:mm" value, as an `<input type="time">` produces. */
  predicate IsHHmm(s: string) {
    && |s| == 5
    && IsDigit(s[0]) && IsDigit(s[1]) && s[2] == ':' && IsDigit(s[3]) && IsDigit(s[4])
    && DigitValue(s[0]) * 10 + DigitValue(s[1]) <= 23
    && DigitValue(s[3]) * 10 + DigitValue(s[4]) <= 59
  }

  /** `const [h, m] = s.split(':').map(Number)`, then `h * 60 + m`. */
  function Minutes(s: string): (t: nat)
    requires IsHHmm(s)
    ensures t < MinutesPerDay
  {
    (DigitValue(s[0]) * 10 + DigitValue(s[1])) * 60 + DigitValue(s[3]) * 10 + DigitValue(s[4])
  }

  /** `${String(h).padStart(2, '0')}:${String(m).padStart(2, '0')}` */
  function FormatHHmm(h: nat, m: nat): string {
    Pad2(h) + ":" + Pad2(m)
  }

  lemma FormatHHmmIsHHmm(h: nat, m: nat)
    requires h < 24 && m < 60
    ensures IsHHmm(FormatHHmm(h, m))
    ensures Minutes(FormatHHmm(h, m)) == h * 60 + m
  {
    Pad2Small(h);
    Pad2Small(m);
    var s := FormatHHmm(h, m);
    assert s == [DigitChar(h / 10), DigitChar(h % 10), ':', DigitChar(m / 10), DigitChar(m % 10)];
  }

  /** The "HH:mm" spelling of minute `t` of the day. */
  function FromMinutes(t: nat): (s: string)
    requires t < MinutesPerDay
    ensures IsHHmm(s) && Minutes(s) == t
  {
    FormatHHmmIsHHmm(t / 60, t % 60);
    FormatHHmm(t / 60, t % 60)
  }

  /** Parsing then re-encoding a well-formed time gives the same string back,
      so "HH:mm" values and minutes of the day are in one-to-one correspondence. */
  lemma FromMinutesOfMinutes(s: string)
    requires IsHHmm(s)
    ensures FromMinutes(Minutes(s)) == s
  {
    var h := DigitValue(s[0]) * 10 + DigitValue(s[1]);
    var m := DigitValue(s[3]) * 10 + DigitValue(s[4]);
    var t := Minutes(s);
    FromMinutesSplit(t, h, m);
    FormatHHmmOfDigits(s[0], s[1], s[3], s[4]);
    assert s == [s[0], s[1], ':', s[3], s[4]];
  }

  lemma FormatHHmmOfDigits(a: char, b: char, c: char, d: char)
    requires IsDigit(a) && IsDigit(b) && IsDigit(c) && IsDigit(d)
    ensures FormatHHmm(DigitValue(a) * 10 + DigitValue(b), DigitValue(c) * 10 + DigitValue(d)) == [a, b, ':', c, d]
  {
    Pad2OfTwoDigits(a, b);
    Pad2OfTwoDigits(c, d);
  }

  lemma FromMinutesSplit(t: nat, h: nat, m: nat)
    requires h < 24 && m < 60 && t == h * 60 + m
    ensures t < MinutesPerDay && FromMinutes(t) == FormatHHmm(h, m)
  {
    assert t / 60 == h && t % 60 == m;
    assert FromMinutes(t) == FormatHHmm(t / 60, t % 60);
  }

  lemma MinutesInjective(a: string, b: string)
    requires IsHHmm(a) && IsHHmm(b) && Minutes(a) == Minutes(b)
    ensures a == b
  {
    FromMinutesOfMinutes(a);
    FromMinutesOfMinutes(b);
  }

  lemma DayWrap(total: nat)
    ensures total / 60 % 24 * 60 + total % 60 == total % MinutesPerDay
  {
    var q, r := total / MinutesPerDay, total % MinutesPerDay;
    assert total == 60 * (24 * q + r / 60) + r % 60;
    assert total / 60 == 24 * q + r / 60;
    assert total / 60 % 24 == r / 60;
  }

  /** The clock time `duration` minutes after `time`, computed as both the
      reschedule loop and the end-time display do: `total = h * 60 + m + duration`,
      hours `Math.floor(total / 60) % 24`, minutes `total % 60`. The sum is
      required to be non-negative, where JavaScript's `%` and Dafny's agree. */
  function ClockAfter(time: string, duration: int): (r: string)
    requires IsHHmm(time) && Minutes(time) + duration >= 0
    ensures IsHHmm(r)
    ensures Minutes(r) == (Minutes(time) + duration) % MinutesPerDay
  {
    var total: nat := Minutes(time) + duration;
    ClockAfterFacts(total);
    FormatHHmm(total / 60 % 24, total % 60)
  }

  lemma ClockAfterFacts(total: nat)
    ensures IsHHmm(FormatHHmm(total / 60 % 24, total % 60))
    ensures Minutes(FormatHHmm(total / 60 % 24, total % 60)) == total % MinutesPerDay
  {
    var h, m := total / 60 % 24, total % 60;
    FormatHHmmIsHHmm(h, m);
    DayWrap(total);
  }

  lemma {:induction false} StrLeStep(a: string, b: string)
    requires a != [] && b != []
    ensures StrLe(a, b) <==> a[0] < b[0] || (a[0] == b[0] && StrLe(a[1..], b[1..]))
  {
  }

  /** On well-formed times the string order the timeline is sorted by is
      exactly the order of the times of day. */
  lemma HHmmOrder(a: string, b: string)
    requires IsHHmm(a) && IsHHmm(b)
    ensures StrLe(a, b) <==> Minutes(a) <= Minutes(b)
  {
    StrLeStep(a, b);
    StrLeStep(a[1..], b[1..]);
    StrLeStep(a[2..], b[2..]);
    StrLeStep(a[3..], b[3..]);
    StrLeStep(a[4..], b[4..]);
    assert a[1..][1..] == a[2..] && b[1..][1..] == b[2..];
    assert a[2..][1..] == a[3..] && b[2..][1..] == b[3..];
    assert a[3..][1..] == a[4..] && b[3..][1..] == b[4..];
    assert a[4..][1..] == [] && StrLe([], b[4..][1..]);
  }
}
