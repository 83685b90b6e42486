/** The system clock: mixed-radix fields kept by a timer interrupt, and the one number they stand for. */
module Clock {
  import opened Arithmetic

  const TWO32 := 0x1_0000_0000
  const TWO63 := 0x8000_0000_0000_0000
  const TWO64 := 0x1_0000_0000_0000_0000
  const DAY := 86_400_000

  /** `struct system_time`. */
  datatype Time = Time(milliseconds: nat, seconds: nat, minutes: nat, hours: nat, days: nat)

  /** Every field below its radix; days are 32 bits. */
  predicate InRadix(t: Time) {
    t.milliseconds < 1000 && t.seconds < 60 && t.minutes < 60 && t.hours < 24 && t.days < TWO32
  }

  /** The fields as milliseconds. */
  function Millis(t: Time): nat {
    t.days * 24 * 60 * 60 * 1000 + t.hours * 60 * 60 * 1000 + t.minutes * 60 * 1000 + t.seconds * 1000 + t.milliseconds
  }

  /** What the clock shows after n ticks: the tick counter is 32 bits wide, and 2^32 is not a multiple
      of 1000, so that every wrap of the counter costs an early second. */
  function Shown(n: nat): nat { (n + 704 * (n / TWO32)) % (TWO32 * DAY) }

  /** The timer interrupts that come in at place i of a schedule. */
  function Gap(gaps: seq<nat>, i: nat): nat { if i < |gaps| then gaps[i] else 0 }

  class SystemClock {
    var tickCount: nat
    var time: Time
    /** Ticks since the start. */
    ghost var ticks: nat

    ghost predicate Valid()
      reads this
    {
      && tickCount == ticks % TWO32 && InRadix(time)
      && time.milliseconds == tickCount % 1000 && Millis(time) == Shown(ticks)
    }

    /** The counter starts at 0, and `init_system_clock` clears the fields. */
    constructor ()
      ensures Valid() && ticks == 0
    {
      tickCount, time, ticks := 0, Time(0, 0, 0, 0, 0), 0;
    }

    /** `system_clock_tick`. */
    method Tick()
      requires Valid()
      modifies this
      ensures Valid() && ticks == old(ticks) + 1
    {
      hide Shown, Millis;
      tickCount := (tickCount + 1) % TWO32;
      var t := time;
      if tickCount % 1000 == 0 {
        t := t.(seconds := t.seconds + 1);
        if t.seconds >= 60 {
          t := t.(seconds := 0, minutes := t.minutes + 1);
          if t.minutes >= 60 {
            t := t.(minutes := 0, hours := t.hours + 1);
            if t.hours >= 24 {
              t := t.(hours := 0, days := (t.days + 1) % TWO32);
            }
          }
        }
      }
      assert tickCount % 1000 != 0 || Carried(time, t);
      NextShown(ticks);
      MillisBelow(time);
      MillisBelow(t.(milliseconds := tickCount % 1000));
      MillisOf(time, t, tickCount % 1000);
      time := t.(milliseconds := tickCount % 1000);
      ticks := ticks + 1;
    }

    /** n timer interrupts. */
    method Interrupt(n: nat)
      requires Valid()
      modifies this
      ensures Valid() && ticks == old(ticks) + n
    {
      var i := 0;
      while i < n
        invariant i <= n && Valid() && ticks == old(ticks) + i
      {
        Tick();
        i := i + 1;
      }
    }

    /** `get_system_time`; before field i is read `gaps[p + i]` timer interrupts come in, none once the
        schedule is used up.  Field i is read at tick a[i]. */
    method GetSystemTime(gaps: seq<nat>, p: nat) returns (t: Time, ghost a: seq<nat>)
      requires Valid()
      modifies this
      ensures Valid() && |a| == 5 && old(ticks) <= a[0] <= a[1] <= a[2] <= a[3] <= a[4] == ticks
      ensures a[0] == old(ticks) + Gap(gaps, p) && forall i | 1 <= i < 5 :: a[i] == a[i - 1] + Gap(gaps, p + i)
      ensures t == Reading(a)
      ensures t.milliseconds == FieldsAt(a[0]).milliseconds && t.seconds == FieldsAt(a[1]).seconds
      ensures t.minutes == FieldsAt(a[2]).minutes && t.hours == FieldsAt(a[3]).hours && t.days == FieldsAt(a[4]).days
      ensures p >= |gaps| ==> ticks == old(ticks) && t == FieldsAt(ticks)
    {
      hide FieldsAt, Shown, Millis;
      Interrupt(Gap(gaps, p));
      FieldsUnique(time, ticks);
      var ms := time.milliseconds;
      ghost var a0 := ticks;
      Interrupt(Gap(gaps, p + 1));
      FieldsUnique(time, ticks);
      var s := time.seconds;
      ghost var a1 := ticks;
      Interrupt(Gap(gaps, p + 2));
      FieldsUnique(time, ticks);
      var m := time.minutes;
      ghost var a2 := ticks;
      Interrupt(Gap(gaps, p + 3));
      FieldsUnique(time, ticks);
      var h := time.hours;
      ghost var a3 := ticks;
      Interrupt(Gap(gaps, p + 4));
      FieldsUnique(time, ticks);
      t := Time(ms, s, m, h, time.days);
      a := [a0, a1, a2, a3, ticks];
    }

    /** `time_now_ms` under any schedule of interrupts: two successive readings that agree.  Without an
        interrupt it is the time shown. */
    method TimeNowMs(gaps: seq<nat>) returns (ms: nat, ghost a: seq<nat>, ghost b: seq<nat>)
      requires Valid()
      modifies this
      ensures Valid() && InOrder(a, b) && old(ticks) <= a[0] && b[4] == ticks
      ensures Reading(a) == Reading(b) && ms == Millis(Reading(a))
      ensures gaps == [] ==> ticks == old(ticks) && ms == Shown(ticks)
    {
      hide FieldsAt, Shown, Reading;
      var t1, t2;
      t1, a := GetSystemTime(gaps, 0);
      t2, b := GetSystemTime(gaps, 5);
      var p := 10;
      while t1 != t2
        invariant Valid() && InOrder(a, b) && old(ticks) <= a[0] && b[4] == ticks
        invariant t1 == Reading(a) && t2 == Reading(b) && p >= 10
        invariant t1 == t2 || p < |gaps| + 10
        invariant gaps == [] ==> t1 == t2 == FieldsAt(ticks) && ticks == old(ticks)
        decreases |gaps| + 10 - p
      {
        t1, a := GetSystemTime(gaps, p);
        t2, b := GetSystemTime(gaps, p + 5);
        p := p + 10;
      }
      ms := t1.days * 24 * 60 * 60 * 1000;
      ms := ms + t1.hours * 60 * 60 * 1000;
      ms := ms + t1.minutes * 60 * 1000;
      ms := ms + t1.seconds * 1000;
      ms := ms + t1.milliseconds;
    }
  }

  lemma MillisBelow(t: Time)
    requires InRadix(t)
    ensures Millis(t) < TWO32 * DAY
  {
  }

  /** Carrying a second through the fields adds 1000, or starts over after the last day. */
  lemma MillisOf(t: Time, n: Time, ms: nat)
    requires InRadix(t) && InRadix(n) && ms < 1000
    ensures n == t ==> Millis(n.(milliseconds := ms)) == Millis(t) - t.milliseconds + ms
    ensures Carried(t, n) ==>
              var m, next := Millis(t) - t.milliseconds + ms + 1000, Millis(n.(milliseconds := ms));
              next == m || next + TWO32 * DAY == m
  {
  }

  /** n is t with one second carried through the fields. */
  predicate Carried(t: Time, n: Time) {
    if t.seconds < 59 then n == t.(seconds := t.seconds + 1)
    else if t.minutes < 59 then n == t.(seconds := 0, minutes := t.minutes + 1)
    else if t.hours < 23 then n == t.(seconds := 0, minutes := 0, hours := t.hours + 1)
    else n == t.(seconds := 0, minutes := 0, hours := 0, days := (t.days + 1) % TWO32)
  }

  lemma ModAdd(a: nat, d: nat, w: nat)
    requires 0 < d < w
    ensures (a + d) % w == a % w + d || (a + d) % w + w == a % w + d
  {
    var q, r := a / w, a % w;
    assert a == q * w + r;
    if r + d < w {
      DivMod(a + d, w, q, r + d);
    } else {
      assert (q + 1) * w == q * w + w;
      DivMod(a + d, w, q + 1, r + d - w);
    }
  }

  /** How far one tick moves the shown time: 1, or 705 when the tick counter wraps. */
  function Advance(n: nat): nat { if (n + 1) % TWO32 == 0 then 705 else 1 }

  lemma NextShown(n: nat)
    ensures Shown(n + 1) == Shown(n) + Advance(n) || Shown(n + 1) + TWO32 * DAY == Shown(n) + Advance(n)
    ensures Shown(n + 1) < TWO32 * DAY
    ensures var c, d := n % TWO32, (n + 1) % TWO32;
            && d == (c + 1) % TWO32
            && d % 1000 - c % 1000 + (if d % 1000 == 0 then 1000 else 0) == Advance(n)
  {
    CounterNext(n);
    ThousandNext(n % TWO32);
    ModAdd(n + 704 * (n / TWO32), Advance(n), TWO32 * DAY);
  }

  /** The tick counter and its wraps, one tick on. */
  lemma CounterNext(n: nat)
    ensures if n % TWO32 == TWO32 - 1 then (n + 1) / TWO32 == n / TWO32 + 1 && (n + 1) % TWO32 == 0
            else (n + 1) / TWO32 == n / TWO32 && (n + 1) % TWO32 == n % TWO32 + 1
  {
    var q, r := n / TWO32, n % TWO32;
    assert n == q * TWO32 + r;
    if r == TWO32 - 1 {
      DivMod(n + 1, TWO32, q + 1, 0);
    } else {
      DivMod(n + 1, TWO32, q, r + 1);
    }
  }

  lemma ThousandNext(c: nat)
    ensures (c + 1) % 1000 == if c % 1000 == 999 then 0 else c % 1000 + 1
    ensures c == TWO32 - 1 ==> c % 1000 == 295
  {
  }

  /** Before the tick counter wraps the clock shows the number of ticks; from the wrap on it is 704 ms
      ahead for every wrap; while the day counter holds out it never runs backwards. */
  lemma ShowsTicks(n: nat)
    ensures n < TWO32 ==> Shown(n) == n
    ensures n + 704 * (n / TWO32) < TWO32 * DAY ==> Shown(n) == n + 704 * (n / TWO32)
    ensures n + 1 + 704 * ((n + 1) / TWO32) < TWO32 * DAY ==> Shown(n + 1) == Shown(n) + Advance(n)
  {
    CounterNext(n);
    var w, m, k := TWO32 * DAY, n + 704 * (n / TWO32), n + 1 + 704 * ((n + 1) / TWO32);
    assert n < TWO32 ==> n / TWO32 == 0;
    if m < w {
      DivMod(m, w, 0, m);
    }
    if k < w {
      DivMod(k, w, 0, k);
    }
  }

  // ---------------------------------------------------------------- torn readings

  /** The fields that stand for a number of milliseconds. */
  function Split(m: nat): (t: Time)
    ensures Millis(t) == m
  {
    var s, mi, h, d := m / 1000, m / 60_000, m / 3_600_000, m / DAY;
    SplitOf(m);
    Time(m % 1000, s - 60 * mi, mi - 60 * h, h - 24 * d, d)
  }

  lemma SplitOf(m: nat)
    ensures m / 1000 / 60 == m / 60_000 && m / 60_000 / 60 == m / 3_600_000 && m / 3_600_000 / 24 == m / DAY
  {
  }

  lemma SplitInRadix(m: nat)
    requires m < TWO32 * DAY
    ensures InRadix(Split(m))
  {
    SplitOf(m);
  }

  /** The fields as the clock keeps them after n ticks. */
  function FieldsAt(n: nat): (t: Time)
    ensures Millis(t) == Shown(n)
  {
    Split(Shown(n))
  }

  /** They are the only ones in radix that show this time: a valid clock holds exactly these. */
  lemma FieldsUnique(t: Time, n: nat)
    requires InRadix(t) && Millis(t) == Shown(n)
    ensures t == FieldsAt(n)
  {
    hide Shown;
    SameFields(t, Split(Shown(n)));
    SplitInRadix(Shown(n));
  }

  lemma SameFields(t: Time, u: Time)
    requires InRadix(t) && InRadix(u) && Millis(t) == Millis(u)
    ensures t == u
  {
    var a, b := t.days * 24 + t.hours, u.days * 24 + u.hours;
    var c, d := a * 60 + t.minutes, b * 60 + u.minutes;
    var e, f := c * 60 + t.seconds, d * 60 + u.seconds;
    Digit(e, t.milliseconds, f, u.milliseconds, 1000);
    Digit(c, t.seconds, d, u.seconds, 60);
    Digit(a, t.minutes, b, u.minutes, 60);
    Digit(t.days, t.hours, u.days, u.hours, 24);
  }

  lemma Digit(a: nat, x: nat, b: nat, y: nat, r: nat)
    requires x < r && y < r && a * r + x == b * r + y
    ensures a == b && x == y
  {
    assert a < b ==> (a + 1) * r <= b * r;
    assert b < a ==> (b + 1) * r <= a * r;
  }

  /** A reading of the five fields at the times a[0] <= ... <= a[4]: the timer may tick in between. */
  function Reading(a: seq<nat>): Time
    requires |a| == 5
  {
    Time(FieldsAt(a[0]).milliseconds, FieldsAt(a[1]).seconds, FieldsAt(a[2]).minutes, FieldsAt(a[3]).hours,
         FieldsAt(a[4]).days)
  }

  predicate InOrder(a: seq<nat>, b: seq<nat>) {
    |a| == 5 && |b| == 5 && a[0] <= a[1] <= a[2] <= a[3] <= a[4] <= b[0] <= b[1] <= b[2] <= b[3] <= b[4]
  }

  /** The clock showed t at some tick from lo to hi. */
  ghost predicate ShownBetween(t: Time, lo: nat, hi: nat) { exists n: nat | lo <= n <= hi :: Shown(n) == Millis(t) }

  /** Two equal readings with at most g ticks between their first fields always give a time that was
      shown from the first read to the last. */
  ghost predicate SafeGap(g: nat) {
    forall a: seq<nat>, b: seq<nat> | InOrder(a, b) && Reading(a) == Reading(b) && b[0] - a[0] <= g ::
      ShownBetween(Reading(a), a[0], b[4])
  }

  /** The double reading is to be trusted exactly up to 295 ticks between the two first fields: up to
      there no two ticks show the same millisecond, and at 296 the fifth wrap of the tick counter, which
      falls on a full minute, lets a wrong minute through. */
  lemma DoubleReadingSafe(g: nat)
    ensures SafeGap(g) <==> g < 296
  {
    if g < 296 {
      forall a: seq<nat>, b: seq<nat> | InOrder(a, b) && Reading(a) == Reading(b) && b[0] - a[0] <= g
        ensures ShownBetween(Reading(a), a[0], b[4])
      {
        EqualReadingsTrue(a, b);
      }
    } else {
      TornAtWrap();
    }
  }

  /** Two equal readings with fewer than 296 ticks between their first fields were made at one tick. */
  lemma EqualReadingsTrue(a: seq<nat>, b: seq<nat>)
    requires InOrder(a, b) && Reading(a) == Reading(b) && b[0] - a[0] < 296
    ensures a[0] == b[0] && Millis(Reading(a)) == Shown(a[0]) && ShownBetween(Reading(a), a[0], b[4])
  {
    hide FieldsAt, Shown;
    SameMillisecond(a[0], b[0]);
  }

  lemma SameMillisecond(m: nat, n: nat)
    requires m <= n < m + 296 && FieldsAt(m).milliseconds == FieldsAt(n).milliseconds
    ensures m == n
  {
    hide FieldsAt;
    MillisecondField(m);
    MillisecondField(n);
    Counter(m, n);
  }

  lemma Counter(m: nat, n: nat)
    requires m <= n < m + 296 && m % TWO32 % 1000 == n % TWO32 % 1000
    ensures m == n
  {
    var x, y, q := m % TWO32, n % TWO32, m / TWO32;
    if x + (n - m) < TWO32 {
      DivMod(n, TWO32, q, x + (n - m));
    } else {
      DivMod(n, TWO32, q + 1, x + (n - m) - TWO32);
    }
  }

  lemma MillisecondField(n: nat)
    ensures FieldsAt(n).milliseconds == n % TWO32 % 1000
  {
    var q, c := n / TWO32, n % TWO32;
    var m := n + 704 * q;
    assert m == q * 4_294_968_000 + c;
    var k := m / (TWO32 * DAY);
    DivMod(Shown(n), 1000, (q * 4_294_968 + c / 1000) - k * (TWO32 * DAY / 1000), c % 1000);
  }

  /** Ticks of the fifth wrap of the counter. */
  const WRAP5 := 21_474_836_480

  /** What the clock shows around the fifth wrap. */
  lemma AroundWrap5(n: nat)
    requires WRAP5 - 296 <= n <= WRAP5 + 60_000
    ensures Shown(n) == n + (if n < WRAP5 then 2816 else 3520)
  {
    DivMod(n, TWO32, if n < WRAP5 then 4 else 5, if n < WRAP5 then n - 4 * TWO32 else n - 5 * TWO32);
    var m := n + 704 * (n / TWO32);
    DivMod(m, TWO32 * DAY, 0, m);
  }

  /** A torn reading at the smallest possible gap: the seconds come from before the fifth wrap, the
      minutes from behind it, and the second reading finds the same seconds a minute later. */
  lemma TornAtWrap()
    ensures var w := WRAP5;
            var a, b := [w - 295, w - 295, w, w, w], [w + 1, w + 59_000, w + 59_000, w + 59_000, w + 59_000];
            InOrder(a, b) && Reading(a) == Reading(b) && b[0] - a[0] == 296 && !ShownBetween(Reading(a), a[0], b[4])
  {
    hide FieldsAt;
    var w := WRAP5;
    AroundWrap5(w - 295);
    AroundWrap5(w);
    AroundWrap5(w + 1);
    AroundWrap5(w + 59_000);
    FieldsOf(w - 295, Time(1, 59, 13, 13, 248));
    FieldsOf(w, Time(0, 0, 14, 13, 248));
    FieldsOf(w + 1, Time(1, 0, 14, 13, 248));
    FieldsOf(w + 59_000, Time(0, 59, 14, 13, 248));
    forall n: nat | w - 295 <= n <= w + 59_000 ensures Shown(n) < w + 3520 + 59_001 {
      AroundWrap5(n);
    }
  }

  /** Away from wraps it takes a second and most of a minute: 59.5 and 60.5 seconds give 119.5, before
      the clock has shown it. */
  lemma TornReading()
    ensures var a, b := [59_500, 59_500, 60_500, 60_500, 60_500], [60_500, 119_000, 119_000, 119_000, 119_000];
            && InOrder(a, b) && Reading(a) == Reading(b) && Millis(Reading(a)) == 119_500
            && !ShownBetween(Reading(a), a[0], b[4])
  {
    hide FieldsAt;
    EarlyShown(59_500);
    EarlyShown(60_500);
    EarlyShown(119_000);
    FieldsOf(59_500, Time(500, 59, 0, 0, 0));
    FieldsOf(60_500, Time(500, 0, 1, 0, 0));
    FieldsOf(119_000, Time(0, 59, 1, 0, 0));
    forall n: nat | 59_500 <= n <= 119_000 ensures Shown(n) < 119_500 {
      EarlyShown(n);
    }
  }

  lemma EarlyShown(n: nat)
    requires n < TWO32
    ensures Shown(n) == n
  {
    ShowsTicks(n);
  }

  lemma FieldsOf(n: nat, t: Time)
    requires InRadix(t) && Millis(t) == Shown(n)
    ensures FieldsAt(n) == t
  {
    FieldsUnique(t, n);
  }

  // ---------------------------------------------------------------- comparing times

  /** `time_after` on 64-bit times: the sign of the wrapped difference. */
  predicate TimeAfter(a: nat, b: nat) { (b - a) % TWO64 >= TWO63 }

  predicate TimeBefore(a: nat, b: nat) { (a - b) % TWO64 >= TWO63 }

  /** The comparison is right across a wrap of the 64-bit time, as long as the two times are less than
      2^63 apart; at exactly 2^63 each is after the other. */
  lemma AfterIsLater(x: nat, y: nat)
    requires -(TWO63 as int) < x - y < TWO63
    ensures TimeAfter(x % TWO64, y % TWO64) <==> x > y
    ensures TimeBefore(x % TWO64, y % TWO64) <==> x < y
  {
    assert x == x / TWO64 * TWO64 + x % TWO64 && y == y / TWO64 * TWO64 + y % TWO64;
  }

  /** Of two 64-bit times one is after the other if it is larger by up to 2^63, or smaller by 2^63 or more. */
  lemma AfterExactly(a: nat, b: nat)
    requires a < 0x1_0000_0000_0000_0000 && b < 0x1_0000_0000_0000_0000
    ensures TimeAfter(a, b) <==> 0 < a - b <= 0x8000_0000_0000_0000 || a - b <= -0x8000_0000_0000_0000
    ensures TimeBefore(a, b) <==> TimeAfter(b, a)
  {
    assert a > b ==> (b - a) % TWO64 == b - a + TWO64;
    assert a <= b ==> (b - a) % TWO64 == b - a;
  }

  lemma AfterEachOther(x: nat)
    ensures TimeAfter((x + TWO63) % TWO64, x % TWO64) && TimeAfter(x % TWO64, (x + TWO63) % TWO64)
  {
  }
}
