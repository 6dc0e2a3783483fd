/** Time stamps as the routes print and compare them.

    `datetime.isoformat()` drops the fraction when it is zero, and both the
    incident view and the activity feed compare the printed strings, not the
    times. For times in UTC that is harmless, and this module proves it: the
    string order of the printed stamps is the order of the instants. */
module IsoTime {
  import opened Numbers

  datatype Instant = Instant(year: nat, month: nat, day: nat, hour: nat, minute: nat, second: nat, micro: nat) {
    predicate Valid() {
      && 1 <= year <= 9999 && 1 <= month <= 12 && 1 <= day <= DaysInMonth(year, month)
      && hour < 24 && minute < 60 && second < 60 && micro < 1_000_000
    }
  }

  type Time = t: Instant | t.Valid() witness Instant(1, 1, 1, 0, 0, 0, 0)

  // ------------------------------------------------------------- the time line

  predicate Leap(year: nat) {
    year % 4 == 0 && (year % 100 != 0 || year % 400 == 0)
  }

  function DaysInMonth(year: nat, month: nat): nat {
    if month == 2 then if Leap(year) then 29 else 28
    else if month == 4 || month == 6 || month == 9 || month == 11 then 30
    else 31
  }

  function DaysBeforeYear(year: nat): nat {
    if year == 0 then 0 else DaysBeforeYear(year - 1) + if Leap(year - 1) then 366 else 365
  }

  function DaysBeforeMonth(year: nat, month: nat): nat {
    if month <= 1 then 0 else DaysBeforeMonth(year, month - 1) + DaysInMonth(year, month - 1)
  }

  function DayNumber(t: Instant): nat {
    DaysBeforeYear(t.year) + DaysBeforeMonth(t.year, t.month) + t.day
  }

  function Clock(t: Instant): nat {
    ((t.hour * 60 + t.minute) * 60 + t.second) * 1_000_000 + t.micro
  }

  /** Microseconds along the proleptic Gregorian calendar. */
  function Micros(t: Instant): nat {
    DayNumber(t) * 86_400_000_000 + Clock(t)
  }

  /** Field by field, most significant first. */
  predicate ListLess(a: seq<nat>, b: seq<nat>)
    requires |a| == |b|
  {
    a != [] && (a[0] < b[0] || (a[0] == b[0] && ListLess(a[1..], b[1..])))
  }

  lemma {:induction false} YearsAdvance(y: nat, z: nat)
    requires y < z
    ensures DaysBeforeYear(y) + (if Leap(y) then 366 else 365) <= DaysBeforeYear(z)
  {
    if y + 1 < z {
      YearsAdvance(y, z - 1);
    }
  }

  lemma {:induction false} MonthsAdvance(y: nat, m: nat, n: nat)
    requires 1 <= m < n
    ensures DaysBeforeMonth(y, m) + DaysInMonth(y, m) <= DaysBeforeMonth(y, n)
  {
    if m + 1 < n {
      MonthsAdvance(y, m, n - 1);
    }
  }

  lemma YearIsFull(y: nat)
    ensures DaysBeforeMonth(y, 12) + 31 == if Leap(y) then 366 else 365
  {
    var d2 := DaysBeforeMonth(y, 3);
    var d5 := DaysBeforeMonth(y, 6);
    var d8 := DaysBeforeMonth(y, 9);
    assert DaysBeforeMonth(y, 2) == 31;
    assert DaysBeforeMonth(y, 4) == d2 + 31;
    assert DaysBeforeMonth(y, 7) == d5 + 30;
    assert DaysBeforeMonth(y, 10) == d8 + 30;
    assert DaysBeforeMonth(y, 5) == d2 + 61;
    assert DaysBeforeMonth(y, 8) == d5 + 61;
    assert DaysBeforeMonth(y, 11) == d8 + 61;
  }

  lemma DateOrder(a: Time, b: Time)
    requires a.year < b.year || (a.year == b.year && (a.month < b.month || (a.month == b.month && a.day < b.day)))
    ensures DayNumber(a) < DayNumber(b)
  {
    if a.year < b.year {
      YearsAdvance(a.year, b.year);
      YearIsFull(a.year);
      if a.month < 12 {
        MonthsAdvance(a.year, a.month, 12);
      }
    } else if a.month < b.month {
      MonthsAdvance(a.year, a.month, b.month);
    }
  }

  predicate Earlier(a: Instant, b: Instant) {
    ListLess(Fields(a), Fields(b)) || (Fields(a) == Fields(b) && a.micro < b.micro)
  }

  function Fields(t: Instant): (f: seq<nat>)
    ensures |f| == 6
  {
    [t.year, t.month, t.day, t.hour, t.minute, t.second]
  }

  lemma FieldsLess(a: Instant, b: Instant)
    ensures ListLess(Fields(a), Fields(b)) <==>
      a.year < b.year || (a.year == b.year &&
      (a.month < b.month || (a.month == b.month &&
      (a.day < b.day || (a.day == b.day &&
      (a.hour < b.hour || (a.hour == b.hour &&
      (a.minute < b.minute || (a.minute == b.minute && a.second < b.second)))))))))
  {
    ListLessStep([a.second], [b.second]);
    ListLessStep([a.minute, a.second], [b.minute, b.second]);
    ListLessStep([a.hour, a.minute, a.second], [b.hour, b.minute, b.second]);
    ListLessStep([a.day, a.hour, a.minute, a.second], [b.day, b.hour, b.minute, b.second]);
    ListLessStep([a.month, a.day, a.hour, a.minute, a.second], [b.month, b.day, b.hour, b.minute, b.second]);
    ListLessStep(Fields(a), Fields(b));
    assert [a.second][1..] == [] && [b.second][1..] == [];
    assert [a.minute, a.second][1..] == [a.second] && [b.minute, b.second][1..] == [b.second];
    assert [a.hour, a.minute, a.second][1..] == [a.minute, a.second]
      && [b.hour, b.minute, b.second][1..] == [b.minute, b.second];
    assert [a.day, a.hour, a.minute, a.second][1..] == [a.hour, a.minute, a.second];
    assert [b.day, b.hour, b.minute, b.second][1..] == [b.hour, b.minute, b.second];
    assert [a.month, a.day, a.hour, a.minute, a.second][1..] == [a.day, a.hour, a.minute, a.second];
    assert [b.month, b.day, b.hour, b.minute, b.second][1..] == [b.day, b.hour, b.minute, b.second];
    assert Fields(a)[1..] == [a.month, a.day, a.hour, a.minute, a.second];
    assert Fields(b)[1..] == [b.month, b.day, b.hour, b.minute, b.second];
  }

  lemma ListLessStep(a: seq<nat>, b: seq<nat>)
    requires |a| == |b| && a != []
    ensures ListLess(a, b) <==> a[0] < b[0] || (a[0] == b[0] && ListLess(a[1..], b[1..]))
  {
  }

  lemma EarlierAdvances(a: Time, b: Time)
    requires Earlier(a, b)
    ensures Micros(a) < Micros(b)
  {
    FieldsLess(a, b);
    if a.year == b.year && a.month == b.month && a.day == b.day {
    } else {
      DateOrder(a, b);
      assert Clock(a) < 86_400_000_000;
    }
  }

  /** Field order and calendar order are the same order. */
  lemma EarlierIsLess(a: Time, b: Time)
    ensures Earlier(a, b) <==> Micros(a) < Micros(b)
    ensures a == b <==> Micros(a) == Micros(b)
  {
    FieldsLess(a, b);
    FieldsLess(b, a);
    if a != b {
      assert Earlier(a, b) || Earlier(b, a);
    }
    if Earlier(a, b) { EarlierAdvances(a, b); }
    if Earlier(b, a) { EarlierAdvances(b, a); }
  }

  // ---------------------------------------------------------------- the strings

  /** How Python compares two strings. */
  predicate StringLess(a: string, b: string) {
    b != [] && (a == [] || a[0] < b[0] || (a[0] == b[0] && StringLess(a[1..], b[1..])))
  }

  lemma {:induction false} StringLessConcat(a: string, b: string, x: string, y: string)
    requires |a| == |b|
    ensures StringLess(a + x, b + y) <==> StringLess(a, b) || (a == b && StringLess(x, y))
  {
    if a == [] {
      assert a + x == x && b + y == y;
    } else {
      assert (a + x)[1..] == a[1..] + x && (b + y)[1..] == b[1..] + y;
      assert a == [a[0]] + a[1..] && b == [b[0]] + b[1..];
      StringLessConcat(a[1..], b[1..], x, y);
    }
  }

  function Pow10(n: nat): nat {
    if n == 0 then 1 else 10 * Pow10(n - 1)
  }

  /** `n` in exactly `width` decimal digits. */
  function Pad(n: nat, width: nat): (s: string)
    ensures |s| == width
  {
    if width == 0 then [] else Pad(n / 10, width - 1) + [Digit(n % 10)]
  }

  lemma {:induction false} PadOrder(m: nat, n: nat, width: nat)
    requires m < Pow10(width) && n < Pow10(width)
    ensures StringLess(Pad(m, width), Pad(n, width)) <==> m < n
    ensures Pad(m, width) == Pad(n, width) <==> m == n
  {
    if width > 0 {
      PadOrder(m / 10, n / 10, width - 1);
      var x, y := [Digit(m % 10)], [Digit(n % 10)];
      StringLessConcat(Pad(m / 10, width - 1), Pad(n / 10, width - 1), x, y);
      assert StringLess(x, y) <==> m % 10 < n % 10;
      if Pad(m, width) == Pad(n, width) {
        assert Pad(m, width)[..width - 1] == Pad(m / 10, width - 1);
        assert Pad(n, width)[..width - 1] == Pad(n / 10, width - 1);
        assert Pad(m, width)[width - 1] == Pad(n, width)[width - 1];
      }
    }
  }

  const WIDTHS: seq<nat> := [4, 2, 2, 2, 2, 2]
  const SEPARATORS: seq<string> := ["-", "-", "T", ":", ":", ""]
  const OFFSET: string := "+00:00"

  function Stamp(fields: seq<nat>, from: nat): string
    requires |fields| == 6 && from <= 6
    decreases 6 - from
  {
    if from == 6 then "" else Pad(fields[from], WIDTHS[from]) + (SEPARATORS[from] + Stamp(fields, from + 1))
  }

  function Fraction(micro: nat): string {
    if micro == 0 then "" else "." + Pad(micro, 6)
  }

  function Iso(t: Instant): string {
    Stamp(Fields(t), 0) + (Fraction(t.micro) + OFFSET)
  }

  lemma FractionOrder(m: nat, n: nat)
    requires m < 1_000_000 && n < 1_000_000
    ensures StringLess(Fraction(m) + OFFSET, Fraction(n) + OFFSET) <==> m < n
  {
    assert Pow10(6) == 1_000_000 by {
      assert Pow10(2) == 100 && Pow10(4) == 10_000;
    }
    PadOrder(m, n, 6);
    var x, y := Fraction(m) + OFFSET, Fraction(n) + OFFSET;
    if m != 0 && n != 0 {
      assert x == "." + (Pad(m, 6) + OFFSET) && y == "." + (Pad(n, 6) + OFFSET);
      StringLessConcat(".", ".", Pad(m, 6) + OFFSET, Pad(n, 6) + OFFSET);
      StringLessConcat(Pad(m, 6), Pad(n, 6), OFFSET, OFFSET);
      StringLessConcat(OFFSET, OFFSET, "", "");
      assert OFFSET + "" == OFFSET;
      SelfNotLess(OFFSET);
      SelfNotLess(".");
    } else {
      SelfNotLess(OFFSET);
      assert "" + OFFSET == OFFSET;
      assert m != 0 ==> x[0] == '.';
      assert n != 0 ==> y[0] == '.';
      assert m == 0 ==> x[0] == '+';
      assert n == 0 ==> y[0] == '+';
    }
  }

  lemma {:induction false} SelfNotLess(s: string)
    ensures !StringLess(s, s)
  {
    if s != [] { SelfNotLess(s[1..]); }
  }

  predicate Fits(fields: seq<nat>)
    requires |fields| == 6
  {
    forall i :: 0 <= i < 6 ==> fields[i] < Pow10(WIDTHS[i])
  }

  lemma LayerOrder(p: string, q: string, sep: string, u: string, v: string)
    requires |p| == |q|
    ensures StringLess(p + (sep + u), q + (sep + v)) <==> StringLess(p, q) || (p == q && StringLess(u, v))
  {
    StringLessConcat(p, q, sep + u, sep + v);
    StringLessConcat(sep, sep, u, v);
    SelfNotLess(sep);
  }

  lemma Reassociate(p: string, sep: string, s: string, x: string)
    ensures (p + (sep + s)) + x == p + (sep + (s + x))
  {
  }

  lemma ListLessFrom(a: seq<nat>, b: seq<nat>, from: nat)
    requires |a| == |b| && from < |a|
    ensures ListLess(a[from..], b[from..])
      <==> a[from] < b[from] || (a[from] == b[from] && ListLess(a[from + 1..], b[from + 1..]))
    ensures a[from..] == b[from..] <==> a[from] == b[from] && a[from + 1..] == b[from + 1..]
  {
    var c, d := a[from..], b[from..];
    assert c[1..] == a[from + 1..] && d[1..] == b[from + 1..];
    assert c == [c[0]] + c[1..] && d == [d[0]] + d[1..];
  }

  lemma {:induction false} StampOrder(a: seq<nat>, b: seq<nat>, from: nat, x: string, y: string)
    requires |a| == |b| == 6 && from <= 6 && Fits(a) && Fits(b)
    ensures StringLess(Stamp(a, from) + x, Stamp(b, from) + y)
      <==> ListLess(a[from..], b[from..]) || (a[from..] == b[from..] && StringLess(x, y))
    decreases 6 - from
  {
    if from == 6 {
      assert "" + x == x && "" + y == y;
    } else {
      StampOrder(a, b, from + 1, x, y);
      PadOrder(a[from], b[from], WIDTHS[from]);
      var p, q, sep := Pad(a[from], WIDTHS[from]), Pad(b[from], WIDTHS[from]), SEPARATORS[from];
      Reassociate(p, sep, Stamp(a, from + 1), x);
      Reassociate(q, sep, Stamp(b, from + 1), y);
      LayerOrder(p, q, sep, Stamp(a, from + 1) + x, Stamp(b, from + 1) + y);
      ListLessFrom(a, b, from);
    }
  }

  /** Printed stamps sort as the instants they print. */
  lemma IsoOrder(a: Time, b: Time)
    ensures StringLess(Iso(a), Iso(b)) <==> Micros(a) < Micros(b)
  {
    assert Pow10(4) == 10_000 && Pow10(2) == 100;
    var x, y := Fields(a), Fields(b);
    assert Fits(x) && Fits(y);
    StampOrder(x, y, 0, Fraction(a.micro) + OFFSET, Fraction(b.micro) + OFFSET);
    assert x[0..] == x && y[0..] == y;
    FractionOrder(a.micro, b.micro);
    EarlierIsLess(a, b);
  }

  // ----------------------------------------------------- clock and format, exactly

  /** Leap years counted: every fourth, but not every hundredth, but every four
      hundredth. */
  lemma {:induction false} LeapYearsCounted(year: nat)
    ensures DaysBeforeYear(year) == 365 * year + (year + 3) / 4 - (year + 99) / 100 + (year + 399) / 400
  {
    if year > 0 {
      LeapYearsCounted(year - 1);
      EveryFourth(year - 1);
      EveryHundredth(year - 1);
      EveryFourHundredth(year - 1);
      CenturiesDivide(year - 1);
    }
  }

  lemma EveryFourth(y: nat)
    ensures (y + 4) / 4 == (y + 3) / 4 + if y % 4 == 0 then 1 else 0
  {
  }

  lemma EveryHundredth(y: nat)
    ensures (y + 100) / 100 == (y + 99) / 100 + if y % 100 == 0 then 1 else 0
  {
  }

  lemma EveryFourHundredth(y: nat)
    ensures (y + 400) / 400 == (y + 399) / 400 + if y % 400 == 0 then 1 else 0
  {
  }

  lemma CenturiesDivide(y: nat)
    ensures (y % 100 == 0 ==> y % 4 == 0) && (y % 400 == 0 ==> y % 100 == 0)
  {
    if y % 100 == 0 {
      assert y == 4 * (25 * (y / 100));
    }
    if y % 400 == 0 {
      assert y == 100 * (4 * (y / 400));
    }
  }

  function NextDay(year: nat, month: nat, day: nat): (nat, nat, nat) {
    if day < DaysInMonth(year, month) then (year, month, day + 1)
    else if month < 12 then (year, month + 1, 1)
    else (year + 1, 1, 1)
  }

  /** The next microsecond, carrying into seconds, minutes, hours and days. */
  function Next(t: Instant): Instant {
    var (year, month, day) := NextDay(t.year, t.month, t.day);
    if t.micro < 999_999 then t.(micro := t.micro + 1)
    else if t.second < 59 then t.(micro := 0, second := t.second + 1)
    else if t.minute < 59 then t.(micro := 0, second := 0, minute := t.minute + 1)
    else if t.hour < 23 then t.(micro := 0, second := 0, minute := 0, hour := t.hour + 1)
    else Instant(year, month, day, 0, 0, 0, 0)
  }

  lemma NextDayIsOneLater(year: nat, month: nat, day: nat)
    requires 1 <= month <= 12 && 1 <= day <= DaysInMonth(year, month)
    ensures var (y, m, d) := NextDay(year, month, day);
      DaysBeforeYear(y) + DaysBeforeMonth(y, m) + d == DaysBeforeYear(year) + DaysBeforeMonth(year, month) + day + 1
  {
    YearIsFull(year);
    assert DaysBeforeYear(year + 1) == DaysBeforeYear(year) + if Leap(year) then 366 else 365;
  }

  /** The time line counts microseconds. */
  lemma TickIsOne(t: Time)
    ensures Micros(Next(t)) == Micros(t) + 1
  {
    NextDayIsOneLater(t.year, t.month, t.day);
    assert t.micro < 999_999 ==> Clock(Next(t)) == Clock(t) + 1;
  }

  lemma {:induction false} PadDenotes(n: nat, width: nat)
    requires n < Pow10(width)
    ensures ValueOf(Pad(n, width)) == n
  {
    if width > 0 {
      PadDenotes(n / 10, width - 1);
      assert (Pad(n / 10, width - 1) + [Digit(n % 10)])[..width - 1] == Pad(n / 10, width - 1);
    }
  }

  /** The layout of a printed stamp. */
  lemma IsoLayout(t: Time)
    ensures var fraction := if t.micro == 0 then "" else "." + Pad(t.micro, 6);
      var time := Pad(t.hour, 2) + (":" + (Pad(t.minute, 2) + (":" + (Pad(t.second, 2) + ""))));
      Iso(t) == (Pad(t.year, 4) + ("-" + (Pad(t.month, 2) + ("-" + (Pad(t.day, 2) + ("T" + time))))))
                + (fraction + "+00:00")
  {
    var f := Fields(t);
    SecondsLayout(f);
    assert Stamp(f, 2) == Pad(t.day, 2) + ("T" + Stamp(f, 3));
    assert Stamp(f, 1) == Pad(t.month, 2) + ("-" + Stamp(f, 2));
    assert Stamp(f, 0) == Pad(t.year, 4) + ("-" + Stamp(f, 1));
  }

  lemma SecondsLayout(f: seq<nat>)
    requires |f| == 6
    ensures Stamp(f, 3) == Pad(f[3], 2) + (":" + (Pad(f[4], 2) + (":" + (Pad(f[5], 2) + ""))))
  {
    assert Stamp(f, 6) == "" && "" + "" == "";
    assert Stamp(f, 5) == Pad(f[5], 2) + "";
    assert Stamp(f, 4) == Pad(f[4], 2) + (":" + Stamp(f, 5));
  }

  /** They never collide: of two distinct instants exactly one prints the lesser
      stamp. */
  lemma IsoTotal(a: Time, b: Time)
    requires a != b
    ensures StringLess(Iso(a), Iso(b)) <==> !StringLess(Iso(b), Iso(a))
    ensures Iso(a) != Iso(b)
  {
    IsoOrder(a, b);
    IsoOrder(b, a);
    EarlierIsLess(a, b);
    SelfNotLess(Iso(a));
  }
}
