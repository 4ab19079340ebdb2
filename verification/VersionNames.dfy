/** Why a plain string sort of version names is a sort by time (internal/certwriter/certwriter.go:66-72, prune.go). */
module VersionNames {
  import opened Ordering

  /** A UTC time to the second, as Format breaks it down. */
  datatype Stamp = Stamp(year: nat, month: nat, day: nat, hour: nat, minute: nat, second: nat)

  predicate LeapYear(y: nat)
  {
    y % 4 == 0 && (y % 100 != 0 || y % 400 == 0)
  }

  function DaysIn(y: nat, m: nat): nat
  {
    if m == 2 then (if LeapYear(y) then 29 else 28) else if m in {4, 6, 9, 11} then 30 else 31
  }

  predicate Valid(s: Stamp)
  {
    1 <= s.year <= 9999 && 1 <= s.month <= 12 && 1 <= s.day <= DaysIn(s.year, s.month)
    && s.hour < 24 && s.minute < 60 && s.second < 60
  }

  /** Days of the Gregorian calendar before the first of January of year `y`. */
  function DaysBeforeYear(y: nat): nat
    requires 1 <= y
  {
    365 * (y - 1) + (y - 1) / 4 - (y - 1) / 100 + (y - 1) / 400
  }

  function DaysBeforeMonth(y: nat, m: nat): nat
    requires 1 <= m
  {
    if m == 1 then 0 else DaysBeforeMonth(y, m - 1) + DaysIn(y, m - 1)
  }

  /** Seconds since the start of year 1. */
  function Instant(s: Stamp): nat
    requires Valid(s)
  {
    (DaysBeforeYear(s.year) + DaysBeforeMonth(s.year, s.month) + s.day - 1) * 86400
    + s.hour * 3600 + s.minute * 60 + s.second
  }

  function Digits(n: nat, width: nat): string
  {
    if width == 0 then "" else Digits(n / 10, width - 1) + ["0123456789"[n % 10]]
  }

  /** time.Format("20060102T150405") */
  function Format(s: Stamp): string
  {
    Digits(s.year, 4) + (Digits(s.month, 2) + (Digits(s.day, 2) + ("T" + (Digits(s.hour, 2)
      + (Digits(s.minute, 2) + Digits(s.second, 2))))))
  }

  function VersionName(s: Stamp, suffix: string): string
  {
    Format(s) + ("-" + suffix)
  }

  // ----- Fixed-width digits compare like numbers -----

  lemma {:induction false} LessAfter(prefix: string, a: string, b: string)
    requires Less(a, b)
    ensures Less(prefix + a, prefix + b)
  {
    if prefix == [] {
      assert prefix + a == a && prefix + b == b;
    } else {
      LessAfter(prefix[1..], a, b);
      assert (prefix + a)[1..] == prefix[1..] + a && (prefix + b)[1..] == prefix[1..] + b;
    }
  }

  function Pow10(w: nat): nat
  {
    if w == 0 then 1 else 10 * Pow10(w - 1)
  }

  lemma {:induction false} DigitsLess(m: nat, n: nat, width: nat, a: string, b: string)
    requires m < n < Pow10(width)
    ensures Less(Digits(m, width) + a, Digits(n, width) + b)
  {
    var x, y := ["0123456789"[m % 10]], ["0123456789"[n % 10]];
    assert Digits(m, width) + a == Digits(m / 10, width - 1) + (x + a);
    assert Digits(n, width) + b == Digits(n / 10, width - 1) + (y + b);
    if m / 10 < n / 10 {
      DigitsLess(m / 10, n / 10, width - 1, x + a, y + b);
    } else {
      assert m % 10 < n % 10;
      assert Less(x + a, y + b);
      LessAfter(Digits(m / 10, width - 1), x + a, y + b);
    }
  }

  /** One field of a fixed width, then whatever follows. */
  lemma FieldLess(m: nat, n: nat, width: nat, a: string, b: string)
    requires m < Pow10(width) && n < Pow10(width)
    requires m < n || (m == n && Less(a, b))
    ensures Less(Digits(m, width) + a, Digits(n, width) + b)
  {
    if m < n { DigitsLess(m, n, width, a, b); } else { LessAfter(Digits(m, width), a, b); }
  }

  // ----- The calendar is monotone in its fields -----

  lemma By4(y: nat)
    requires 1 <= y
    ensures y / 4 == (y - 1) / 4 + if y % 4 == 0 then 1 else 0
  {
  }

  lemma By100(y: nat)
    requires 1 <= y
    ensures y / 100 == (y - 1) / 100 + if y % 100 == 0 then 1 else 0
    ensures y % 100 == 0 ==> y % 4 == 0
  {
  }

  lemma By400(y: nat)
    requires 1 <= y
    ensures y / 400 == (y - 1) / 400 + if y % 400 == 0 then 1 else 0
    ensures y % 400 == 0 ==> y % 100 == 0
  {
  }

  lemma YearStep(y: nat)
    requires 1 <= y
    ensures DaysBeforeYear(y + 1) == DaysBeforeYear(y) + if LeapYear(y) then 366 else 365
  {
    By4(y);
    By100(y);
    By400(y);
  }

  lemma {:induction false} YearsGrow(x: nat, y: nat)
    requires 1 <= x < y
    ensures DaysBeforeYear(x) + (if LeapYear(x) then 366 else 365) <= DaysBeforeYear(y)
    decreases y
  {
    YearStep(y - 1);
    if x < y - 1 { YearsGrow(x, y - 1); }
  }

  lemma {:induction false} MonthsGrow(y: nat, m: nat, n: nat)
    requires 1 <= m < n <= 13
    ensures DaysBeforeMonth(y, m) + DaysIn(y, m) <= DaysBeforeMonth(y, n)
    decreases n
  {
    if m < n - 1 { MonthsGrow(y, m, n - 1); }
  }

  lemma YearHasItsDays(y: nat)
    ensures DaysBeforeMonth(y, 13) == if LeapYear(y) then 366 else 365
  {
    assert DaysBeforeMonth(y, 2) == 31;
    assert DaysBeforeMonth(y, 3) == 31 + DaysIn(y, 2);
    assert DaysBeforeMonth(y, 4) == 62 + DaysIn(y, 2);
    assert DaysBeforeMonth(y, 5) == 92 + DaysIn(y, 2);
    assert DaysBeforeMonth(y, 6) == 123 + DaysIn(y, 2);
    assert DaysBeforeMonth(y, 7) == 153 + DaysIn(y, 2);
    assert DaysBeforeMonth(y, 8) == 184 + DaysIn(y, 2);
    assert DaysBeforeMonth(y, 9) == 215 + DaysIn(y, 2);
    assert DaysBeforeMonth(y, 10) == 245 + DaysIn(y, 2);
    assert DaysBeforeMonth(y, 11) == 276 + DaysIn(y, 2);
    assert DaysBeforeMonth(y, 12) == 306 + DaysIn(y, 2);
  }

  /** `a` precedes `b` in the first date field that differs, or else by time of day. */
  predicate FieldsBefore(a: Stamp, b: Stamp)
  {
    a.year < b.year || (a.year == b.year && (a.month < b.month || (a.month == b.month && (a.day < b.day
      || (a.day == b.day && SecondsOf(a) < SecondsOf(b))))))
  }

  function SecondsOf(s: Stamp): nat
  {
    s.hour * 3600 + s.minute * 60 + s.second
  }

  lemma FieldsBeforeIsEarlier(a: Stamp, b: Stamp)
    requires Valid(a) && Valid(b) && FieldsBefore(a, b)
    ensures Instant(a) < Instant(b)
  {
    MonthsGrow(a.year, a.month, 13);
    YearHasItsDays(a.year);
    if a.year < b.year {
      YearsGrow(a.year, b.year);
    } else if a.month < b.month {
      MonthsGrow(a.year, a.month, b.month);
    }
    assert SecondsOf(a) < 86400;
  }

  /** Names with different seconds compare as strings exactly as their times do, whatever their random suffixes. */
  lemma NamesSortByTime(a: Stamp, b: Stamp, x: string, y: string)
    requires Valid(a) && Valid(b) && Instant(a) != Instant(b)
    ensures Less(VersionName(a, x), VersionName(b, y)) <==> Instant(a) < Instant(b)
  {
    if Instant(a) < Instant(b) {
      EarlierSortsFirst(a, b, x, y);
    } else {
      EarlierSortsFirst(b, a, y, x);
      LessAsymmetric(VersionName(b, y), VersionName(a, x));
    }
  }

  lemma EarlierSortsFirst(a: Stamp, b: Stamp, x: string, y: string)
    requires Valid(a) && Valid(b) && Instant(a) < Instant(b)
    ensures Less(VersionName(a, x), VersionName(b, y))
  {
    if FieldsBefore(b, a) { FieldsBeforeIsEarlier(b, a); }
    assert FieldsBefore(a, b);
    TailLess(a, b, "-" + x, "-" + y);
  }

  lemma TailLess(a: Stamp, b: Stamp, x: string, y: string)
    requires Valid(a) && Valid(b) && FieldsBefore(a, b)
    ensures Less(Format(a) + x, Format(b) + y)
  {
    var sa, sb := Digits(a.second, 2) + x, Digits(b.second, 2) + y;
    var ma, mb := Digits(a.minute, 2) + sa, Digits(b.minute, 2) + sb;
    var ha, hb := Digits(a.hour, 2) + ma, Digits(b.hour, 2) + mb;
    var da, db := Digits(a.day, 2) + ("T" + ha), Digits(b.day, 2) + ("T" + hb);
    var na, nb := Digits(a.month, 2) + da, Digits(b.month, 2) + db;
    assert Format(a) + x == Digits(a.year, 4) + na;
    assert Format(b) + y == Digits(b.year, 4) + nb;
    assert Pow10(2) == 100 && Pow10(4) == 10000;
    if a.year == b.year && a.month == b.month && a.day == b.day {
      if a.hour == b.hour {
        if a.minute == b.minute { FieldLess(a.second, b.second, 2, x, y); }
        FieldLess(a.minute, b.minute, 2, sa, sb);
      }
      FieldLess(a.hour, b.hour, 2, ma, mb);
      LessAfter("T", ha, hb);
    }
    if a.year == b.year && a.month == b.month { FieldLess(a.day, b.day, 2, "T" + ha, "T" + hb); }
    if a.year == b.year { FieldLess(a.month, b.month, 2, da, db); }
    FieldLess(a.year, b.year, 4, na, nb);
  }

  // ----- Names can be read back -----

  function Value(digits: string): nat
  {
    if digits == "" then 0 else 10 * Value(digits[..|digits| - 1]) + DigitValue(digits[|digits| - 1])
  }

  function DigitValue(c: char): nat
  {
    if '0' <= c <= '9' then c as nat - '0' as nat else 0
  }

  lemma OneDigit(d: nat)
    requires d < 10
    ensures DigitValue("0123456789"[d]) == d
  {
  }

  lemma {:induction false} DigitsValue(n: nat, width: nat)
    requires n < Pow10(width)
    ensures |Digits(n, width)| == width && Value(Digits(n, width)) == n
  {
    if width > 0 {
      DigitsValue(n / 10, width - 1);
      OneDigit(n % 10);
      var front := Digits(n / 10, width - 1);
      assert (front + ["0123456789"[n % 10]])[..|front|] == front;
    }
  }

  /** The fields of a stamp at their places in the name. */
  function Parse(name: string): Stamp
    requires |name| >= 15
  {
    Stamp(Value(name[..4]), Value(name[4..6]), Value(name[6..8]), Value(name[9..11]), Value(name[11..13]),
          Value(name[13..15]))
  }

  /** The part after a prefix, and the prefix that ends with it. */
  lemma NextPart(name: string, prefix: string, part: string, rest: string)
    requires name == prefix + (part + rest)
    ensures name == (prefix + part) + rest
    ensures |prefix| + |part| <= |name| && name[|prefix|..|prefix| + |part|] == part
  {
  }

  /** The first fifteen characters of a name give its time, a "T" between date and time; then "-" and the suffix. */
  lemma NameGivesTime(s: Stamp, suffix: string)
    requires Valid(s)
    ensures var name := VersionName(s, suffix);
      |name| == 16 + |suffix| && Parse(name) == s && name[8] == 'T' && name[15..] == "-" + suffix
  {
    assert Pow10(2) == 100 && Pow10(4) == 10000;
    DigitsValue(s.year, 4);
    DigitsValue(s.month, 2);
    DigitsValue(s.day, 2);
    DigitsValue(s.hour, 2);
    DigitsValue(s.minute, 2);
    DigitsValue(s.second, 2);
    PartsAt(Digits(s.year, 4), Digits(s.month, 2), Digits(s.day, 2), Digits(s.hour, 2), Digits(s.minute, 2),
            Digits(s.second, 2), "-" + suffix);
  }

  lemma PartsAt(a: string, b: string, c: string, d: string, e: string, f: string, rest: string)
    requires |a| == 4 && |b| == |c| == |d| == |e| == |f| == 2
    ensures var name := a + (b + (c + ("T" + (d + (e + f))))) + rest;
      && |name| == 15 + |rest| && name[..4] == a && name[4..6] == b && name[6..8] == c && name[8] == 'T'
      && name[9..11] == d && name[11..13] == e && name[13..15] == f && name[15..] == rest
  {
    var stamp := a + (b + (c + ("T" + (d + (e + f)))));
    NextPart(stamp, a, b, c + ("T" + (d + (e + f))));
    NextPart(stamp, a + b, c, "T" + (d + (e + f)));
    NextPart(stamp, a + b + c, "T", d + (e + f));
    NextPart(stamp, a + b + c + "T", d, e + f);
    NextPart(stamp, a + b + c + "T" + d, e, f);
    var name := stamp + rest;
    assert forall i, j :: 0 <= i <= j <= 15 ==> name[i..j] == stamp[i..j];
  }
}
