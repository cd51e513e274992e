/** Python `datetime` values as far as the user table uses them: comparison,
    `strftime`/`strptime` with the format '%Y-%m-%d %H:%M:%S',
    `replace(day=...)`, and adding whole days (`+ timedelta(days=n)`). */
module DateTimes {
  import opened Wrappers
  import opened Numbers

  datatype DateTime = DateTime(year: int, month: int, day: int,
                               hour: int, minute: int, second: int, microsecond: int)

  predicate IsLeapYear(y: int)
  {
    y % 4 == 0 && (y % 100 != 0 || y % 400 == 0)
  }

  function DaysInMonth(y: int, m: int): (n: int)
    requires 1 <= m <= 12
    ensures 28 <= n <= 31
    ensures n == 31 <==> m in {1, 3, 5, 7, 8, 10, 12}
    ensures n == 29 <==> m == 2 && IsLeapYear(y)
  {
    if m == 2 then (if IsLeapYear(y) then 29 else 28)
    else if m == 4 || m == 6 || m == 9 || m == 11 then 30
    else 31
  }

  /** The values `datetime(...)` accepts (MINYEAR = 1, MAXYEAR = 9999). */
  predicate Valid(d: DateTime)
  {
    1 <= d.year <= 9999 && 1 <= d.month <= 12 && 1 <= d.day <= DaysInMonth(d.year, d.month) &&
    0 <= d.hour < 24 && 0 <= d.minute < 60 && 0 <= d.second < 60 &&
    0 <= d.microsecond < 1000000
  }

  /** `a > b`: lexicographic on (year, month, day, hour, minute, second, microsecond). */
  predicate After(a: DateTime, b: DateTime)
  {
    if a.year != b.year then a.year > b.year
    else if a.month != b.month then a.month > b.month
    else if a.day != b.day then a.day > b.day
    else if a.hour != b.hour then a.hour > b.hour
    else if a.minute != b.minute then a.minute > b.minute
    else if a.second != b.second then a.second > b.second
    else a.microsecond > b.microsecond
  }

  /** `After` is a strict total order. */
  lemma AfterStrictTotal(a: DateTime, b: DateTime, c: DateTime)
    ensures !After(a, a)
    ensures After(a, b) ==> !After(b, a)
    ensures a != b ==> After(a, b) || After(b, a)
    ensures After(a, b) && After(b, c) ==> After(a, c)
  {
  }

  function Pad2(n: int): (s: string)
    requires 0 <= n < 100
    ensures |s| == 2 && AllDigits(s)
  {
    [DigitChar(n / 10), DigitChar(n % 10)]
  }

  function Pad4(n: int): (s: string)
    requires 0 <= n < 10000
    ensures |s| == 4 && AllDigits(s)
  {
    Pad2(n / 100) + Pad2(n % 100)
  }

  /** `d.strftime('%Y-%m-%d %H:%M:%S')`; the microseconds are dropped. */
  function Format(d: DateTime): (s: string)
    requires Valid(d)
    ensures |s| == 19
  {
    Pad4(d.year) + "-" + Pad2(d.month) + "-" + Pad2(d.day) + " " +
    Pad2(d.hour) + ":" + Pad2(d.minute) + ":" + Pad2(d.second)
  }

  /** `datetime.strptime(s, '%Y-%m-%d %H:%M:%S')` on the fixed-width form;
      `None` is the ValueError. */
  function Parse(s: string): (r: Option<DateTime>)
    ensures r.Some? ==> Valid(r.value) && r.value.microsecond == 0
  {
    if |s| == 19 && s[4] == '-' && s[7] == '-' && s[10] == ' ' && s[13] == ':' && s[16] == ':' &&
       AllDigits(s[0..4]) && AllDigits(s[5..7]) && AllDigits(s[8..10]) &&
       AllDigits(s[11..13]) && AllDigits(s[14..16]) && AllDigits(s[17..19])
    then
      var d := DateTime(DigitsValue(s[0..4]), DigitsValue(s[5..7]), DigitsValue(s[8..10]),
                        DigitsValue(s[11..13]), DigitsValue(s[14..16]), DigitsValue(s[17..19]), 0);
      if Valid(d) then Some(d) else None
    else None
  }

  lemma Pad2Value(n: int)
    requires 0 <= n < 100
    ensures DigitsValue(Pad2(n)) == n
  {
    var a, b := DigitChar(n / 10), DigitChar(n % 10);
    DigitsValueSnoc([], a);
    DigitsValueSnoc([a], b);
    assert [] + [a] == [a] && Pad2(n) == [a] + [b];
  }

  /** Appending two digits multiplies by a hundred and adds their value. */
  lemma DigitsValuePair(h: string, l: string)
    requires AllDigits(h) && AllDigits(l) && |l| == 2
    ensures AllDigits(h + l) && DigitsValue(h + l) == DigitsValue(h) * 100 + DigitsValue(l)
  {
    DigitsValueSnoc(h, l[0]);
    DigitsValueSnoc(h + [l[0]], l[1]);
    assert h + l == (h + [l[0]]) + [l[1]];
    DigitsValueSnoc([], l[0]);
    DigitsValueSnoc([l[0]], l[1]);
    assert [] + [l[0]] == [l[0]] && l == [l[0]] + [l[1]];
  }

  lemma Pad4Value(n: int)
    requires 0 <= n < 10000
    ensures DigitsValue(Pad4(n)) == n
  {
    Pad2Value(n / 100);
    Pad2Value(n % 100);
    DigitsValuePair(Pad2(n / 100), Pad2(n % 100));
  }

  lemma Pad2OfDigits(t: string)
    requires |t| == 2 && AllDigits(t)
    ensures DigitsValue(t) < 100 && Pad2(DigitsValue(t)) == t
  {
    DigitsValueSnoc([], t[0]);
    DigitsValueSnoc([t[0]], t[1]);
    assert [] + [t[0]] == [t[0]] && t == [t[0]] + [t[1]];
    DigitCharOfValue(t[0]);
    DigitCharOfValue(t[1]);
  }

  lemma Pad4OfDigits(t: string)
    requires |t| == 4 && AllDigits(t)
    ensures DigitsValue(t) < 10000 && Pad4(DigitsValue(t)) == t
  {
    var hi, lo := t[..2], t[2..];
    assert t == hi + lo;
    Pad2OfDigits(hi);
    Pad2OfDigits(lo);
    DigitsValuePair(hi, lo);
    var v, h, l := DigitsValue(t), DigitsValue(hi), DigitsValue(lo);
    assert v == h * 100 + l;
    assert v / 100 == h && v % 100 == l;
  }

  /** Parsing what `strftime` wrote gives back the datetime without microseconds. */
  lemma ParseFormat(d: DateTime)
    requires Valid(d)
    ensures Parse(Format(d)) == Some(d.(microsecond := 0))
  {
    var s := Format(d);
    assert s[0..4] == Pad4(d.year);
    assert s[5..7] == Pad2(d.month) && s[8..10] == Pad2(d.day);
    assert s[11..13] == Pad2(d.hour) && s[14..16] == Pad2(d.minute) && s[17..19] == Pad2(d.second);
    Pad4Value(d.year);
    Pad2Value(d.month); Pad2Value(d.day);
    Pad2Value(d.hour); Pad2Value(d.minute); Pad2Value(d.second);
  }

  /** Every text `Parse` accepts is exactly what `strftime` writes for the result. */
  lemma FormatParse(s: string)
    requires Parse(s).Some?
    ensures Format(Parse(s).value) == s
  {
    var d := Parse(s).value;
    Pad4OfDigits(s[0..4]);
    Pad2OfDigits(s[5..7]); Pad2OfDigits(s[8..10]);
    Pad2OfDigits(s[11..13]); Pad2OfDigits(s[14..16]); Pad2OfDigits(s[17..19]);
    assert s == s[0..4] + [s[4]] + s[5..7] + [s[7]] + s[8..10] + [s[10]] +
                s[11..13] + [s[13]] + s[14..16] + [s[16]] + s[17..19];
  }

  /** `d.replace(day=day)`: `None` is the ValueError for a day outside the month. */
  function ReplaceDay(d: DateTime, day: int): Option<DateTime>
    requires Valid(d)
  {
    if 1 <= day <= DaysInMonth(d.year, d.month) then Some(d.(day := day)) else None
  }

  /** The next calendar day, same time of day; `None` past 9999-12-31 (OverflowError). */
  function NextDay(d: DateTime): (r: Option<DateTime>)
    requires Valid(d)
    ensures r.Some? ==> Valid(r.value)
  {
    if d.day < DaysInMonth(d.year, d.month) then Some(d.(day := d.day + 1))
    else if d.month < 12 then Some(d.(month := d.month + 1, day := 1))
    else if d.year < 9999 then Some(d.(year := d.year + 1, month := 1, day := 1))
    else None
  }

  /** The previous calendar day, same time of day; `None` before 0001-01-01. */
  function PrevDay(d: DateTime): (r: Option<DateTime>)
    requires Valid(d)
    ensures r.Some? ==> Valid(r.value)
  {
    if d.day > 1 then Some(d.(day := d.day - 1))
    else if d.month > 1 then Some(d.(month := d.month - 1, day := DaysInMonth(d.year, d.month - 1)))
    else if d.year > 1 then Some(d.(year := d.year - 1, month := 12, day := 31))
    else None
  }

  /** `d + timedelta(days=n)`; `None` is the OverflowError outside years 1..9999. */
  function AddDays(d: DateTime, n: int): (r: Option<DateTime>)
    requires Valid(d)
    ensures r.Some? ==> Valid(r.value)
    decreases if n >= 0 then n else -n
  {
    if n == 0 then Some(d)
    else if n > 0 then
      match NextDay(d)
      case Some(e) => AddDays(e, n - 1)
      case None => None
    else
      match PrevDay(d)
      case Some(e) => AddDays(e, n + 1)
      case None => None
  }

  function TimeOfDay(d: DateTime): (int, int, int, int)
  {
    (d.hour, d.minute, d.second, d.microsecond)
  }

  /** Stepping a day forwards moves strictly later and keeps the time of day. */
  lemma NextDayLater(d: DateTime)
    requires Valid(d) && NextDay(d).Some?
    ensures After(NextDay(d).value, d) && TimeOfDay(NextDay(d).value) == TimeOfDay(d)
  {
  }

  /** Adding a non-negative number of days keeps the time of day and never
      moves earlier; adding a positive number moves strictly later. */
  lemma {:induction false} AddDaysLater(d: DateTime, n: int)
    requires Valid(d) && n >= 0 && AddDays(d, n).Some?
    ensures TimeOfDay(AddDays(d, n).value) == TimeOfDay(d)
    ensures n == 0 ==> AddDays(d, n).value == d
    ensures n > 0 ==> After(AddDays(d, n).value, d)
    decreases n
  {
    if n > 0 {
      var e := NextDay(d).value;
      NextDayLater(d);
      AddDaysLater(e, n - 1);
      if n > 1 {
        AfterStrictTotal(AddDays(e, n - 1).value, e, d);
      }
    }
  }

  /** Adding days that stay inside the month only moves the day of the month. */
  lemma {:induction false} AddDaysWithinMonth(d: DateTime, k: nat)
    requires Valid(d) && d.day + k <= DaysInMonth(d.year, d.month)
    ensures AddDays(d, k) == Some(d.(day := d.day + k))
    decreases k
  {
    if k > 0 {
      assert NextDay(d) == Some(d.(day := d.day + 1));
      AddDaysWithinMonth(d.(day := d.day + 1), k - 1);
    }
  }

  /** Adding `a + b` days is adding `a` days and then `b` more. */
  lemma {:induction false} AddDaysSplit(d: DateTime, a: nat, b: nat)
    requires Valid(d) && AddDays(d, a).Some?
    ensures AddDays(d, a + b) == AddDays(AddDays(d, a).value, b)
    decreases a
  {
    if a > 0 {
      AddDaysSplit(NextDay(d).value, a - 1, b);
    }
  }

  /** `replace(day=d.day + 30)` succeeds only on the first day of a 31-day month. */
  lemma ReplaceDayThirty(d: DateTime)
    requires Valid(d)
    ensures ReplaceDay(d, d.day + 30).Some? <==> d.day == 1 && DaysInMonth(d.year, d.month) == 31
  {
  }
}
