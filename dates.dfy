/**
 * Proleptic Gregorian calendar dates, as Python's `datetime.date`, with day
 * stepping, month navigation, ordering and ISO 8601 (`YYYY-MM-DD`) text.
 */
module Dates {
  import Text
  import opened Wrappers

  datatype Date = Date(year: int, month: int, day: int)

  predicate IsLeap(y: int) {
    y % 4 == 0 && (y % 100 != 0 || y % 400 == 0)
  }

  function DaysInMonth(y: int, m: int): (n: int)
    requires 1 <= m <= 12
    ensures 28 <= n <= 31
  {
    if m == 2 then (if IsLeap(y) then 29 else 28)
    else if m == 4 || m == 6 || m == 9 || m == 11 then 30
    else 31
  }

  predicate Valid(d: Date) {
    1 <= d.month <= 12 && 1 <= d.day <= DaysInMonth(d.year, d.month)
  }

  /** `a < b` for dates. */
  predicate Before(a: Date, b: Date) {
    a.year < b.year
    || (a.year == b.year && (a.month < b.month || (a.month == b.month && a.day < b.day)))
  }

  predicate NotAfter(a: Date, b: Date) {
    a == b || Before(a, b)
  }

  /** `d + timedelta(days=1)`. */
  function NextDay(d: Date): (r: Date)
    requires Valid(d)
    ensures Valid(r) && Before(d, r)
  {
    if d.day < DaysInMonth(d.year, d.month) then Date(d.year, d.month, d.day + 1)
    else if d.month < 12 then Date(d.year, d.month + 1, 1)
    else Date(d.year + 1, 1, 1)
  }

  /** `d - timedelta(days=1)`. */
  function PrevDay(d: Date): (r: Date)
    requires Valid(d)
    ensures Valid(r) && Before(r, d)
  {
    if d.day > 1 then Date(d.year, d.month, d.day - 1)
    else if d.month > 1 then Date(d.year, d.month - 1, DaysInMonth(d.year, d.month - 1))
    else Date(d.year - 1, 12, 31)
  }

  /** Stepping a day forward and then back returns to the same date. */
  lemma PrevNext(d: Date)
    requires Valid(d)
    ensures PrevDay(NextDay(d)) == d
    ensures NextDay(PrevDay(d)) == d
  {
  }

  /** There is no date strictly between a date and the next one. */
  lemma NextDayIsNext(d: Date, e: Date)
    requires Valid(d) && Valid(e)
    requires Before(d, e)
    ensures NotAfter(NextDay(d), e)
  {
  }

  /** `d + timedelta(days=n)`. */
  function AddDays(d: Date, n: nat): (r: Date)
    requires Valid(d)
    ensures Valid(r)
    ensures n > 0 ==> Before(d, r)
  {
    if n == 0 then d else NextDay(AddDays(d, n - 1))
  }

  lemma BeforeTransitive(a: Date, b: Date, c: Date)
    requires Before(a, b) && Before(b, c)
    ensures Before(a, c)
  {
  }

  /** Adding more days gives a strictly later date. */
  lemma {:induction false} AddDaysMonotone(d: Date, m: nat, n: nat)
    requires Valid(d) && m < n
    ensures Before(AddDays(d, m), AddDays(d, n))
  {
    if n - 1 > m {
      AddDaysMonotone(d, m, n - 1);
      BeforeTransitive(AddDays(d, m), AddDays(d, n - 1), AddDays(d, n));
    }
  }

  lemma BeforeTotal(a: Date, b: Date)
    ensures a == b || Before(a, b) || Before(b, a)
    ensures !(Before(a, b) && Before(b, a))
  {
  }

  /** `date(year, month, 1)` for the first day of a month. */
  function FirstOfMonth(year: int, month: int): (r: Date)
    requires 1 <= month <= 12
    ensures Valid(r)
  {
    Date(year, month, 1)
  }

  /**
   * `d.isoformat()`: four-digit year, two-digit month and day. Python dates
   * end at 9999-12-31; past that the year here simply gets more digits.
   */
  function Iso(d: Date): (s: string)
    requires Valid(d) && 0 <= d.year
    ensures d.year <= 9999 ==> |s| == 10 && s[4] == '-' && s[7] == '-'
  {
    Text.ZeroPadValue(d.month, 2);
    Text.ZeroPadValue(d.day, 2);
    var s := Text.ZeroPad(d.year, 4) + "-" + Text.ZeroPad(d.month, 2) + "-" + Text.ZeroPad(d.day, 2);
    if d.year <= 9999 then Text.ZeroPadValue(d.year, 4); s else s
  }

  /** The text has the shape `dddd-dd-dd`. */
  predicate IsIsoShape(s: string) {
    |s| == 10 && s[4] == '-' && s[7] == '-'
    && forall i :: 0 <= i < 10 && i != 4 && i != 7 ==> Text.IsDigit(s[i])
  }

  /**
   * `datetime.strptime(s, "%Y-%m-%d").date()` for a string of the shape
   * `dddd-dd-dd`: the month must be 01..12 and the day must exist in that
   * month, otherwise parsing fails (`ValueError`, here `None`).
   */
  function ParseIso(s: string): (r: Option<Date>)
    ensures r.Some? ==> Valid(r.value) && IsIsoShape(s)
  {
    if !IsIsoShape(s) then None
    else
      var year := Text.DigitsValue(s[..4]);
      var month := Text.DigitsValue(s[5..7]);
      var day := Text.DigitsValue(s[8..]);
      if 1 <= month <= 12 && 1 <= day <= DaysInMonth(year, month) then Some(Date(year, month, day))
      else None
  }

  /** Reading back the ISO text of a date gives the date. */
  lemma ParseIsoOfIso(d: Date)
    requires Valid(d) && 0 <= d.year <= 9999
    ensures ParseIso(Iso(d)) == Some(d)
  {
    var y := Text.ZeroPad(d.year, 4);
    var m := Text.ZeroPad(d.month, 2);
    var dd := Text.ZeroPad(d.day, 2);
    Text.ZeroPadValue(d.year, 4);
    Text.ZeroPadValue(d.month, 2);
    Text.ZeroPadValue(d.day, 2);
    var s := Iso(d);
    assert s == y + "-" + m + "-" + dd;
    assert s[..4] == y;
    assert s[5..7] == m;
    assert s[8..] == dd;
  }

  /** Different valid dates have different ISO texts. */
  lemma IsoInjective(a: Date, b: Date)
    requires Valid(a) && 0 <= a.year <= 9999
    requires Valid(b) && 0 <= b.year <= 9999
    requires Iso(a) == Iso(b)
    ensures a == b
  {
    ParseIsoOfIso(a);
    ParseIsoOfIso(b);
  }
}
