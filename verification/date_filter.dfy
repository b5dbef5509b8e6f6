/**
 * The date catalog. Dates are compared through dayjs, which this model does
 * not contain; in its place stands the following assumption about it:
 *   - an instant dayjs can represent is `Valid(minutes since the epoch)`,
 *     anything else is `Invalid`;
 *   - `dayjs(null)` and `dayjs(Number.MAX_VALUE)` are `Invalid`, and
 *     `dayjs(Number.MIN_VALUE)` (5e-324 ms) is the epoch, `Valid(0)`;
 *   - `isSame`, `isBefore`, `isAfter`, `isSameOrBefore` and `isSameOrAfter`
 *     at a granularity compare both instants truncated to that unit, and are
 *     false whenever either instant is `Invalid`;
 *   - days are counted from the epoch in UTC.
 * How dayjs parses a non-null filter string is left open: it is the
 * parameter `parse`.
 */
module DateFilter {
  import opened Wrappers
  import Operators

  datatype Instant = Valid(minutes: int) | Invalid

  datatype Unit = Minute | Day

  const MinutesPerDay: int := 1440

  /** The comparison unit: minutes when the filter shows the time, days otherwise. */
  function UnitOf(withTime: bool): (u: Unit)
    ensures u == Minute <==> withTime
  {
    if withTime then Minute else Day
  }

  /** The number of whole units since the epoch. */
  function Truncate(minutes: int, u: Unit): int
  {
    match u
    case Minute => minutes
    case Day => minutes / MinutesPerDay
  }

  /** The number of minutes in one unit. */
  function UnitLength(u: Unit): int
  {
    match u
    case Minute => 1
    case Day => MinutesPerDay
  }

  /** dayjs `startOf(unit)`: the first minute of the unit that holds `minutes`. */
  function StartOf(minutes: int, u: Unit): int
  {
    Truncate(minutes, u) * UnitLength(u)
  }

  /** dayjs `endOf(unit)`: the last minute of the unit that holds `minutes`. */
  function EndOf(minutes: int, u: Unit): int
  {
    StartOf(minutes, u) + UnitLength(u) - 1
  }

  /** Comparing truncated minutes is comparing against the first and last
      minute of a unit. */
  lemma UnitBounds(m: int, n: int, u: Unit)
    ensures Truncate(n, u) == Truncate(m, u) <==> StartOf(m, u) <= n <= EndOf(m, u)
    ensures Truncate(n, u) < Truncate(m, u) <==> n < StartOf(m, u)
    ensures Truncate(m, u) < Truncate(n, u) <==> EndOf(m, u) < n
  {
    if u == Day {
      var k, q := m / MinutesPerDay, n / MinutesPerDay;
      assert k * MinutesPerDay <= m < k * MinutesPerDay + MinutesPerDay;
      assert q * MinutesPerDay <= n < q * MinutesPerDay + MinutesPerDay;
      MulBounds(q - k, MinutesPerDay);
    }
  }

  /** `UnitBounds` both ways round, for two instants. */
  lemma InstantBounds(a: Instant, b: Instant, u: Unit)
    ensures a.Valid? && b.Valid? ==>
      && (Truncate(a.minutes, u) == Truncate(b.minutes, u) <==> StartOf(a.minutes, u) <= b.minutes <= EndOf(a.minutes, u))
      && (Truncate(a.minutes, u) == Truncate(b.minutes, u) <==> StartOf(b.minutes, u) <= a.minutes <= EndOf(b.minutes, u))
      && (Truncate(a.minutes, u) < Truncate(b.minutes, u) <==> a.minutes < StartOf(b.minutes, u))
      && (Truncate(a.minutes, u) < Truncate(b.minutes, u) <==> EndOf(a.minutes, u) < b.minutes)
  {
    if a.Valid? && b.Valid? {
      UnitBounds(a.minutes, b.minutes, u);
      UnitBounds(b.minutes, a.minutes, u);
    }
  }

  /** dayjs `a.isSame(b, unit)`: `b` lies between the start and the end of `a`'s unit. */
  function IsSame(a: Instant, b: Instant, u: Unit): (r: bool)
    ensures r <==> a.Valid? && b.Valid? && StartOf(a.minutes, u) <= b.minutes <= EndOf(a.minutes, u)
  {
    InstantBounds(a, b, u);
    a.Valid? && b.Valid? && Truncate(a.minutes, u) == Truncate(b.minutes, u)
  }

  /** dayjs `a.isBefore(b, unit)`: the end of `a`'s unit is before `b`. */
  function IsBefore(a: Instant, b: Instant, u: Unit): (r: bool)
    ensures r <==> a.Valid? && b.Valid? && EndOf(a.minutes, u) < b.minutes
  {
    InstantBounds(a, b, u);
    a.Valid? && b.Valid? && Truncate(a.minutes, u) < Truncate(b.minutes, u)
  }

  /** dayjs `a.isAfter(b, unit)`: `b` is before the start of `a`'s unit. */
  function IsAfter(a: Instant, b: Instant, u: Unit): (r: bool)
    ensures r <==> a.Valid? && b.Valid? && b.minutes < StartOf(a.minutes, u)
  {
    InstantBounds(b, a, u);
    IsBefore(b, a, u)
  }

  /** dayjs `a.isSameOrBefore(b, unit)`: `a`'s unit is at or before `b`'s. */
  function IsSameOrBefore(a: Instant, b: Instant, u: Unit): (r: bool)
    ensures r <==> a.Valid? && b.Valid? && Truncate(a.minutes, u) <= Truncate(b.minutes, u)
  {
    InstantBounds(a, b, u);
    IsSame(a, b, u) || IsBefore(a, b, u)
  }

  /** dayjs `a.isSameOrAfter(b, unit)`: `a`'s unit is at or after `b`'s. */
  function IsSameOrAfter(a: Instant, b: Instant, u: Unit): (r: bool)
    ensures r <==> a.Valid? && b.Valid? && Truncate(a.minutes, u) >= Truncate(b.minutes, u)
  {
    InstantBounds(a, b, u);
    InstantBounds(b, a, u);
    IsSame(a, b, u) || IsAfter(a, b, u)
  }

  /** Two valid instants are in exactly one of the three orders; an invalid one is in none. */
  lemma Trichotomy(a: Instant, b: Instant, u: Unit)
    ensures a.Valid? && b.Valid? ==>
      (IsSame(a, b, u) || IsBefore(a, b, u) || IsAfter(a, b, u))
      && !(IsSame(a, b, u) && IsBefore(a, b, u))
      && !(IsSame(a, b, u) && IsAfter(a, b, u))
      && !(IsBefore(a, b, u) && IsAfter(a, b, u))
    ensures a.Invalid? || b.Invalid? ==>
      !IsSame(a, b, u) && !IsBefore(a, b, u) && !IsAfter(a, b, u)
      && !IsSameOrBefore(a, b, u) && !IsSameOrAfter(a, b, u)
  {
  }

  /** A date filter value: one nullable date string, or a [start, end] pair of them. */
  datatype DateValue = Scalar(value: Option<string>) | Range(start: Option<string>, end: Option<string>)

  /** JavaScript truthiness of a value: an array always, a string when non-empty, never null. */
  predicate Truthy(v: DateValue)
  {
    match v
    case Range(_, _) => true
    case Scalar(s) => s.Some? && s.value != ""
  }

  /** `dayjs(s)` for a nullable string. */
  function ToInstant(s: Option<string>, parse: string -> Instant): (t: Instant)
    ensures s.None? ==> t.Invalid?
  {
    match s
    case None => Invalid
    case Some(str) => parse(str)
  }

  /** `dayjs(Number.MIN_VALUE)`: the epoch. */
  const LeftSentinel: Instant := Valid(0)

  /** `dayjs(Number.MAX_VALUE)`: out of range, hence invalid. */
  const RightSentinel: Instant := Invalid

  /** The instant the operators compare a row against: the start of a range,
      and for a single date the fixed epoch sentinel, whatever the date is. */
  function GetLeftValue(v: DateValue, parse: string -> Instant): (t: Instant)
    ensures v.Scalar? ==> t == Valid(0)
    ensures v.Range? ==> t == ToInstant(v.start, parse)
  {
    if v.Range? then ToInstant(v.start, parse) else LeftSentinel
  }

  /** The upper bound of `range`: the end of a range, and an invalid instant for a single date. */
  function GetRightValue(v: DateValue, parse: string -> Instant): (t: Instant)
    ensures v.Scalar? ==> t.Invalid?
    ensures v.Range? ==> t == ToInstant(v.end, parse)
  {
    if v.Range? then ToInstant(v.end, parse) else RightSentinel
  }

  /** `equals`: the row lies in the same minute or day as the compared instant. */
  function Equals(row: Instant, v: DateValue, withTime: bool, parse: string -> Instant): (b: bool)
    ensures b <==>
      var left, u := GetLeftValue(v, parse), UnitOf(withTime);
      row.Valid? && left.Valid? && StartOf(left.minutes, u) <= row.minutes <= EndOf(left.minutes, u)
  {
    InstantBounds(row, GetLeftValue(v, parse), UnitOf(withTime));
    IsSame(row, GetLeftValue(v, parse), UnitOf(withTime))
  }

  /** `notEquals`: the negation of `equals`, so it also keeps rows that are invalid. */
  function NotEquals(row: Instant, v: DateValue, withTime: bool, parse: string -> Instant): (b: bool)
    ensures b <==>
      var left, u := GetLeftValue(v, parse), UnitOf(withTime);
      !(row.Valid? && left.Valid?) || row.minutes < StartOf(left.minutes, u) || EndOf(left.minutes, u) < row.minutes
  {
    !Equals(row, v, withTime, parse)
  }

  /** `greaterThan`: the row is after the last minute of the compared unit. */
  function GreaterThan(row: Instant, v: DateValue, withTime: bool, parse: string -> Instant): (b: bool)
    ensures b <==>
      var left, u := GetLeftValue(v, parse), UnitOf(withTime);
      row.Valid? && left.Valid? && EndOf(left.minutes, u) < row.minutes
  {
    InstantBounds(GetLeftValue(v, parse), row, UnitOf(withTime));
    IsAfter(row, GetLeftValue(v, parse), UnitOf(withTime))
  }

  /** `greaterThanOrEquals`: the row is at or after the first minute of the compared unit. */
  function GreaterThanOrEquals(row: Instant, v: DateValue, withTime: bool, parse: string -> Instant): (b: bool)
    ensures b <==>
      var left, u := GetLeftValue(v, parse), UnitOf(withTime);
      row.Valid? && left.Valid? && StartOf(left.minutes, u) <= row.minutes
  {
    InstantBounds(row, GetLeftValue(v, parse), UnitOf(withTime));
    IsSameOrAfter(row, GetLeftValue(v, parse), UnitOf(withTime))
  }

  /** `lowerThan`: the row is before the first minute of the compared unit. */
  function LowerThan(row: Instant, v: DateValue, withTime: bool, parse: string -> Instant): (b: bool)
    ensures b <==>
      var left, u := GetLeftValue(v, parse), UnitOf(withTime);
      row.Valid? && left.Valid? && row.minutes < StartOf(left.minutes, u)
  {
    InstantBounds(row, GetLeftValue(v, parse), UnitOf(withTime));
    IsBefore(row, GetLeftValue(v, parse), UnitOf(withTime))
  }

  /** `lowerThanOrEquals`: the row is at or before the last minute of the compared unit. */
  function LowerThanOrEquals(row: Instant, v: DateValue, withTime: bool, parse: string -> Instant): (b: bool)
    ensures b <==>
      var left, u := GetLeftValue(v, parse), UnitOf(withTime);
      row.Valid? && left.Valid? && row.minutes <= EndOf(left.minutes, u)
  {
    InstantBounds(GetLeftValue(v, parse), row, UnitOf(withTime));
    IsSameOrBefore(row, GetLeftValue(v, parse), UnitOf(withTime))
  }

  /** `range`: the row lies from the first minute of the start's unit to the
      last minute of the end's unit. */
  function InRange(row: Instant, v: DateValue, withTime: bool, parse: string -> Instant): (b: bool)
    ensures b <==>
      var lo, hi, u := GetLeftValue(v, parse), GetRightValue(v, parse), UnitOf(withTime);
      row.Valid? && lo.Valid? && hi.Valid? && StartOf(lo.minutes, u) <= row.minutes <= EndOf(hi.minutes, u)
  {
    var lo, hi, u := GetLeftValue(v, parse), GetRightValue(v, parse), UnitOf(withTime);
    InstantBounds(row, lo, u);
    InstantBounds(hi, row, u);
    IsSameOrBefore(lo, row, u) && IsSameOrBefore(row, hi, u)
  }

  /** `notEquals` is the exact negation of `equals`; so, unlike every other operator,
      it accepts rows whose date is invalid. */
  lemma NotEqualsNegates(row: Instant, v: DateValue, withTime: bool, parse: string -> Instant)
    ensures NotEquals(row, v, withTime, parse) <==> !Equals(row, v, withTime, parse)
    ensures row.Invalid? ==> NotEquals(row, v, withTime, parse)
  {
  }

  /** With `withTime` the six single-value operators compare whole minutes;
      without it, calendar days. */
  lemma Granularity(row: Instant, v: DateValue, withTime: bool, parse: string -> Instant)
    ensures Equals(row, v, withTime, parse) <==>
      var left := GetLeftValue(v, parse);
      && row.Valid? && left.Valid?
      && (if withTime then row.minutes == left.minutes
          else row.minutes / MinutesPerDay == left.minutes / MinutesPerDay)
    ensures LowerThan(row, v, withTime, parse) <==>
      var left := GetLeftValue(v, parse);
      && row.Valid? && left.Valid?
      && (if withTime then row.minutes < left.minutes
          else row.minutes / MinutesPerDay < left.minutes / MinutesPerDay)
    ensures GreaterThan(row, v, withTime, parse) <==>
      var left := GetLeftValue(v, parse);
      && row.Valid? && left.Valid?
      && (if withTime then row.minutes > left.minutes
          else row.minutes / MinutesPerDay > left.minutes / MinutesPerDay)
    ensures GreaterThanOrEquals(row, v, withTime, parse) <==>
      var left := GetLeftValue(v, parse);
      && row.Valid? && left.Valid?
      && (if withTime then row.minutes >= left.minutes
          else row.minutes / MinutesPerDay >= left.minutes / MinutesPerDay)
    ensures LowerThanOrEquals(row, v, withTime, parse) <==>
      var left := GetLeftValue(v, parse);
      && row.Valid? && left.Valid?
      && (if withTime then row.minutes <= left.minutes
          else row.minutes / MinutesPerDay <= left.minutes / MinutesPerDay)
    ensures NotEquals(row, v, withTime, parse) <==>
      var left := GetLeftValue(v, parse);
      || !(row.Valid? && left.Valid?)
      || (if withTime then row.minutes != left.minutes
          else row.minutes / MinutesPerDay != left.minutes / MinutesPerDay)
  {
  }

  /** Without `withTime`, two rows on the same calendar day are treated alike by every operator. */
  lemma SameDayRowsAgree(m1: int, m2: int, v: DateValue, parse: string -> Instant)
    requires m1 / MinutesPerDay == m2 / MinutesPerDay
    ensures Equals(Valid(m1), v, false, parse) == Equals(Valid(m2), v, false, parse)
    ensures NotEquals(Valid(m1), v, false, parse) == NotEquals(Valid(m2), v, false, parse)
    ensures GreaterThan(Valid(m1), v, false, parse) == GreaterThan(Valid(m2), v, false, parse)
    ensures GreaterThanOrEquals(Valid(m1), v, false, parse) == GreaterThanOrEquals(Valid(m2), v, false, parse)
    ensures LowerThan(Valid(m1), v, false, parse) == LowerThan(Valid(m2), v, false, parse)
    ensures LowerThanOrEquals(Valid(m1), v, false, parse) == LowerThanOrEquals(Valid(m2), v, false, parse)
    ensures InRange(Valid(m1), v, false, parse) == InRange(Valid(m2), v, false, parse)
  {
  }

  /** With `withTime`, a row one minute after a matching row no longer matches `equals`;
      without it, a row one day after does not. */
  lemma OneUnitApart(m: int, v: DateValue, parse: string -> Instant)
    ensures Equals(Valid(m), v, true, parse) ==> !Equals(Valid(m + 1), v, true, parse)
    ensures Equals(Valid(m), v, false, parse) ==> !Equals(Valid(m + MinutesPerDay), v, false, parse)
  {
  }

  /** For a single-date filter value every scalar operator compares the row with the
      epoch sentinel, so the value entered plays no part in the outcome. */
  lemma ScalarIgnoresValue(row: Instant, s1: Option<string>, s2: Option<string>, withTime: bool,
                           p1: string -> Instant, p2: string -> Instant)
    ensures Equals(row, Scalar(s1), withTime, p1) == Equals(row, Scalar(s2), withTime, p2)
    ensures NotEquals(row, Scalar(s1), withTime, p1) == NotEquals(row, Scalar(s2), withTime, p2)
    ensures GreaterThan(row, Scalar(s1), withTime, p1) == GreaterThan(row, Scalar(s2), withTime, p2)
    ensures GreaterThanOrEquals(row, Scalar(s1), withTime, p1) == GreaterThanOrEquals(row, Scalar(s2), withTime, p2)
    ensures LowerThan(row, Scalar(s1), withTime, p1) == LowerThan(row, Scalar(s2), withTime, p2)
    ensures LowerThanOrEquals(row, Scalar(s1), withTime, p1) == LowerThanOrEquals(row, Scalar(s2), withTime, p2)
    ensures Equals(row, Scalar(s1), withTime, p1) <==> IsSame(row, Valid(0), UnitOf(withTime))
  {
  }

  /** `range` holds exactly when both bounds and the row are valid and
      start <= row <= end at the chosen unit; a single date or a missing
      bound therefore matches no row. */
  lemma RangeInclusive(row: Instant, v: DateValue, withTime: bool, parse: string -> Instant)
    ensures InRange(row, v, withTime, parse) <==>
      && v.Range?
      && var lo, hi, u := ToInstant(v.start, parse), ToInstant(v.end, parse), UnitOf(withTime);
      && lo.Valid? && hi.Valid? && row.Valid?
      && Truncate(lo.minutes, u) <= Truncate(row.minutes, u) <= Truncate(hi.minutes, u)
    ensures v.Scalar? || (v.Range? && (v.start.None? || v.end.None?)) ==> !InRange(row, v, withTime, parse)
  {
  }

  /** Both bounds of a range are inclusive. */
  lemma RangeBoundsInclusive(lo: string, hi: string, withTime: bool, parse: string -> Instant)
    requires parse(lo).Valid? && parse(hi).Valid?
    requires IsSameOrBefore(parse(lo), parse(hi), UnitOf(withTime))
    ensures InRange(parse(lo), Range(Some(lo), Some(hi)), withTime, parse)
    ensures InRange(parse(hi), Range(Some(lo), Some(hi)), withTime, parse)
  {
  }

  /** The value a date filter starts from when its operator changes. `range`
      keeps a previous range and otherwise starts from an empty range; any other
      operator keeps a previous non-empty date and otherwise starts from null. */
  function InitDateFilterValue(op: string, last: Option<DateValue>): (r: DateValue)
    ensures r.Range? <==> op == "range"
    ensures op == "range" && last.Some? && last.value.Range? ==> r == last.value
    ensures op == "range" && !(last.Some? && last.value.Range?) ==> r == Range(None, None)
    ensures op != "range" && last.Some? && last.value.Scalar? && Truthy(last.value) ==> r == last.value
    ensures op != "range" && !(last.Some? && last.value.Scalar? && Truthy(last.value)) ==> r == Scalar(None)
  {
    if op == "range" then
      if last.Some? && Truthy(last.value) && last.value.Range? then last.value else Range(None, None)
    else
      if last.Some? && Truthy(last.value) && !last.value.Range? then last.value else Scalar(None)
  }

  /** Re-initialising for the same operator changes nothing. */
  lemma InitIdempotent(op: string, last: Option<DateValue>)
    ensures InitDateFilterValue(op, Some(InitDateFilterValue(op, last))) == InitDateFilterValue(op, last)
  {
  }

  /** Switching between single-date and range operators carries no date across:
      a previous date is not the start of the new range, and a previous range's
      start is not the new date. */
  lemma ShapeSwitchDiscards(op: string, s: Option<string>, lo: Option<string>, hi: Option<string>)
    requires op != "range"
    ensures InitDateFilterValue("range", Some(Scalar(s))) == Range(None, None)
    ensures InitDateFilterValue(op, Some(Range(lo, hi))) == Scalar(None)
  {
  }

  /** The value shape an operator expects. */
  predicate ShapeFits(op: string, v: DateValue)
  {
    v.Range? <==> op == "range"
  }

  /** A value that already has the operator's shape is kept, except that an
      empty date string becomes null. */
  lemma InitKeepsFittingValue(op: string, v: DateValue)
    requires ShapeFits(op, v)
    ensures v != Scalar(Some("")) ==> InitDateFilterValue(op, Some(v)) == v
    ensures v == Scalar(Some("")) ==> InitDateFilterValue(op, Some(v)) == Scalar(None)
  {
  }

  /** A JavaScript `Date`: milliseconds since the epoch. */
  type Millis = int

  const MsPerMinute: int := 60_000
  const MsPerHour: int := 3_600_000
  const MsPerDay: int := 86_400_000

  function DayOf(t: Millis): int { t / MsPerDay }
  function HourOf(t: Millis): int { (t % MsPerDay) / MsPerHour }
  function MinuteOf(t: Millis): int { (t % MsPerHour) / MsPerMinute }

  /** A multiple of `d` strictly between `-d` and `d` is zero. */
  lemma MulBounds(k: int, d: int)
    requires d > 0
    ensures k >= 1 ==> k * d >= d
    ensures k <= -1 ==> k * d <= -d
  {
  }

  /** `x * d + y` splits back into `x` and `y` under division by `d`. */
  lemma DivModUnique(x: int, y: int, d: int)
    requires d > 0 && 0 <= y < d
    ensures (x * d + y) / d == x && (x * d + y) % d == y
  {
    var n := x * d + y;
    var q, r := n / d, n % d;
    assert (x - q) * d == r - y;
    MulBounds(x - q, d);
  }

  /** `date` with its hour and minute replaced by those of `time`: the
      calendar day and the seconds of `date` are kept. */
  function SetHourMinute(time: Millis, date: Millis): (c: Millis)
    ensures DayOf(c) == DayOf(date)
    ensures HourOf(c) == HourOf(time)
    ensures MinuteOf(c) == MinuteOf(time)
    ensures c % MsPerMinute == date % MsPerMinute
  {
    var h, m, sub := HourOf(time), MinuteOf(time), date % MsPerMinute;
    var inHour := m * MsPerMinute + sub;
    var inDay := h * MsPerHour + inHour;
    var c := DayOf(date) * MsPerDay + inDay;
    assert 0 <= h < 24 && 0 <= m < 60 && 0 <= sub < MsPerMinute;
    assert 0 <= inHour < MsPerHour;
    assert 0 <= inDay < MsPerDay;
    DivModUnique(DayOf(date), inDay, MsPerDay);
    DivModUnique(h, inHour, MsPerHour);
    assert c == (DayOf(date) * 24 + h) * MsPerHour + inHour;
    DivModUnique(DayOf(date) * 24 + h, inHour, MsPerHour);
    DivModUnique(m, sub, MsPerMinute);
    assert c == ((DayOf(date) * 24 + h) * 60 + m) * MsPerMinute + sub;
    DivModUnique((DayOf(date) * 24 + h) * 60 + m, sub, MsPerMinute);
    c
  }

  /** Puts the hour and minute of `time` onto `date`; when one of them is
      missing the other is returned as it is. */
  function CombineTimeAndDate(time: Option<Millis>, date: Option<Millis>): (r: Option<Millis>)
    ensures time.None? && date.None? ==> r.None?
    ensures time.None? ==> r == date
    ensures date.None? ==> r == time
    ensures time.Some? && date.Some? ==>
      && r.Some?
      && DayOf(r.value) == DayOf(date.value)
      && HourOf(r.value) == HourOf(time.value)
      && MinuteOf(r.value) == MinuteOf(time.value)
      && r.value % MsPerMinute == date.value % MsPerMinute
  {
    if time.None? && date.None? then None
    else if time.None? then date
    else if date.None? then time
    else
      Some(SetHourMinute(time.value, date.value))
  }

  /** The default operators, in display order, comparing at the given unit. */
  function DateOperators(withTime: bool, parse: string -> Instant): (ops: seq<Operators.Operator<Instant, DateValue>>)
    ensures Operators.Codes(ops) == ["eq", "neq", "gt", "gte", "lt", "lte", "range"]
    ensures Operators.DistinctCodes(ops)
    ensures forall row, v :: ops[0].filter(row, v) == Equals(row, v, withTime, parse)
    ensures forall row, v :: ops[1].filter(row, v) == NotEquals(row, v, withTime, parse)
    ensures forall row, v :: ops[2].filter(row, v) == GreaterThan(row, v, withTime, parse)
    ensures forall row, v :: ops[3].filter(row, v) == GreaterThanOrEquals(row, v, withTime, parse)
    ensures forall row, v :: ops[4].filter(row, v) == LowerThan(row, v, withTime, parse)
    ensures forall row, v :: ops[5].filter(row, v) == LowerThanOrEquals(row, v, withTime, parse)
    ensures forall row, v :: ops[6].filter(row, v) == InRange(row, v, withTime, parse)
  {
    var codes := ["eq", "neq", "gt", "gte", "lt", "lte", "range"];
    var ops := [
      Operators.Operator("eq", "equals", (row, v) => Equals(row, v, withTime, parse)),
      Operators.Operator("neq", "not equals", (row, v) => NotEquals(row, v, withTime, parse)),
      Operators.Operator("gt", "GreaterThan", (row, v) => GreaterThan(row, v, withTime, parse)),
      Operators.Operator("gte", "GreaterThanOrEquals", (row, v) => GreaterThanOrEquals(row, v, withTime, parse)),
      Operators.Operator("lt", "LowerThan", (row, v) => LowerThan(row, v, withTime, parse)),
      Operators.Operator("lte", "LowerThanOrEquals", (row, v) => LowerThanOrEquals(row, v, withTime, parse)),
      Operators.Operator("range", "Range", (row, v) => InRange(row, v, withTime, parse))
    ];
    assert Operators.Distinct(codes);
    Operators.CatalogCodes(ops, codes);
    ops
  }

  /** The default date filter: the seven operators, comparing calendar days. */
  function DateCatalog(parse: string -> Instant): (ops: seq<Operators.Operator<Instant, DateValue>>)
    ensures Operators.Codes(ops) == ["eq", "neq", "gt", "gte", "lt", "lte", "range"]
    ensures Operators.DistinctCodes(ops)
    ensures forall row, v :: ops[0].filter(row, v) == Equals(row, v, false, parse)
    ensures forall row, v :: ops[1].filter(row, v) == NotEquals(row, v, false, parse)
    ensures forall row, v :: ops[2].filter(row, v) == GreaterThan(row, v, false, parse)
    ensures forall row, v :: ops[3].filter(row, v) == GreaterThanOrEquals(row, v, false, parse)
    ensures forall row, v :: ops[4].filter(row, v) == LowerThan(row, v, false, parse)
    ensures forall row, v :: ops[5].filter(row, v) == LowerThanOrEquals(row, v, false, parse)
    ensures forall row, v :: ops[6].filter(row, v) == InRange(row, v, false, parse)
    ensures forall row, v :: ops[0].filter(row, v) <==> IsSame(row, GetLeftValue(v, parse), Day)
  {
    DateOperators(false, parse)
  }
}
