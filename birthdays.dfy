/** Birthday arithmetic: `upcoming_birthdays` (on dates) and
    `Record.days_to_birthdate` (on a date and a time of day). "Today" and the
    time of day are parameters in place of `datetime.now()`. */
module Birthdays {
  import opened Wrappers
  import opened Calendar
  import opened Contacts

  /** The birthday moved to today's year, or to the next year when that date is
      already past: `bday.replace(year=today.year)`, then, if `today >
      next_birthday`, `next_birthday.replace(year=today.year + 1)`. Either
      replace can raise. */
  function NextBirthday(bday: CalendarDate, today: CalendarDate): Result<CalendarDate, DateError>
  {
    match Replace(bday, today.year)
    case Failure(e) => Failure(e)
    case Success(thisYear) =>
      if Ordinal(today) > Ordinal(thisYear) then Replace(thisYear, today.year + 1) else Success(thisYear)
  }

  /** The next occurrence is today or later, and less than a year-length away. */
  lemma NextBirthdayWithinYear(bday: CalendarDate, today: CalendarDate)
    requires NextBirthday(bday, today).Success?
    ensures 0 <= Ordinal(NextBirthday(bday, today).value) - Ordinal(today) <= 365
  {
    var thisYear := Replace(bday, today.year).value;
    OrdinalInYear(today);
    OrdinalInYear(thisYear);
    DaysBeforeNextYear(today.year);
    if Ordinal(today) > Ordinal(thisYear) {
      var next := Replace(thisYear, today.year + 1).value;
      OrdinalNextYear(thisYear, next);
      OrdinalInYear(next);
    }
  }

  /** `(next_birthday - today).days` of `upcoming_birthdays`: never negative and
      never more than 365. */
  function DaysUntilBirthday(bday: CalendarDate, today: CalendarDate): (r: Result<int, DateError>)
    ensures r.Success? ==> 0 <= r.value <= 365
    ensures r.Failure? <==> NextBirthday(bday, today).Failure?
  {
    match NextBirthday(bday, today)
    case Failure(e) => Failure(e)
    case Success(next) =>
      NextBirthdayWithinYear(bday, today);
      Success(Ordinal(next) - Ordinal(today))
  }

  /** The count is 0 exactly when the birthday falls on today's month and day. */
  lemma DaysUntilZero(bday: CalendarDate, today: CalendarDate)
    ensures DaysUntilBirthday(bday, today) == Success(0) <==> bday.month == today.month && bday.day == today.day
  {
    if bday.month == today.month && bday.day == today.day {
      DaysUntilZeroOnBirthday(bday, today);
    }
    if DaysUntilBirthday(bday, today) == Success(0) {
      DaysUntilZeroOnlyOnBirthday(bday, today);
    }
  }

  lemma DaysUntilZeroOnBirthday(bday: CalendarDate, today: CalendarDate)
    requires bday.month == today.month && bday.day == today.day
    ensures DaysUntilBirthday(bday, today) == Success(0)
  {
    assert Replace(bday, today.year) == Success(today);
    assert NextBirthday(bday, today) == Success(today);
  }

  lemma DaysUntilZeroOnlyOnBirthday(bday: CalendarDate, today: CalendarDate)
    requires DaysUntilBirthday(bday, today) == Success(0)
    ensures bday.month == today.month && bday.day == today.day
  {
    var thisYear := Replace(bday, today.year).value;
    assert thisYear.month == bday.month && thisYear.day == bday.day;
    if Ordinal(today) > Ordinal(thisYear) {
      var next := Replace(thisYear, today.year + 1).value;
      assert Ordinal(next) == Ordinal(today);
      OrdinalInYear(today);
      OrdinalInYear(next);
    } else {
      assert Ordinal(thisYear) == Ordinal(today);
      OrdinalInjectiveInYear(today, thisYear);
    }
  }

  /** A 29 February birthday has no next occurrence exactly when today's year
      is common, or when it is leap, the day has passed (March or later) and
      the next year is common. */
  lemma NextBirthdayLeapDay(bday: CalendarDate, today: CalendarDate)
    requires bday.month == 2 && bday.day == 29
    ensures NextBirthday(bday, today).Failure? <==>
              !IsLeapYear(today.year) || (today.month > 2 && !IsLeapYear(today.year + 1))
  {
    ReplaceFails(bday, today.year);
    if IsLeapYear(today.year) {
      var thisYear := Replace(bday, today.year).value;
      ReplaceFails(thisYear, today.year + 1);
      if today.month > 2 {
        DayOfYearMonotone(today.year, 2, 29, today.month, today.day);
      } else if today.day < 29 || today.month < 2 {
        DayOfYearMonotone(today.year, today.month, today.day, 2, 29);
      }
    }
  }

  /** `upcoming_birthdays(days)`: in dictionary order, the names of the records
      with a birthdate whose day count is at most `days`. The first raising
      replace aborts the whole call. The printing is left out. */
  function UpcomingBirthdays(values: seq<Contact>, today: CalendarDate, days: int): Result<seq<string>, DateError>
  {
    if values == [] then Success([])
    else
      var c := values[0];
      match c.birthdate
      case None => UpcomingBirthdays(values[1..], today, days)
      case Some(b) =>
        match DaysUntilBirthday(b, today)
        case Failure(e) => Failure(e)
        case Success(n) =>
          match UpcomingBirthdays(values[1..], today, days)
          case Failure(e) => Failure(e)
          case Success(names) => Success((if n <= days then [c.name] else []) + names)
  }

  /** Names come out in dictionary order: the result for a concatenation is the
      concatenation of the results, and it fails if either part fails. */
  lemma {:induction false} UpcomingConcat(a: seq<Contact>, b: seq<Contact>, today: CalendarDate, days: int)
    ensures UpcomingBirthdays(a + b, today, days).Success? <==>
              UpcomingBirthdays(a, today, days).Success? && UpcomingBirthdays(b, today, days).Success?
    ensures UpcomingBirthdays(a + b, today, days).Success? ==>
              UpcomingBirthdays(a + b, today, days).value ==
                UpcomingBirthdays(a, today, days).value + UpcomingBirthdays(b, today, days).value
    decreases |a|
  {
    if a == [] {
      assert a + b == b;
    } else {
      assert (a + b)[0] == a[0] && (a + b)[1..] == a[1..] + b;
      UpcomingConcat(a[1..], b, today, days);
      match a[0].birthdate
      case None =>
      case Some(bd) =>
        match DaysUntilBirthday(bd, today)
        case Failure(_) =>
        case Success(n) =>
          if UpcomingBirthdays(a + b, today, days).Success? {
            var head := if n <= days then [a[0].name] else [];
            assert head + (UpcomingBirthdays(a[1..], today, days).value + UpcomingBirthdays(b, today, days).value)
                == (head + UpcomingBirthdays(a[1..], today, days).value) + UpcomingBirthdays(b, today, days).value;
          }
    }
  }

  /** The call succeeds exactly when every recorded birthdate has a next occurrence. */
  lemma {:induction false} UpcomingSucceeds(values: seq<Contact>, today: CalendarDate, days: int)
    ensures UpcomingBirthdays(values, today, days).Success? <==>
              forall i :: 0 <= i < |values| && values[i].birthdate.Some? ==>
                DaysUntilBirthday(values[i].birthdate.value, today).Success?
    decreases |values|
  {
    if values != [] {
      UpcomingSucceeds(values[1..], today, days);
      assert forall i :: 1 <= i < |values| ==> values[i] == values[1..][i - 1];
    }
  }

  /** A 29 February birthdate makes the call raise whenever today's year is not
      a leap year. */
  lemma UpcomingFailsOnLeapDay(values: seq<Contact>, today: CalendarDate, days: int, i: nat)
    requires i < |values| && values[i].birthdate.Some?
    requires values[i].birthdate.value.month == 2 && values[i].birthdate.value.day == 29
    requires !IsLeapYear(today.year)
    ensures UpcomingBirthdays(values, today, days).Failure?
  {
    ReplaceFails(values[i].birthdate.value, today.year);
    UpcomingSucceeds(values, today, days);
  }

  /** The record has a birthdate on today's month and day. */
  predicate BornToday(c: Contact, today: CalendarDate)
  {
    c.birthdate.Some? && c.birthdate.value.month == today.month && c.birthdate.value.day == today.day
  }

  /** The names of the records whose birthday is today's month and day, in order. */
  function BornOn(values: seq<Contact>, today: CalendarDate): seq<string>
  {
    if values == [] then []
    else (if BornToday(values[0], today) then [values[0].name] else []) + BornOn(values[1..], today)
  }

  /** A name is listed exactly when some record of that name has its birthday today. */
  lemma {:induction false} BornOnNames(values: seq<Contact>, today: CalendarDate)
    ensures forall n :: n in BornOn(values, today) <==>
              exists i :: 0 <= i < |values| && values[i].name == n && BornToday(values[i], today)
    decreases |values|
  {
    if values != [] {
      BornOnNames(values[1..], today);
      var tail := values[1..];
      forall n ensures n in BornOn(values, today) <==>
                      exists i :: 0 <= i < |values| && values[i].name == n && BornToday(values[i], today) {
        if exists i :: 0 <= i < |values| && values[i].name == n && BornToday(values[i], today) {
          var i :| 0 <= i < |values| && values[i].name == n && BornToday(values[i], today);
          if i > 0 { assert tail[i - 1] == values[i]; }
        }
        if n in BornOn(tail, today) {
          var i :| 0 <= i < |tail| && tail[i].name == n && BornToday(tail[i], today);
          assert values[i + 1] == tail[i];
        }
      }
    } else {
      assert BornOn(values, today) == [];
    }
  }

  /** A window of 0 days keeps exactly the birthdays that are today. */
  lemma {:induction false} UpcomingWindowZero(values: seq<Contact>, today: CalendarDate)
    requires UpcomingBirthdays(values, today, 0).Success?
    ensures UpcomingBirthdays(values, today, 0).value == BornOn(values, today)
    decreases |values|
  {
    if values != [] {
      var c, tail := values[0], values[1..];
      var rest := UpcomingBirthdays(tail, today, 0);
      assert BornOn(values, today) == (if BornToday(c, today) then [c.name] else []) + BornOn(tail, today);
      if c.birthdate.Some? {
        var n := DaysUntilBirthday(c.birthdate.value, today);
        assert n.Success? && rest.Success?;
        assert UpcomingBirthdays(values, today, 0).value == (if n.value <= 0 then [c.name] else []) + rest.value;
        DaysUntilZero(c.birthdate.value, today);
        assert n.value <= 0 <==> BornToday(c, today);
      } else {
        assert UpcomingBirthdays(values, today, 0) == rest;
      }
      UpcomingWindowZero(tail, today);
    } else {
      assert UpcomingBirthdays(values, today, 0) == Success([]);
    }
  }

  const MicrosPerDay := 86_400_000_000

  /** Outcome of `days_to_birthdate`: the "Brak daty urodzenia" sentinel, a day
      count, or the ValueError a replace raises. */
  datatype Countdown = NoBirthdate | Days(days: int) | Raises(error: DateError)

  /** `(later - earlier).days` where earlier is `micros` microseconds past its
      midnight and later is at midnight: timedelta floors to whole days. */
  function WholeDaysBetween(earlier: CalendarDate, micros: int, later: CalendarDate): int
  {
    ((Ordinal(later) - Ordinal(earlier)) * MicrosPerDay - micros) / MicrosPerDay
  }

  lemma WholeDaysFloor(earlier: CalendarDate, micros: int, later: CalendarDate)
    requires 0 <= micros < MicrosPerDay
    ensures WholeDaysBetween(earlier, micros, later) ==
              if micros == 0 then Ordinal(later) - Ordinal(earlier) else Ordinal(later) - Ordinal(earlier) - 1
  {
    var d := Ordinal(later) - Ordinal(earlier);
    if micros > 0 {
      assert d * MicrosPerDay - micros == (d - 1) * MicrosPerDay + (MicrosPerDay - micros);
    }
  }

  /** `Record.days_to_birthdate` as written: `today` is `datetime.now()`, a date
      plus `micros` microseconds of the day, compared against the birthday at
      midnight. */
  function DaysToBirthdate(birthdate: Option<CalendarDate>, today: CalendarDate, micros: int): Countdown
    requires 0 <= micros < MicrosPerDay
  {
    match birthdate
    case None => NoBirthdate
    case Some(b) =>
      match Replace(b, today.year)
      case Failure(e) => Raises(e)
      case Success(thisYear) =>
        if Ordinal(today) > Ordinal(thisYear) || (Ordinal(today) == Ordinal(thisYear) && micros > 0) then
          match Replace(thisYear, today.year + 1)
          case Failure(e) => Raises(e)
          case Success(next) => Days(WholeDaysBetween(today, micros, next))
        else Days(WholeDaysBetween(today, micros, thisYear))
  }

  /** At exactly midnight the record's count is the date-based count of `upcoming_birthdays`. */
  lemma DaysToBirthdateAtMidnight(b: CalendarDate, today: CalendarDate)
    ensures DaysToBirthdate(Some(b), today, 0) ==
              match DaysUntilBirthday(b, today)
              case Success(n) => Days(n)
              case Failure(e) => Raises(e)
  {
    if Replace(b, today.year).Success? {
      var thisYear := Replace(b, today.year).value;
      var target := if Ordinal(today) > Ordinal(thisYear) then Replace(thisYear, today.year + 1) else Success(thisYear);
      if target.Success? {
        WholeDaysFloor(today, 0, target.value);
      }
    }
  }

  /** Any later in the day, a birthday n > 0 days ahead is reported as n - 1. */
  lemma DaysToBirthdateAfterMidnight(b: CalendarDate, today: CalendarDate, micros: int)
    requires 0 < micros < MicrosPerDay
    requires DaysUntilBirthday(b, today).Success? && DaysUntilBirthday(b, today).value > 0
    ensures DaysToBirthdate(Some(b), today, micros) == Days(DaysUntilBirthday(b, today).value - 1)
  {
    var thisYear := Replace(b, today.year).value;
    var next := NextBirthday(b, today).value;
    WholeDaysFloor(today, micros, next);
  }

  /** On the birthday itself, any later than midnight, the record reports 364
      or 365 days instead of 0. */
  lemma DaysToBirthdateOnBirthday(b: CalendarDate, today: CalendarDate, micros: int)
    requires 0 < micros < MicrosPerDay
    requires b.month == today.month && b.day == today.day
    requires !(b.month == 2 && b.day == 29) && today.year < MaxYear
    ensures DaysToBirthdate(Some(b), today, micros).Days?
    ensures 364 <= DaysToBirthdate(Some(b), today, micros).days <= 365
    ensures DaysUntilBirthday(b, today) == Success(0)
  {
    DaysUntilZero(b, today);
    assert Replace(b, today.year) == Success(today);
    var next := Replace(today, today.year + 1).value;
    OrdinalNextYear(today, next);
    WholeDaysFloor(today, micros, next);
  }

  /** A 29 February birthday, on 29 February itself, any later than midnight:
      the record moves the birthday into the next year, which is common, so the
      replace raises where the date-based count is 0. */
  lemma DaysToBirthdateOnLeapDay(b: CalendarDate, today: CalendarDate, micros: int)
    requires 0 < micros < MicrosPerDay
    requires b.month == 2 && b.day == 29 && today.month == 2 && today.day == 29
    ensures DaysToBirthdate(Some(b), today, micros) == Raises(DayOutOfRange)
    ensures DaysUntilBirthday(b, today) == Success(0)
  {
    DaysUntilZero(b, today);
    assert Replace(b, today.year) == Success(today);
    assert !IsLeapYear(today.year + 1);
  }
}
