/**
  `calculate_days`: when an equipment is next due and how many days remain,
  from its current maintenance event. The current time is a parameter.
 */
module DueDate {
  import opened Wrappers
  import opened Dates
  import opened Records
  import opened Document
  import opened Queries

  const MicrosPerDay: int := 86_400_000_000

  /** The value of `datetime.now()`: a day and the microseconds elapsed since its midnight. */
  datatype Clock = Clock(today: Date, micros: int)

  predicate ValidClock(c: Clock) {
    ValidDate(c.today) && 0 <= c.micros < MicrosPerDay
  }

  /**
    `(due - now).days` for a due date at midnight: the difference in
    microseconds, floored to whole days as Python's `timedelta` keeps it.
   */
  function DaysUntil(due: Date, now: Clock): int {
    ((Ordinal(due) - Ordinal(now.today)) * MicrosPerDay - now.micros) / MicrosPerDay
  }

  /** Whole days from now to a due date: one less than the calendar difference once past midnight. */
  lemma DaysUntilValue(due: Date, now: Clock)
    requires ValidClock(now)
    ensures DaysUntil(due, now) == Ordinal(due) - Ordinal(now.today) - (if now.micros > 0 then 1 else 0)
  {
    var k := Ordinal(due) - Ordinal(now.today);
    var q := k - (if now.micros > 0 then 1 else 0);
    FloorDiv(k * MicrosPerDay - now.micros, q);
  }

  lemma FloorDiv(a: int, q: int)
    requires q * MicrosPerDay <= a < q * MicrosPerDay + MicrosPerDay
    ensures a / MicrosPerDay == q
  {
  }

  /**
    The next due date: the current event's date plus its interval, or None
    where the source gives up: no equipment, no event, an empty date, a zero
    interval, a date that does not parse, or a result outside Python's
    date range.
   */
  function NextDue(data: Option<EquipoData>): (r: Option<Date>)
    ensures r.Some? ==> ValidDate(r.value)
  {
    if data.None? || data.value.date.None? || data.value.date.value == []
       || data.value.freq.None? || data.value.freq.value == 0
    then None
    else
      match Parse(data.value.date.value)
      case None => None
      case Some(last) =>
        FormatParse(data.value.date.value);
        AddDaysOrdinal(last, data.value.freq.value);
        AddDays(last, data.value.freq.value)
  }

  /** `calculate_days`: (days remaining, next due date as DD/MM/YYYY), None for the source's (None, None). */
  function CalculateDays(data: Option<EquipoData>, now: Clock): Option<(int, string)> {
    match NextDue(data)
    case None => None
    case Some(next) => Some((DaysUntil(next, now), Display(next)))
  }

  /**
    An answer comes exactly when the current event has a non-empty parsable
    date and a non-zero interval landing inside Python's date range; the due
    date is then that many days after the event, shown as DD/MM/YYYY, and
    the days remaining are the calendar days from today to it, one fewer
    once the day has begun.
   */
  lemma CalculateDaysSpec(data: Option<EquipoData>, now: Clock)
    requires ValidClock(now)
    ensures var r := CalculateDays(data, now);
      && (r.Some? <==>
            && data.Some? && data.value.date.Some? && data.value.date.value != []
            && data.value.freq.Some? && data.value.freq.value != 0
            && Parse(data.value.date.value).Some?
            && 1 <= Ordinal(Parse(data.value.date.value).value) + data.value.freq.value <= MaxOrdinal)
      && (r.Some? ==>
            var last := Parse(data.value.date.value).value;
            var next := NextDue(data).value;
            && Ordinal(next) == Ordinal(last) + data.value.freq.value
            && r.value.1 == Display(next)
            && r.value.0 == Ordinal(last) + data.value.freq.value - Ordinal(now.today)
                              - (if now.micros > 0 then 1 else 0))
  {
    var r := CalculateDays(data, now);
    if data.Some? && data.value.date.Some? && data.value.date.value != []
       && data.value.freq.Some? && data.value.freq.value != 0
       && Parse(data.value.date.value).Some?
    {
      var last := Parse(data.value.date.value).value;
      FormatParse(data.value.date.value);
      AddDaysOrdinal(last, data.value.freq.value);
      if r.Some? {
        DaysUntilValue(NextDue(data).value, now);
      }
    }
  }

  /**
    Saving an event on known equipment with a canonical date and a positive
    interval that stays in range makes `calculate_days` count from that
    event, whatever events it had before.
   */
  lemma SaveThenCalculateDays(d: Doc, nombre: string, last: Date, frecuencia: int, now: Clock)
    requires HasName(d.equipos, nombre) && ValidDate(last) && ValidClock(now)
    requires frecuencia > 0 && Ordinal(last) + frecuencia <= MaxOrdinal
    ensures var r := CalculateDays(GetEquipoData(SaveMantenimiento(d, nombre, Format(last), frecuencia).0, nombre), now);
      && r.Some?
      && r.value.0 == Ordinal(last) + frecuencia - Ordinal(now.today) - (if now.micros > 0 then 1 else 0)
  {
    var data := GetEquipoData(SaveMantenimiento(d, nombre, Format(last), frecuencia).0, nombre);
    SaveThenGetEquipoData(d, nombre, Format(last), frecuencia);
    ParseFormat(last);
    OrdinalBounds(last);
    assert Format(last) != [] by {
      assert |Format(last)| == 10;
    }
    CalculateDaysSpec(data, now);
  }
}
