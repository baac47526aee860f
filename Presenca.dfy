/**
 * The attendance record (`Presenca`) and the date-time values it carries.
 * A `LocalDate` is a day number; a `LocalDateTime` is a day and a time of
 * day in nanoseconds, ordered first by day, then by time.
 */
module Presenca {

  /** `LocalTime.MAX`, 23:59:59.999999999, in nanoseconds of the day. */
  const MaxTimeOfDay: int := 86_399_999_999_999

  type TimeOfDay = t: int | 0 <= t <= MaxTimeOfDay

  datatype DateTime = DateTime(day: int, time: TimeOfDay)

  /** `!a.isAfter(b)`: `a` comes no later than `b`. */
  predicate NotAfter(a: DateTime, b: DateTime) {
    a.day < b.day || (a.day == b.day && a.time <= b.time)
  }

  /** `date.atStartOfDay()`: the earliest instant of the day. */
  function AtStartOfDay(date: int): (r: DateTime)
    ensures r.day == date
    ensures forall x: DateTime :: x.day == date ==> NotAfter(r, x)
  {
    DateTime(date, 0)
  }

  /** `date.atTime(LocalTime.MAX)`: the latest instant of the day. */
  function AtEndOfDay(date: int): (r: DateTime)
    ensures r.day == date
    ensures forall x: DateTime :: x.day == date ==> NotAfter(x, r)
  {
    DateTime(date, MaxTimeOfDay)
  }

  /**
   * Spring Data's `Between`, SQL `BETWEEN`: inclusive at both ends, and
   * empty when `from` comes after `to`.
   */
  predicate Between(x: DateTime, from: DateTime, to: DateTime)
    ensures Between(x, from, to) ==> NotAfter(from, to)
  {
    NotAfter(from, x) && NotAfter(x, to)
  }

  /** Both ends of a non-empty window lie in it. */
  lemma BetweenIsInclusive(from: DateTime, to: DateTime)
    requires NotAfter(from, to)
    ensures Between(from, from, to) && Between(to, from, to)
  {
  }

  /** `NotAfter` is a total order on instants. */
  lemma NotAfterIsTotalOrder(a: DateTime, b: DateTime, c: DateTime)
    ensures NotAfter(a, a)
    ensures NotAfter(a, b) || NotAfter(b, a)
    ensures NotAfter(a, b) && NotAfter(b, a) ==> a == b
    ensures NotAfter(a, b) && NotAfter(b, c) ==> NotAfter(a, c)
  {
  }

  /**
   * The window from the start of `startDate` to the end of `endDate` holds
   * exactly the instants whose day lies in `[startDate, endDate]`.
   */
  lemma BetweenDaysIffDayInRange(x: DateTime, startDate: int, endDate: int)
    ensures Between(x, AtStartOfDay(startDate), AtEndOfDay(endDate)) <==> startDate <= x.day <= endDate
  {
  }

  /**
   * A stored attendance record. The student is referred to by the id it is
   * stored under (the `aluno_id` join column).
   */
  datatype PresencaRow = PresencaRow(id: int, alunoId: int, dataHora: DateTime, presente: bool)
}
