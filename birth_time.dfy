/** The time half of `calcular_mapa`: the birth clock time folded into a
    decimal hour, and the Julian Day asked of the ephemeris library for the
    birth date at that hour. */
module BirthTime {

  /** A `datetime.date`: the calendar fields `calcular_mapa` reads. */
  datatype Date = Date(year: int, month: int, day: int)

  /** A `datetime.time`; `microsecond` is carried because `calcular_mapa` drops it. */
  datatype ClockTime = ClockTime(hour: int, minute: int, second: int, microsecond: int)

  /** The ranges a `datetime.time` guarantees for its fields. */
  predicate ValidClockTime(t: ClockTime) {
    0 <= t.hour < 24 && 0 <= t.minute < 60 && 0 <= t.second < 60 &&
    0 <= t.microsecond < 1000000
  }

  /** `hour + minute / 60 + second / 3600`: the hour of day as one number,
      lying within the clock hour it starts from. */
  function DecimalHour(t: ClockTime): (h: real)
    ensures ValidClockTime(t) ==> t.hour as real <= h < t.hour as real + 1.0
  {
    t.hour as real + t.minute as real / 60.0 + t.second as real / 3600.0
  }

  /** `a` reads earlier than `b` on the clock, to the whole second. */
  predicate Before(a: ClockTime, b: ClockTime) {
    a.hour < b.hour ||
    (a.hour == b.hour && (a.minute < b.minute ||
                          (a.minute == b.minute && a.second < b.second)))
  }

  /** The seconds elapsed since midnight, the integer the decimal hour scales. */
  function SecondOfDay(t: ClockTime): int {
    3600 * t.hour + 60 * t.minute + t.second
  }

  /** Same clock reading to the second gives the same second of day, and
      an earlier reading an earlier one. */
  lemma SecondOfDayOrder(a: ClockTime, b: ClockTime)
    requires ValidClockTime(a) && ValidClockTime(b)
    ensures Before(a, b) <==> SecondOfDay(a) < SecondOfDay(b)
    ensures (a.hour, a.minute, a.second) == (b.hour, b.minute, b.second) <==> SecondOfDay(a) == SecondOfDay(b)
  {
    if a.hour < b.hour {
      assert SecondOfDay(a) < 3600 * (a.hour + 1) <= 3600 * b.hour <= SecondOfDay(b);
    } else if b.hour < a.hour {
      assert SecondOfDay(b) < 3600 * (b.hour + 1) <= 3600 * a.hour <= SecondOfDay(a);
    }
  }

  /** The decimal hour is in [0, 24) for every valid time, grows strictly
      with the clock reading (hour, minute, second), and two readings that
      differ only in the microseconds give the same decimal hour. */
  lemma DecimalHourOrder(a: ClockTime, b: ClockTime)
    requires ValidClockTime(a) && ValidClockTime(b)
    ensures 0.0 <= DecimalHour(a) < 24.0
    ensures Before(a, b) <==> DecimalHour(a) < DecimalHour(b)
    ensures (a.hour, a.minute, a.second) == (b.hour, b.minute, b.second) <==> DecimalHour(a) == DecimalHour(b)
  {
    assert DecimalHour(a) == SecondOfDay(a) as real / 3600.0;
    assert DecimalHour(b) == SecondOfDay(b) as real / 3600.0;
    SecondOfDayOrder(a, b);
  }

  /** The library's Julian Day computation (`swe.julday`), given as a
      function of year, month, day and decimal hour. */
  type JulDay = (int, int, int, real) -> real

  /** The Julian Day `calcular_mapa` asks the ephemeris about: the
      library's Julian Day of the birth date at an hour within that day. */
  function JulianDay(d: Date, t: ClockTime, julday: JulDay): (jd: real)
    ensures ValidClockTime(t) ==>
      exists h :: 0.0 <= h < 24.0 && jd == julday(d.year, d.month, d.day, h)
  {
    julday(d.year, d.month, d.day, DecimalHour(t))
  }

  /** If the library's Julian Day grows with the hour within a day, then
      for one birth date a later clock reading gives a later Julian Day. */
  lemma JulianDayMonotone(d: Date, a: ClockTime, b: ClockTime, julday: JulDay)
    requires forall h1: real, h2: real :: h1 < h2 ==> julday(d.year, d.month, d.day, h1) < julday(d.year, d.month, d.day, h2)
    requires ValidClockTime(a) && ValidClockTime(b)
    requires Before(a, b)
    ensures JulianDay(d, a, julday) < JulianDay(d, b, julday)
  {
    DecimalHourOrder(a, b);
  }
}
