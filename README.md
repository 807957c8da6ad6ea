# Natal chart positions of astrologia-app, modelled in Dafny

The app computes a natal chart in `calcular_mapa` (`utils/astro_calc.py`).
It folds the birth clock time into a decimal hour and asks the Swiss
Ephemeris library for the Julian Day of the birth date at that hour. Then,
for each of seven bodies (Sol, Lua, Mercúrio, Vênus, Marte, Júpiter,
Saturno, in that order), it asks the library for the body's ecliptic
longitude `L`. It classifies `L` as the sign `signos[int(L / 30)]` with the
degree `L % 30`, and stores one dictionary entry per body. Any exception
raised for a body becomes an entry with sign `'Erro'`, degree and longitude
`0.0` and the exception's message, and the loop goes on with the next body.

The model has five modules:

- `Exceptions` (`exceptions.dfy`): `Outcome` (a value or a raised
  exception's message) and `Option`.
- `Zodiac` (`zodiac.dfy`): the twelve sign names and Python's own semantics
  for the classification on exact reals. `int()` truncates toward zero,
  float `%` floors, and a list subscript accepts `-12 .. 11` (negative
  indices count from the end) and raises `IndexError` ("list index out of
  range") otherwise. `Classify` is what the `try` body computes from one
  longitude.
- `BirthTime` (`birth_time.dfy`): the decimal hour and the Julian Day. The
  library's `julday` is a function parameter.
- `PyDict` (`py_dict.dfy`): an insertion-ordered Python `dict` as a
  sequence of (key, value) pairs, with subscript assignment (`Put`) and
  lookup (`Get`).
- `NatalChart` (`natal_chart.dfy`): the roster, the entry type, the
  per-body `try`/`except` (`EntryFor`) and `ComputeChart`. `ComputeChart`
  is the imperative loop that fills the dictionary body by body. It is
  proved equal to the specification function `ChartAt`, and the chart's
  properties are proved about `ChartAt`.

The ephemeris lookup is a parameter of type `(real, Body) -> Outcome<real>`:
a longitude or the message of the exception it raises. Longitudes are
exact `real`s, so the arithmetic facts hold exactly.

What `calcular_mapa` does at the edges, as the model states it:

- The code does not normalise longitudes or clamp the sign index. A
  longitude of 360 or more makes `int(L / 30)` reach 12, and the subscript
  raises inside the `try`, so the body gets the `'Erro'` placeholder; a
  longitude of exactly 360.0 is such a placeholder, not sign index 0
  (`ClassifyAtOrPast360`).
- A negative longitude is not rejected. `int()` truncates and `%` floors,
  so a longitude in (-30, 0) is classified as Áries at `L + 30` degrees
  (`ClassifyJustBelowZero`). Down to -390 a negative index picks a sign
  from the end of the list. `Classify` succeeds exactly on (-390, 360).
- The code performs no date check: it reads the fields of a
  `datetime.date`, which cannot hold an invalid date, and passes them to
  `julday`. No invalid-date error exists.
- The code reads `hora_nasc.second`, so microseconds are dropped
  (`DecimalHourOrder`: readings that differ only in microseconds give the
  same decimal hour).

## Model

| member | source | states |
|---|---|---|
| `Zodiac.Trunc` | utils/astro_calc.py:57 | `int(x)` on a float: the integer next to `x` toward zero (for x >= 0: r <= x < r + 1; for x < 0: r - 1 < x <= r) |
| `Zodiac.Mod` | utils/astro_calc.py:58 | `x % m` for m > 0 lies in [0, m) and differs from `x` by a whole multiple of `m` |
| `Zodiac.Subscript` | utils/astro_calc.py:61 | a list subscript succeeds exactly for -len <= i < len, a negative index counts from the end, otherwise `IndexError` with message "list index out of range" |
| `Zodiac.SignIndex` | utils/astro_calc.py:57 | `int(L / 30)`: for L >= 0 the number k >= 0 of the sector with 30k <= L < 30k + 30; for L < 0 a k <= 0 with 30k - 30 < L <= 30k (rounded toward zero) |
| `Zodiac.DegreeInSign` | utils/astro_calc.py:58 | `L % 30` lies in [0, 30) and differs from L by a whole number of signs |
| `Zodiac.Classify` | utils/astro_calc.py:57-61 | classification succeeds exactly for -390 < L < 360; a success holds a sign from the table, the longitude itself and a degree in [0, 30); a failure carries the `IndexError` message |
| `Zodiac.SectorDeterminesSign` | utils/astro_calc.py:57-58 | for a non-negative longitude in sector k (30k <= L < 30k + 30), the sign index is k and the degree is L - 30k |
| `Zodiac.ClassifyInRange` | utils/astro_calc.py:41-61 | for 0 <= L < 360 the sign index is in 0..11, so the subscript is defined, and the entry is the sign of the sector holding L with degree L - 30k |
| `Zodiac.RoundTrip` | utils/astro_calc.py:57-58 | for every L >= 0, `signo_idx * 30 + grau_no_signo == L` on unrounded values, with the degree in [0, 30) |
| `Zodiac.ClassifyAtOrPast360` | utils/astro_calc.py:57-61 | for L >= 360 the sign index is at least 12 and the classification raises `IndexError` |
| `Zodiac.ClassifyJustBelowZero` | utils/astro_calc.py:57-61 | for -30 < L < 0 the entry is Áries at L + 30 degrees, and the round trip does not hold |
| `Zodiac.BoundaryExamples` | utils/astro_calc.py:41-45 | 0 gives Áries at 0, 30 gives Touro at 0, 280.5 gives index 9, Capricórnio at 10.5; 29.999999 has index 0 and 359.999999 index 11 |
| `BirthTime.DecimalHour` | utils/astro_calc.py:24 | for a valid clock time the decimal hour lies in [hour, hour + 1) |
| `BirthTime.JulianDay` | utils/astro_calc.py:21-27 | for a valid clock time, the Julian Day asked is the library's Julian Day of the birth date at some hour in [0, 24) |
| `BirthTime.DecimalHourOrder` | utils/astro_calc.py:24 | the decimal hour of a valid time is in [0, 24); it is smaller exactly when the (hour, minute, second) reading is earlier, and equal exactly when the readings agree to the second |
| `BirthTime.JulianDayMonotone` | utils/astro_calc.py:21-27 | if the library's Julian Day grows with the hour, a later birth time on the same date gives a later Julian Day |
| `PyDict.Put` | utils/astro_calc.py:60-64 | dictionary assignment adds one pair for a new key and appends it at the end |
| `PyDict.Get` | utils/astro_calc.py:74 | a lookup on the returned dictionary, as the chart page's `posicoes['Sol']` and `posicoes['Lua']` do: looking a key up gives nothing exactly when the key is absent, and otherwise a value stored under that key |
| `PyDict.PutLaws` | utils/astro_calc.py:60-72 | after `d[k] = v`, the keys are the old keys plus `k` if it was new, `k` maps to `v`, and every other key keeps its value or its absence |
| `PyDict.GetAt` | utils/astro_calc.py:48-74 | in a dictionary with distinct keys, looking up the key of the i-th pair gives the i-th value |
| `NatalChart.BodyNamesDistinct` | utils/astro_calc.py:30-38 | the seven roster names are pairwise different, in roster order |
| `NatalChart.Placeholder` | utils/astro_calc.py:67-72 | the error entry carries the exception's message, degree 0.0 and longitude 0.0, and its sign 'Erro' is not a sign of the table |
| `NatalChart.EntryFor` | utils/astro_calc.py:51-72 | an entry carries an error message exactly when its sign is 'Erro'; a good entry holds the ephemeris longitude, a sign from the table and a degree in [0, 30) |
| `NatalChart.ChartGrows` | utils/astro_calc.py:50-72 | writing the next roster body into the chart built so far appends its entry, because its name is new |
| `NatalChart.ChartAt` | utils/astro_calc.py:48-74 | the dictionary the loop returns has seven entries keyed by the roster names in roster order (see `RosterComplete` for distinctness and lookups) |
| `NatalChart.ComputeChart` | utils/astro_calc.py:7-74 | the returned dictionary equals the chart at the Julian Day of the birth date and decimal hour; latitude and longitude do not occur in it, so the result does not depend on them |
| `NatalChart.RosterComplete` | utils/astro_calc.py:30-50 | whatever the ephemeris does, the chart's keys are exactly the seven names in roster order, no name twice, and looking up a body's name gives that body's entry |
| `NatalChart.FailedBodyGetsPlaceholder` | utils/astro_calc.py:66-72 | a body whose ephemeris lookup raises gets sign 'Erro', degree 0.0, longitude 0.0 and the exception's message |
| `NatalChart.PlacedBodyEntry` | utils/astro_calc.py:53-64 | a longitude in [0, 360) gives the sign of the sector holding it, the offset into the sector as degree, the longitude itself and no error |
| `NatalChart.LongitudePast360GetsPlaceholder` | utils/astro_calc.py:51-72 | a longitude of 360 or more does not escape: the body gets the placeholder with "list index out of range" |
| `NatalChart.FailureIsolated` | utils/astro_calc.py:50-72 | two ephemerides that agree on every body but one give the same entry for every other body |
| `NatalChart.TotalFailureGivesPlaceholders` | utils/astro_calc.py:48-74 | if every lookup raises, the chart still has seven entries, each with sign 'Erro' |

## Left out

- `round(..., 2)` on the degree and the longitude (utils/astro_calc.py:62-63): entries hold the unrounded values, and the round trip is stated on them. Rounding can store a degree of 30.0 and a longitude from the next sign: for L = 29.996 the code stores 'Áries' with degree 30.0 and longitude 30.0, and for L = 359.996 it stores longitude 360.0. So `EntryFor`'s "degree in [0, 30)" and `PlacedBodyEntry` hold only for the unrounded values the model keeps.
- Floating point: longitudes and hours are exact reals; rounding error, NaN and infinities are not modelled.
- `swe.julday` and `swe.calc_ut` are foreign library calls. They are function parameters. `julday` is total, so an exception raised by it (outside the `try`) is not modelled. Of `calc_ut`'s result only the longitude, `resultado[0][0]`, is kept. An exception from indexing that result is folded into the ephemeris's `Raised` outcome.
- The library's numeric body codes (`swe.SUN` … `swe.SATURN`) are replaced by the datatype `Body`.
- `calcular_ascendente` (utils/astro_calc.py:77-92) has no behaviour (`pass`).
- utils/gemini_ai.py, utils/geocoding.py, Home.py, test_gemini.py and the pages: network calls, text templates and page layout.
