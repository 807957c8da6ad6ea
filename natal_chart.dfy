/** `calcular_mapa`: for each body of a fixed roster of seven, ask the
    ephemeris for its ecliptic longitude at the birth Julian Day, classify it
    into a sign and a degree, and store one dictionary entry per body; an
    exception for one body, from the ephemeris or from the sign subscript,
    becomes an error placeholder for that body and the loop goes on. */
module NatalChart {
  import opened Exceptions
  import opened Zodiac
  import opened BirthTime
  import opened PyDict

  /** The bodies the chart covers (the ephemeris library's body codes). */
  datatype Body = Sun | Moon | Mercury | Venus | Mars | Jupiter | Saturn

  /** The roster: each body under the name its entry is stored by, in
      the order the entries are written. */
  const Roster: seq<(string, Body)> := [
    ("Sol", Sun), ("Lua", Moon), ("Mercúrio", Mercury), ("Vênus", Venus),
    ("Marte", Mars), ("Júpiter", Jupiter), ("Saturno", Saturn)
  ]

  /** The names the chart is keyed by, in roster order. */
  const BodyNames: seq<string> := ["Sol", "Lua", "Mercúrio", "Vênus", "Marte", "Júpiter", "Saturno"]

  /** The sign name a failed body is given. */
  const ErrorSign: string := "Erro"

  /** One body's dictionary entry: `signo`, `grau` and `longitude` (the
      last two unrounded), and `erro` present only on a placeholder. */
  datatype Entry = Entry(sign: string, degree: real, longitude: real, error: Option<string>)

  /** The placeholder stored for a body whose computation raised `msg`:
      it carries the message, zero degree and longitude, and a sign name
      that no real sign has. */
  function Placeholder(msg: string): (e: Entry)
    ensures e.error == Some(msg) && e.degree == 0.0 && e.longitude == 0.0
    ensures e.sign !in Signs
  {
    Entry(ErrorSign, 0.0, 0.0, Some(msg))
  }

  /** The ephemeris lookup (`swe.calc_ut`, first component of its result):
      the ecliptic longitude of a body at a Julian Day, or the message of
      the exception it raises. */
  type Ephemeris = (real, Body) -> Outcome<real>

  /** The chart as a dictionary from body name to entry. */
  type Chart = Dict<string, Entry>

  /** One pass of the `try`/`except`: the entry for `body` at `jd`. An
      entry carries an error exactly when its sign is the error marker,
      and a good entry holds the ephemeris longitude, a real sign and a
      degree in [0, 30). */
  function EntryFor(jd: real, body: Body, ephemeris: Ephemeris): (e: Entry)
    ensures e.error.Some? <==> e.sign == ErrorSign
    ensures e.error.None? ==>
      ephemeris(jd, body).Ok? && e.longitude == ephemeris(jd, body).value &&
      e.sign in Signs && 0.0 <= e.degree < SignWidth
  {
    match ephemeris(jd, body)
    case Raised(msg) => Placeholder(msg)
    case Ok(L) =>
      match Classify(L)
      case Ok(p) => Entry(p.sign, p.degree, p.longitude, None)
      case Raised(msg) => Placeholder(msg)
  }

  /** The chart the loop builds: one entry per roster body, in roster order. */
  function ChartAt(jd: real, ephemeris: Ephemeris): (c: Chart)
    ensures |c| == |BodyNames|
    ensures forall i :: 0 <= i < |c| ==> c[i].0 == BodyNames[i]
  {
    seq(|Roster|, i requires 0 <= i < |Roster| => (Roster[i].0, EntryFor(jd, Roster[i].1, ephemeris)))
  }

  /** The roster names are pairwise different. */
  lemma BodyNamesDistinct()
    ensures |BodyNames| == |Roster|
    ensures forall i :: 0 <= i < |Roster| ==> Roster[i].0 == BodyNames[i]
    ensures forall i, j :: 0 <= i < j < |BodyNames| ==> BodyNames[i] != BodyNames[j]
  {
  }

  /** Writing the next roster body into a prefix of the chart appends it:
      its name is not among the names already written. */
  lemma ChartGrows(jd: real, ephemeris: Ephemeris, i: nat, positions: Chart)
    requires i < |Roster|
    requires positions == ChartAt(jd, ephemeris)[..i]
    ensures Put(positions, Roster[i].0, EntryFor(jd, Roster[i].1, ephemeris)) == ChartAt(jd, ephemeris)[..i + 1]
  {
    var chart := ChartAt(jd, ephemeris);
    BodyNamesDistinct();
    var names := Keys(positions);
    forall j | 0 <= j < |names|
      ensures names[j] != Roster[i].0
    {
      assert names[j] == chart[j].0 == Roster[j].0 == BodyNames[j];
    }
    assert chart[..i + 1] == positions + [chart[i]];
  }

  /** `calcular_mapa`. The latitude and longitude of the birth place are
      accepted and never read; the result is the chart at the Julian Day
      of the birth date and decimal hour, whatever the ephemeris does. */
  method ComputeChart(date: Date, time: ClockTime, latitude: real, longitude: real,
                      julday: JulDay, ephemeris: Ephemeris)
    returns (positions: Chart)
    ensures positions == ChartAt(JulianDay(date, time, julday), ephemeris)
  {
    var hourDecimal := DecimalHour(time);
    var jd := julday(date.year, date.month, date.day, hourDecimal);
    positions := [];
    for i := 0 to |Roster|
      invariant positions == ChartAt(jd, ephemeris)[..i]
    {
      var (name, body) := Roster[i];
      var entry: Entry;
      var result := ephemeris(jd, body);
      if result.Raised? {
        entry := Placeholder(result.message);
      } else {
        var L := result.value;
        var signIndex := SignIndex(L);
        var degree := DegreeInSign(L);
        var sign := Subscript(Signs, signIndex);
        if sign.Raised? {
          entry := Placeholder(sign.message);
        } else {
          entry := Entry(sign.value, degree, L, None);
        }
      }
      assert entry == EntryFor(jd, body, ephemeris);
      ChartGrows(jd, ephemeris, i, positions);
      positions := Put(positions, name, entry);
    }
  }

  /** Roster completeness: whatever the ephemeris does, the chart has one
      entry under each of the seven names, in roster order, no name twice,
      and looking a body's name up gives that body's entry. */
  lemma RosterComplete(jd: real, ephemeris: Ephemeris)
    ensures Keys(ChartAt(jd, ephemeris)) == BodyNames
    ensures DistinctKeys(ChartAt(jd, ephemeris))
    ensures forall i :: 0 <= i < |Roster| ==>
      Get(ChartAt(jd, ephemeris), Roster[i].0) == Some(EntryFor(jd, Roster[i].1, ephemeris))
  {
    var c := ChartAt(jd, ephemeris);
    BodyNamesDistinct();
    forall i | 0 <= i < |Roster|
      ensures Get(c, Roster[i].0) == Some(EntryFor(jd, Roster[i].1, ephemeris))
    {
      GetAt(c, i);
    }
  }

  /** A body whose ephemeris lookup raises gets the placeholder with the
      exception's message. */
  lemma FailedBodyGetsPlaceholder(jd: real, ephemeris: Ephemeris, i: nat, msg: string)
    requires i < |Roster|
    requires ephemeris(jd, Roster[i].1) == Raised(msg)
    ensures ChartAt(jd, ephemeris)[i] == (Roster[i].0, Entry("Erro", 0.0, 0.0, Some(msg)))
  {
  }

  /** A longitude in [0, 360) gives the sign of the sector holding it, the
      offset into that sector as the degree, and the longitude itself. */
  lemma PlacedBodyEntry(jd: real, ephemeris: Ephemeris, i: nat, L: real)
    requires i < |Roster|
    requires ephemeris(jd, Roster[i].1) == Ok(L)
    requires 0.0 <= L < 360.0
    ensures exists k :: (0 <= k < |Signs| && InSector(L, k) &&
      ChartAt(jd, ephemeris)[i].1 == Entry(Signs[k], L - k as real * SignWidth, L, None))
  {
    ClassifyInRange(L);
    var k := SignIndex(L);
    assert 0 <= k < |Signs| && InSector(L, k);
  }

  /** A longitude of 360 or more does not escape: the `IndexError` of the
      sign subscript is caught and the body gets the placeholder. */
  lemma LongitudePast360GetsPlaceholder(jd: real, ephemeris: Ephemeris, i: nat, L: real)
    requires i < |Roster|
    requires ephemeris(jd, Roster[i].1) == Ok(L)
    requires 360.0 <= L
    ensures ChartAt(jd, ephemeris)[i].1 == Placeholder("list index out of range")
  {
    ClassifyAtOrPast360(L);
  }

  /** Failure isolation: two ephemerides that agree at `jd` on every body
      but `b` (for instance one failing on `b`, one succeeding) give the
      same entry for every other body. */
  lemma FailureIsolated(jd: real, e1: Ephemeris, e2: Ephemeris, b: Body)
    requires forall b' :: b' != b ==> e1(jd, b') == e2(jd, b')
    ensures forall i :: 0 <= i < |Roster| && Roster[i].1 != b ==>
      ChartAt(jd, e1)[i] == ChartAt(jd, e2)[i]
  {
    forall i | 0 <= i < |Roster| && Roster[i].1 != b
      ensures ChartAt(jd, e1)[i] == ChartAt(jd, e2)[i]
    {
      assert e1(jd, Roster[i].1) == e2(jd, Roster[i].1);
    }
  }

  /** An ephemeris that fails on every body still yields a full chart,
      every entry of it a placeholder. */
  lemma TotalFailureGivesPlaceholders(jd: real, ephemeris: Ephemeris)
    requires forall b :: ephemeris(jd, b).Raised?
    ensures |ChartAt(jd, ephemeris)| == |BodyNames|
    ensures forall i :: 0 <= i < |Roster| ==> ChartAt(jd, ephemeris)[i].1.sign == ErrorSign
  {
  }
}
