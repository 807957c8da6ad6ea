/** The sign classification of `calcular_mapa`: the twelve-name sign table,
    `int(L / 30)` as the sign index, `L % 30` as the degree within the sign
    and the list subscript `signos[idx]`, each with Python's own semantics
    on exact reals (truncating `int`, flooring `%`, negative subscripts
    counting from the end, `IndexError` outside the list). */
module Zodiac {
  import opened Exceptions

  /** The sign names in zodiac order; sign k spans [30k, 30k + 30). */
  const Signs: seq<string> := [
    "Áries", "Touro", "Gêmeos", "Câncer",
    "Leão", "Virgem", "Libra", "Escorpião",
    "Sagitário", "Capricórnio", "Aquário", "Peixes"
  ]

  /** Width of one sign, in degrees of ecliptic longitude. */
  const SignWidth: real := 30.0

  /** `str(e)` of the `IndexError` raised by an out-of-range list subscript. */
  const IndexErrorMessage: string := "list index out of range"

  /** Python's `int(x)` on a float: truncation toward zero. */
  function Trunc(x: real): (r: int)
    ensures 0.0 <= x ==> 0 <= r && r as real <= x < r as real + 1.0
    ensures x < 0.0 ==> r <= 0 && r as real - 1.0 < x <= r as real
  {
    if x >= 0.0 then x.Floor else -((-x).Floor)
  }

  /** Python's float `x % m` for a positive modulus: the remainder left
      after taking away the largest multiple of `m` not above `x`. */
  function Mod(x: real, m: real): (r: real)
    requires m > 0.0
    ensures 0.0 <= r < m
    ensures ((x - r) / m).Floor as real == (x - r) / m
  {
    var q := (x / m).Floor as real;
    assert m * (x / m) == x;
    var f := x / m - q;
    assert 0.0 <= f < 1.0;
    assert x - m * q == m * f;
    assert m * (1.0 - f) > 0.0;
    assert (x - (x - m * q)) / m == q;
    x - m * q
  }

  /** Python's list subscript `s[i]`: a negative index counts from the end,
      anything outside `-|s| .. |s| - 1` raises `IndexError`. */
  function Subscript<T>(s: seq<T>, i: int): (r: Outcome<T>)
    ensures r.Ok? <==> -|s| <= i < |s|
    ensures r.Ok? && 0 <= i ==> r.value == s[i]
    ensures r.Ok? && i < 0 ==> r.value == s[|s| + i]
    ensures r.Raised? ==> r.message == IndexErrorMessage
  {
    if 0 <= i < |s| then Ok(s[i])
    else if -|s| <= i < 0 then Ok(s[|s| + i])
    else Raised(IndexErrorMessage)
  }

  /** Longitude `L` lies in the 30-degree sector of sign number `k`. */
  predicate InSector(L: real, k: int) {
    k as real * SignWidth <= L < k as real * SignWidth + SignWidth
  }

  /** The sign index `calcular_mapa` computes, `int(L / 30)`: for a
      non-negative longitude the number of the 30-degree sector holding it,
      for a negative one the sector number rounded toward zero. */
  function SignIndex(L: real): (k: int)
    ensures 0.0 <= L ==> 0 <= k && InSector(L, k)
    ensures L < 0.0 ==> k <= 0 && k as real * SignWidth - SignWidth < L <= k as real * SignWidth
  {
    Trunc(L / SignWidth)
  }

  /** The degree within the sign `calcular_mapa` computes, `L % 30`
      (unrounded): in [0, 30), and a whole number of signs away from `L`. */
  function DegreeInSign(L: real): (d: real)
    ensures 0.0 <= d < SignWidth
    ensures ((L - d) / SignWidth).Floor as real == (L - d) / SignWidth
  {
    Mod(L, SignWidth)
  }

  /** The unrounded values of the dictionary entry one body gets. */
  datatype Placement = Placement(sign: string, degree: real, longitude: real)

  /** What the body of the `try` computes from an ephemeris longitude:
      a placement, or the `IndexError` of `signos[signo_idx]`. */
  function Classify(L: real): (r: Outcome<Placement>)
    ensures r.Ok? <==> -390.0 < L < 360.0
    ensures r.Ok? ==> r.value.sign in Signs && r.value.longitude == L
    ensures r.Ok? ==> 0.0 <= r.value.degree < SignWidth
    ensures r.Raised? ==> r.message == IndexErrorMessage
  {
    match Subscript(Signs, SignIndex(L))
    case Ok(name) => Ok(Placement(name, DegreeInSign(L), L))
    case Raised(msg) => Raised(msg)
  }

  /** The sign index and the degree are determined by the sector: for a
      non-negative longitude in sector k, `int(L / 30)` picks k. */
  lemma SectorDeterminesSign(L: real, k: int)
    requires 0 <= k
    requires InSector(L, k)
    ensures SignIndex(L) == k
    ensures DegreeInSign(L) == L - k as real * SignWidth
  {
    assert (L / SignWidth).Floor == k;
    var r := DegreeInSign(L);
    var q := ((L - r) / SignWidth).Floor;
    assert L - r == q as real * SignWidth;
    assert q as real * SignWidth <= L < q as real * SignWidth + SignWidth;
  }

  /** Every longitude in [0, 360) has a sector among the twelve signs. */
  lemma SectorOf(L: real) returns (k: int)
    requires 0.0 <= L < 360.0
    ensures 0 <= k < |Signs| && InSector(L, k)
  {
    k := (L / SignWidth).Floor;
    assert k as real <= L / SignWidth < k as real + 1.0;
  }

  /** For a longitude in [0, 360) the sign index lies in 0..11, so
      `signos[idx]` is defined, and the entry is the sign of the sector
      holding L with the offset into that sector as the degree. */
  lemma ClassifyInRange(L: real)
    requires 0.0 <= L < 360.0
    ensures 0 <= SignIndex(L) < |Signs|
    ensures InSector(L, SignIndex(L))
    ensures Classify(L) == Ok(Placement(Signs[SignIndex(L)], L - SignIndex(L) as real * SignWidth, L))
  {
    var k := SectorOf(L);
    SectorDeterminesSign(L, k);
  }

  /** Round trip on unrounded values: `signo_idx * 30 + grau_no_signo == L`
      for every non-negative longitude, with the degree in [0, 30). */
  lemma RoundTrip(L: real)
    requires 0.0 <= L
    ensures SignIndex(L) as real * SignWidth + DegreeInSign(L) == L
    ensures 0.0 <= DegreeInSign(L) < SignWidth
  {
    var k := SignIndex(L);
    assert k as real <= L / SignWidth < k as real + 1.0;
    SectorDeterminesSign(L, k);
  }

  /** A longitude at or past 360 makes `int(L / 30)` reach 12 or more, so the
      subscript raises inside the `try`. */
  lemma ClassifyAtOrPast360(L: real)
    requires 360.0 <= L
    ensures SignIndex(L) >= |Signs|
    ensures Classify(L) == Raised(IndexErrorMessage)
  {
  }

  /** A longitude just below zero truncates to index 0 while `%` floors, so
      the entry reads Áries at `L + 30` degrees and the round trip breaks. */
  lemma ClassifyJustBelowZero(L: real)
    requires -SignWidth < L < 0.0
    ensures Classify(L) == Ok(Placement("Áries", L + SignWidth, L))
    ensures SignIndex(L) as real * SignWidth + DegreeInSign(L) != L
  {
    var r := DegreeInSign(L);
    var q := ((L - r) / SignWidth).Floor;
    assert L - r == q as real * SignWidth;
    assert q == -1;
  }

  /** Sign boundaries: 0 and 30 start Áries and
      Touro, 280.5 is 10.5 degrees into Capricórnio (index 9), and the last
      instants before 30 and 360 stay in Áries and Peixes. */
  lemma BoundaryExamples()
    ensures Classify(0.0) == Ok(Placement("Áries", 0.0, 0.0))
    ensures Classify(30.0) == Ok(Placement("Touro", 0.0, 30.0))
    ensures SignIndex(280.5) == 9
    ensures Classify(280.5) == Ok(Placement("Capricórnio", 10.5, 280.5))
    ensures SignIndex(29.999999) == 0
    ensures SignIndex(359.999999) == 11
  {
    ClassifyInRange(0.0);
    ClassifyInRange(30.0);
    ClassifyInRange(280.5);
    SectorDeterminesSign(30.0, 1);
    SectorDeterminesSign(280.5, 9);
    SectorDeterminesSign(29.999999, 0);
    SectorDeterminesSign(359.999999, 11);
  }
}
