/** The 52-bit Morton geohash: bit interleaving on machine words, cells over the reals. */
module Geohash {
  import opened Words

  // ----- Interleaving ---------------------------------------------------------------------------

  function Spread(v: bv32): bv64 {
    var x0 := v as bv64;
    var x1 := (x0 | (x0 << 16)) & 0x0000_FFFF_0000_FFFF;
    var x2 := (x1 | (x1 << 8)) & 0x00FF_00FF_00FF_00FF;
    var x3 := (x2 | (x2 << 4)) & 0x0F0F_0F0F_0F0F_0F0F;
    var x4 := (x3 | (x3 << 2)) & 0x3333_3333_3333_3333;
    (x4 | (x4 << 1)) & 0x5555_5555_5555_5555
  }

  /** Bits of x at even positions, bits of y at odd ones. */
  function Interleave64(x: bv32, y: bv32): bv64 {
    Spread(x) | (Spread(y) << 1)
  }

  function Squeeze(v: bv64): bv32 {
    var x0 := v & 0x5555_5555_5555_5555;
    var x1 := (x0 | (x0 >> 1)) & 0x3333_3333_3333_3333;
    var x2 := (x1 | (x1 >> 2)) & 0x0F0F_0F0F_0F0F_0F0F;
    var x3 := (x2 | (x2 >> 4)) & 0x00FF_00FF_00FF_00FF;
    var x4 := (x3 | (x3 >> 8)) & 0x0000_FFFF_0000_FFFF;
    ((x4 | (x4 >> 16)) & 0x0000_0000_FFFF_FFFF) as bv32
  }

  function Deinterleave64(h: bv64): (bv32, bv32) {
    (Squeeze(h), Squeeze(h >> 1))
  }

  lemma DeinterleaveInterleave(x: bv32, y: bv32)
    ensures Deinterleave64(Interleave64(x, y)) == (x, y)
  {
  }

  lemma InterleaveDeinterleave(h: bv64)
    ensures Interleave64(Deinterleave64(h).0, Deinterleave64(h).1) == h
  {
  }

  /** Bit 2i is bit i of x, bit 2i+1 is bit i of y. */
  lemma BitPositions(x: bv32, y: bv32, i: bv64)
    requires i < 32
    ensures (Interleave64(x, y) >> (2 * i)) & 1 == (x as bv64 >> i) & 1
    ensures (Interleave64(x, y) >> (2 * i + 1)) & 1 == (y as bv64 >> i) & 1
  {
  }

  /** 26 bits each make 52, and nothing wider fits. */
  lemma FiftyTwoBits(x: bv32, y: bv32)
    ensures Interleave64(x, y) < 0x10_0000_0000_0000 <==> x < 0x400_0000 && y < 0x400_0000
  {
  }

  // ----- Cells ----------------------------------------------------------------------------------

  const LAT_MIN: real := -85.05112878
  const LAT_MAX: real := 85.05112878
  const LON_MIN: real := -180.0
  const LON_MAX: real := 180.0

  /** 2^26 cells per axis. */
  const CELLS: nat := 0x400_0000

  datatype Axis = Lat | Lon

  function MinOf(a: Axis): real {
    if a == Lat then LAT_MIN else LON_MIN
  }

  function MaxOf(a: Axis): real {
    if a == Lat then LAT_MAX else LON_MAX
  }

  function Span(a: Axis): real {
    MaxOf(a) - MinOf(a)
  }

  function CellSize(a: Axis): real {
    Span(a) / CELLS as real
  }

  /** The cell a coordinate of the range falls in; the upper end opens a cell of its own. */
  function CellOf(a: Axis, v: real): (i: nat)
    requires MinOf(a) <= v <= MaxOf(a)
    ensures i <= CELLS && (i == CELLS <==> v == MaxOf(a))
  {
    ((v - MinOf(a)) / Span(a) * CELLS as real).Floor
  }

  function Edge(a: Axis, i: nat): real {
    MinOf(a) + i as real / CELLS as real * Span(a)
  }

  function Centre(a: Axis, i: nat): real {
    (Edge(a, i) + Edge(a, i + 1)) / 2.0
  }

  /** A coordinate lies in its cell: cell i of 2^26 begins i parts of the range above its lower end. */
  lemma CellHolds(a: Axis, v: real)
    requires MinOf(a) <= v <= MaxOf(a)
    ensures var i := CellOf(a, v);
            i as real * (MaxOf(a) - MinOf(a)) <= (v - MinOf(a)) * 67108864.0 < (i + 1) as real * (MaxOf(a) - MinOf(a))
  {
    var x := (v - MinOf(a)) / Span(a) * CELLS as real;
    assert x * Span(a) == (v - MinOf(a)) * CELLS as real;
    assert x.Floor as real <= x < (x.Floor + 1) as real;
  }

  /** The centre of a coordinate's cell is at most half a cell away. */
  lemma CentreIsNear(a: Axis, v: real)
    requires MinOf(a) <= v <= MaxOf(a)
    ensures var c := Centre(a, CellOf(a, v));
            -CellSize(a) / 2.0 <= v - c <= CellSize(a) / 2.0
  {
  }

  /** A cell's centre falls in that cell; the extra cell's centre lies beyond the range. */
  lemma CentreIsInside(a: Axis, i: nat)
    requires i <= CELLS
    ensures i < CELLS ==> MinOf(a) <= Centre(a, i) < MaxOf(a) && CellOf(a, Centre(a, i)) == i
    ensures i == CELLS ==> Centre(a, i) > MaxOf(a)
  {
  }

  // ----- Encoding positions ---------------------------------------------------------------------

  datatype Position = Position(lat: real, lon: real)

  /** Latitudes beyond the Web-Mercator range are clamped. */
  function Clamp(lat: real): real {
    if lat < LAT_MIN then LAT_MIN else if lat > LAT_MAX then LAT_MAX else lat
  }

  predicate LonOk(p: Position) {
    LON_MIN <= p.lon <= LON_MAX
  }

  function Encode52(p: Position): bv64
    requires LonOk(p)
  {
    Interleave64(ToWord(CellOf(Lat, Clamp(p.lat))), ToWord(CellOf(Lon, p.lon)))
  }

  /** Even bits of a hash are those of the latitude's cell, odd bits those of the longitude's. */
  lemma EvenBitsAreLatitude(p: Position, i: bv64)
    requires LonOk(p) && i < 32
    ensures (Encode52(p) >> (2 * i)) & 1 == (ToWord(CellOf(Lat, Clamp(p.lat))) as bv64 >> i) & 1
    ensures (Encode52(p) >> (2 * i + 1)) & 1 == (ToWord(CellOf(Lon, p.lon)) as bv64 >> i) & 1
  {
    hide Interleave64, CellOf, ToWord;
    BitPositions(ToWord(CellOf(Lat, Clamp(p.lat))), ToWord(CellOf(Lon, p.lon)), i);
  }

  /** Clamping gives the nearest latitude of the range. */
  lemma ClampIsNearest(lat: real, other: real)
    requires -85.05112878 <= other <= 85.05112878
    ensures -85.05112878 <= Clamp(lat) <= 85.05112878
    ensures var near, far := lat - Clamp(lat), lat - other;
            (if near < 0.0 then -near else near) <= if far < 0.0 then -far else far
  {
  }

  function Decode52(h: bv64): Position {
    var (ilat, ilon) := Deinterleave64(h);
    Position(Centre(Lat, FromWord(ilat)), Centre(Lon, FromWord(ilon)))
  }

  lemma WordOfCell(i: nat)
    requires i <= CELLS
    ensures FromWord(ToWord(i)) == i
    ensures ToWord(i) < 0x400_0000 <==> i < CELLS
  {
    WordRoundTrip(i);
    WordOrder(ToWord(i));
  }

  /** Decoding an encoded position gives a point at most half a cell away on each axis. */
  lemma DecodeIsNear(p: Position)
    requires LonOk(p)
    ensures var q := Decode52(Encode52(p));
            && -CellSize(Lat) / 2.0 <= Clamp(p.lat) - q.lat <= CellSize(Lat) / 2.0
            && -CellSize(Lon) / 2.0 <= p.lon - q.lon <= CellSize(Lon) / 2.0
  {
    var i, j := CellOf(Lat, Clamp(p.lat)), CellOf(Lon, p.lon);
    WordOfCell(i);
    WordOfCell(j);
    DeinterleaveInterleave(ToWord(i), ToWord(j));
    CentreIsNear(Lat, Clamp(p.lat));
    CentreIsNear(Lon, p.lon);
  }

  /**
   * The hash fits the 52 bits of a score exactly when the position lies strictly below both upper range
   * ends; and exactly then the decoded point lies inside the range again.
   */
  lemma FitsBelowUpperEnds(p: Position)
    requires LonOk(p)
    ensures Encode52(p) < 0x10_0000_0000_0000 <==> Clamp(p.lat) < LAT_MAX && p.lon < LON_MAX
    ensures var q := Decode52(Encode52(p));
            q.lat < LAT_MAX && q.lon < LON_MAX <==> Clamp(p.lat) < LAT_MAX && p.lon < LON_MAX
  {
    var i, j := CellOf(Lat, Clamp(p.lat)), CellOf(Lon, p.lon);
    WordOfCell(i);
    WordOfCell(j);
    FiftyTwoBits(ToWord(i), ToWord(j));
    DeinterleaveInterleave(ToWord(i), ToWord(j));
    CentreIsInside(Lat, i);
    CentreIsInside(Lon, j);
  }

  lemma PartsOf52(h: bv64)
    requires h < 0x10_0000_0000_0000
    ensures Deinterleave64(h).0 < 0x400_0000 && Deinterleave64(h).1 < 0x400_0000
  {
  }

  /** Encoding a decoded cell centre returns the same hash, for every 52-bit hash. */
  lemma EncodeDecode(h: bv64)
    requires h < 0x10_0000_0000_0000
    ensures LonOk(Decode52(h)) && Encode52(Decode52(h)) == h
  {
    hide Interleave64, Deinterleave64, Centre, CellOf, ToWord, FromWord;
    var (ilat, ilon) := Deinterleave64(h);
    PartsOf52(h);
    WordOrder(ilat);
    WordOrder(ilon);
    NumberRoundTrip(ilat);
    NumberRoundTrip(ilon);
    CentreIsInside(Lat, FromWord(ilat));
    CentreIsInside(Lon, FromWord(ilon));
    InterleaveDeinterleave(h);
  }
}
