/** The sector address translator of getIndex: from a run's start (track, block) and an
    index within the run to a byte range of the loaded image. */
module Translator {
  import opened DiskGeometry

  /** Bytes of data in a sector. */
  const SectorBytes := 256

  /** Distance between two sectors of the same band within a track. */
  const SectorStride := 676

  /** The four band base offsets and, for each band, the sector index the band's
      multiplier counts from. Band 0 and 1 cover the first side of a track, interleaved;
      bands 2 and 3 the second side, 6400 bytes further on. */
  const BandBase: seq<nat> := [296, 634, 612, 950]
  const BandShift: seq<nat> := [0, 9, 9, 18]

  /** The band of a sector index: below 9, below 18, below 27, or beyond. */
  function Band(j: int): (b: nat)
    ensures b < 4
    ensures b == 0 <==> j < 9
    ensures b == 1 <==> 9 <= j < 18
    ensures b == 2 <==> 18 <= j < 27
    ensures b == 3 <==> j >= 27
  {
    if j < 9 then 0 else if j < 18 then 1 else if j < 27 then 2 else 3
  }

  /** Where the wrap-around loop of getIndex leaves (j, track): while block + j is past the
      last sector of the track, it steps one track on and takes a track's worth of sectors
      off j. */
  function Wrap(sectors: nat, j: int, track: int, block: int): (r: (int, int))
    requires sectors > 0
    ensures block + r.0 < sectors
    ensures r.1 >= track
    ensures j - r.0 == (r.1 - track) * sectors
    ensures block + j >= 0 ==> block + r.0 >= 0
    ensures block + j < sectors <==> r == (j, track)
    decreases block + j
  {
    if block + j < sectors then (j, track) else Wrap(sectors, j - sectors, track + 1, block)
  }

  lemma MulAtLeast(d: int, s: int)
    requires d >= 1 && s > 0
    ensures d * s >= s
  {
    if d > 1 {
      MulAtLeast(d - 1, s);
      assert d * s == (d - 1) * s + s;
    }
  }

  lemma DivModUnique(x: int, s: int, q: int, m: int)
    requires s > 0 && 0 <= m < s && x == q * s + m
    ensures x / s == q && x % s == m
  {
    var q', m' := x / s, x % s;
    assert x == q' * s + m';
    var d := q - q';
    assert d * s == q * s - q' * s;
    assert d * s == m' - m;
    if d >= 1 {
      MulAtLeast(d, s);
    } else if d <= -1 {
      MulAtLeast(-d, s);
    }
  }

  /** The wrap loop computes a division with remainder: the new sector index within the
      track is (block + j) mod sectors, and the track grows by (block + j) div sectors. */
  lemma WrapIsDivMod(sectors: nat, j: int, track: int, block: int)
    requires sectors > 0 && block + j >= 0
    ensures var r := Wrap(sectors, j, track, block);
      block + r.0 == (block + j) % sectors && r.1 - track == (block + j) / sectors
  {
    var r := Wrap(sectors, j, track, block);
    assert block + j == (r.1 - track) * sectors + (block + r.0);
    DivModUnique(block + j, sectors, r.1 - track, block + r.0);
  }

  /** getIndex: the byte range [start, stop) of sector j of a run of L sectors that starts
      at (track, block). The band is chosen from the wrapped j, not from block + j. The
      last sector of the run (j == L - 1) is bytesLast long, every other one 256. */
  function SectorRange(g: Geometry, j: nat, track: nat, block: nat, L: nat, bytesLast: nat): (r: (nat, nat))
    requires g.Valid()
    ensures r.1 - r.0 == if j == L - 1 then bytesLast else SectorBytes
    ensures r.0 >= BandBase[0] + track * g.trackLength
  {
    var (jw, tw) := Wrap(g.sectors, j, track, block);
    var b := Band(jw);
    assert tw * g.trackLength >= track * g.trackLength;
    var start := BandBase[b] + tw * g.trackLength + (block + jw - BandShift[b]) * SectorStride;
    (start, start + if j == L - 1 then bytesLast else SectorBytes)
  }

  /** Start of sector s (0 <= s < sectors) of a track when the band is chosen from s itself:
      the physical layout the band table describes. */
  function CorrectedSectorStart(g: Geometry, track: nat, s: nat): (start: nat)
    requires g.Valid() && s < g.sectors
    ensures HeaderLength + track * g.trackLength <= start
    ensures start + SectorBytes <= HeaderLength + (track + 1) * g.trackLength
  {
    var b := Band(s);
    assert (track + 1) * g.trackLength == track * g.trackLength + g.trackLength;
    BandBase[b] + track * g.trackLength + (s - BandShift[b]) * SectorStride
  }

  /** Different sectors of one track occupy disjoint byte ranges under the corrected
      translation. */
  lemma CorrectedSectorsDisjoint(g: Geometry, track: nat, s1: nat, s2: nat)
    requires g.Valid() && s1 < g.sectors && s2 < g.sectors && s1 != s2
    ensures CorrectedSectorStart(g, track, s1) + SectorBytes <= CorrectedSectorStart(g, track, s2)
         || CorrectedSectorStart(g, track, s2) + SectorBytes <= CorrectedSectorStart(g, track, s1)
  {
  }

  /** Every sector of a cylinder the disk has lies inside the image the loader reads. */
  lemma CorrectedSectorInsideImage(g: Geometry, track: nat, s: nat)
    requires g.Valid() && s < g.sectors && track < g.cylinders
    ensures HeaderLength <= CorrectedSectorStart(g, track, s)
    ensures CorrectedSectorStart(g, track, s) + SectorBytes <= HeaderLength + DiskSize(g)
  {
    assert (track + 1) * g.trackLength <= g.cylinders * g.trackLength;
  }

  /** getIndex and the corrected translation agree whenever the wrapped j falls in the
      same band as the sector it addresses, block + j; in particular for runs that start
      at block 0. */
  lemma SectorRangeAgreesWithCorrected(g: Geometry, j: nat, track: nat, block: nat, L: nat, bytesLast: nat)
    requires g.Valid()
    ensures var (jw, tw) := Wrap(g.sectors, j, track, block);
      0 <= block + jw < g.sectors &&
      (Band(jw) == Band(block + jw) ==>
        SectorRange(g, j, track, block, L, bytesLast).0 == CorrectedSectorStart(g, tw, block + jw))
  {
  }

  /** A run of an 18-sector disk that starts at block 5: its fifth sector (j = 4) is
      sector 9 of the track, which has band 1, but getIndex uses band 0 for j = 4, and the
      range it returns runs past the end of track 0. */
  lemma BandSelectionCounterexample()
    ensures var g := Geometry(40, 18, 6400);
      SectorRange(g, 4, 0, 5, 6, 256) == (6380, 6636) &&
      6636 > HeaderLength + g.trackLength &&
      CorrectedSectorStart(g, 0, 5 + 4) == 634
  {
  }
}
