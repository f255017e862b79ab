/** The file reconstructor getData: the bytes of a file are the translated sector slices
    of its runs, read in run order and sector order. */
module Reconstruct {
  import opened Bytes
  import opened DiskGeometry
  import opened Translator
  import opened Extents

  /** Where a sector of a run begins in the loaded image: for sector j of the run of L
      sectors that starts at logical sector x and whose last sector holds bytesLast bytes.
      getData asks getIndex; the lemmas about lengths hold for any such locator. */
  type Locator = (nat, nat, nat, nat) -> nat

  /** The locator getData uses: getIndex with the run start split into a track and a block
      by division by the sectors per track. */
  function IndexLocator(g: Geometry): Locator {
    (x: nat, L: nat, bytesLast: nat, j: nat) =>
      if g.Valid() then SectorRange(g, j, x / g.sectors, x % g.sectors, L, bytesLast).0 else 0
  }

  /** The number of bytes getIndex gives sector j of a run of L sectors. */
  function SectorWidth(L: nat, bytesLast: nat, j: nat): nat {
    if j == L - 1 then bytesLast else SectorBytes
  }

  /** Bytes of sector j of the run of L sectors that starts at logical sector x. */
  function RunSector(data: seq<Byte>, at: Locator, x: nat, L: nat, bytesLast: nat, j: nat): seq<Byte> {
    var start := at(x, L, bytesLast, j);
    Slice(data, start, start + SectorWidth(L, bytesLast, j))
  }

  /** The end of the byte range of that sector. */
  function RunSectorEnd(at: Locator, x: nat, L: nat, bytesLast: nat, j: nat): nat {
    at(x, L, bytesLast, j) + SectorWidth(L, bytesLast, j)
  }

  /** The range getIndex returns for a sector is the one the locator and the width give. */
  lemma IndexedSector(data: seq<Byte>, g: Geometry, x: nat, L: nat, bytesLast: nat, j: nat, start: nat, stop: nat)
    requires g.Valid() && (start, stop) == SectorRange(g, j, x / g.sectors, x % g.sectors, L, bytesLast)
    ensures Slice(data, start, stop) == RunSector(data, IndexLocator(g), x, L, bytesLast, j)
  {
    assert start == IndexLocator(g)(x, L, bytesLast, j);
    assert stop == start + SectorWidth(L, bytesLast, j);
  }

  /** The first n sectors of the run, concatenated. */
  function RunBytes(data: seq<Byte>, at: Locator, x: nat, L: nat, bytesLast: nat, n: nat): seq<Byte> {
    if n == 0 then [] else RunBytes(data, at, x, L, bytesLast, n - 1) + RunSector(data, at, x, L, bytesLast, n - 1)
  }

  /** The first n sectors of the run lie inside the buffer. */
  predicate RunFits(data: seq<Byte>, at: Locator, x: nat, L: nat, bytesLast: nat, n: nat) {
    n == 0 || (RunFits(data, at, x, L, bytesLast, n - 1) && RunSectorEnd(at, x, L, bytesLast, n - 1) <= |data|)
  }

  /** The bytesLast getData passes for the pair at index i: the trailing count for the
      pair just before it (index |lsn| - 3), 256 for every other pair. */
  function BytesLast(lsn: seq<nat>, i: nat): nat {
    if i + 3 == |lsn| then lsn[|lsn| - 1] else SectorBytes
  }

  /** The bytes getData appends for the pair at index i of lsn. */
  function PairBytes(data: seq<Byte>, at: Locator, lsn: seq<nat>, i: nat): seq<Byte>
    requires i + 1 < |lsn|
  {
    RunBytes(data, at, lsn[i], lsn[i + 1], BytesLast(lsn, i), lsn[i + 1])
  }

  /** The bytes of the first p runs of lsn. */
  function FilePrefix(data: seq<Byte>, at: Locator, lsn: seq<nat>, p: nat): seq<Byte>
    requires 2 * p <= |lsn|
  {
    if p == 0 then []
    else
      var i := 2 * (p - 1);
      FilePrefix(data, at, lsn, p - 1) + PairBytes(data, at, lsn, i)
  }

  /** The first p runs of lsn lie inside the buffer. */
  predicate PrefixFits(data: seq<Byte>, at: Locator, lsn: seq<nat>, p: nat)
    requires 2 * p <= |lsn|
  {
    p == 0 ||
      (var i := 2 * (p - 1);
       PrefixFits(data, at, lsn, p - 1) && RunFits(data, at, lsn[i], lsn[i + 1], BytesLast(lsn, i), lsn[i + 1]))
  }

  /** getData: the runs are the pairs at indices 0, 2, ... below |lsn| - 1, that is,
      |lsn| / 2 of them, each read through getIndex. */
  function FileBytes(data: seq<Byte>, g: Geometry, lsn: seq<nat>): seq<Byte> {
    FilePrefix(data, IndexLocator(g), lsn, |lsn| / 2)
  }

  /** One step of getData: run p extends the prefix of p runs to the prefix of p + 1. */
  lemma PrefixAppend(data: seq<Byte>, at: Locator, lsn: seq<nat>, p: nat, run: seq<Byte>)
    requires 2 * p + 1 < |lsn|
    requires run == PairBytes(data, at, lsn, 2 * p)
    ensures FilePrefix(data, at, lsn, p) + run == FilePrefix(data, at, lsn, p + 1)
  {
  }

  /** The sum of the run lengths of the first p pairs. */
  function TotalSectors(lsn: seq<nat>, p: nat): nat
    requires 2 * p <= |lsn|
  {
    if p == 0 then 0 else TotalSectors(lsn, p - 1) + lsn[2 * (p - 1) + 1]
  }

  /** The size in bytes of the file a chain list [lsn1, len1, ..., trailing] describes:
      every sector is full except the last one, which holds the trailing count. */
  function ChainFileSize(lsn: seq<nat>): int
    requires |lsn| % 2 == 1
  {
    SectorBytes * (TotalSectors(lsn, |lsn| / 2) - 1) + lsn[|lsn| - 1]
  }

  /** Every run length of a pair list is in 1..255. */
  lemma {:induction false} PairListRunLength(r: seq<nat>, k: nat)
    requires PairList(r) && 2 * k + 1 < |r|
    ensures 0 < r[2 * k + 1] < 256
    decreases k
  {
    if k > 0 {
      assert r[2..][2 * (k - 1) + 1] == r[2 * k + 1];
      PairListRunLength(r[2..], k - 1);
    }
  }

  /** A run read with sector length 256 except the last, bytesLast: its first n <= L
      sectors never hold more than that, and exactly that when they fit. */
  lemma {:induction false} RunBytesLength(data: seq<Byte>, at: Locator, x: nat, L: nat, bytesLast: nat, n: nat)
    requires 1 <= n <= L
    ensures |RunBytes(data, at, x, L, bytesLast, n)| <=
      if n == L then SectorBytes * (L - 1) + bytesLast else SectorBytes * n
    ensures RunFits(data, at, x, L, bytesLast, n) ==>
      |RunBytes(data, at, x, L, bytesLast, n)| == if n == L then SectorBytes * (L - 1) + bytesLast else SectorBytes * n
    decreases n
  {
    var sector := RunSector(data, at, x, L, bytesLast, n - 1);
    assert |sector| <= SectorWidth(L, bytesLast, n - 1);
    if n > 1 {
      RunBytesLength(data, at, x, L, bytesLast, n - 1);
    }
  }

  /** Two byte strings, each bounded by its capacity and filling it when it fits. */
  lemma AppendBound(a: seq<Byte>, b: seq<Byte>, A: nat, B: nat, fitsA: bool, fitsB: bool)
    requires |a| <= A && (fitsA ==> |a| == A)
    requires |b| <= B && (fitsB ==> |b| == B)
    ensures |a + b| <= A + B && (fitsA && fitsB ==> |a + b| == A + B)
  {
  }

  /** Reading run p adds 256 bytes for each of its sectors but the last, and bytesLast for
      that one, when it fits; never more. */
  lemma PrefixStepLength(data: seq<Byte>, at: Locator, lsn: seq<nat>, p: nat, C: nat)
    requires 2 * p <= |lsn| && p > 0 && lsn[2 * p - 1] > 0
    requires |FilePrefix(data, at, lsn, p - 1)| <= C
    requires PrefixFits(data, at, lsn, p - 1) ==> |FilePrefix(data, at, lsn, p - 1)| == C
    ensures var L, bytesLast := lsn[2 * p - 1], BytesLast(lsn, 2 * p - 2);
      |FilePrefix(data, at, lsn, p)| <= C + SectorBytes * (L - 1) + bytesLast &&
      (PrefixFits(data, at, lsn, p) ==> |FilePrefix(data, at, lsn, p)| == C + SectorBytes * (L - 1) + bytesLast)
  {
    var i := 2 * (p - 1);
    var x, L, bytesLast := lsn[i], lsn[i + 1], BytesLast(lsn, i);
    RunBytesLength(data, at, x, L, bytesLast, L);
    AppendBound(FilePrefix(data, at, lsn, p - 1), RunBytes(data, at, x, L, bytesLast, L),
      C, SectorBytes * (L - 1) + bytesLast, PrefixFits(data, at, lsn, p - 1), RunFits(data, at, x, L, bytesLast, L));
  }

  /** A run of no sectors adds nothing. */
  lemma EmptyRunStep(data: seq<Byte>, at: Locator, lsn: seq<nat>, p: nat)
    requires 2 * p <= |lsn| && p > 0 && lsn[2 * p - 1] == 0
    ensures FilePrefix(data, at, lsn, p) == FilePrefix(data, at, lsn, p - 1)
    ensures PrefixFits(data, at, lsn, p) == PrefixFits(data, at, lsn, p - 1)
  {
    var i := 2 * (p - 1);
    assert PairBytes(data, at, lsn, i) == [];
    assert RunFits(data, at, lsn[i], lsn[i + 1], BytesLast(lsn, i), lsn[i + 1]);
    assert FilePrefix(data, at, lsn, p - 1) + [] == FilePrefix(data, at, lsn, p - 1);
  }

  /** The runs before the last one hold 256 bytes per sector, or less when they do not fit. */
  lemma {:induction false} FilePrefixLength(data: seq<Byte>, at: Locator, lsn: seq<nat>, p: nat)
    requires 2 * p + 1 < |lsn|
    ensures |FilePrefix(data, at, lsn, p)| <= SectorBytes * TotalSectors(lsn, p)
    ensures PrefixFits(data, at, lsn, p) ==> |FilePrefix(data, at, lsn, p)| == SectorBytes * TotalSectors(lsn, p)
    decreases p
  {
    if p > 0 {
      var T, L := TotalSectors(lsn, p - 1), lsn[2 * p - 1];
      FilePrefixLength(data, at, lsn, p - 1);
      assert TotalSectors(lsn, p) == T + L;
      if L > 0 {
        assert BytesLast(lsn, 2 * p - 2) == SectorBytes;
        PrefixStepLength(data, at, lsn, p, SectorBytes * T);
        assert SectorBytes * (T + L) == SectorBytes * T + SectorBytes * (L - 1) + SectorBytes;
      } else {
        EmptyRunStep(data, at, lsn, p);
      }
    }
  }

  /** The same for all p runs of lsn = [.., trailing] with |lsn| = 2 * p + 1: the last run
      ends in a sector of `trailing` bytes. */
  lemma AllRunsLength(data: seq<Byte>, at: Locator, lsn: seq<nat>, p: nat)
    requires |lsn| == 2 * p + 1 && p >= 1 && lsn[2 * p - 1] > 0
    ensures |FilePrefix(data, at, lsn, p)| <= SectorBytes * (TotalSectors(lsn, p) - 1) + lsn[2 * p]
    ensures PrefixFits(data, at, lsn, p) ==>
      |FilePrefix(data, at, lsn, p)| == SectorBytes * (TotalSectors(lsn, p) - 1) + lsn[2 * p]
  {
    var T, L := TotalSectors(lsn, p - 1), lsn[2 * p - 1];
    FilePrefixLength(data, at, lsn, p - 1);
    assert BytesLast(lsn, 2 * p - 2) == lsn[2 * p];
    PrefixStepLength(data, at, lsn, p, SectorBytes * T);
    assert SectorBytes * (T + L - 1) == SectorBytes * T + SectorBytes * (L - 1);
  }

  /** The length of what getData returns for a chain list: 256 * (sum of run lengths - 1)
      plus the trailing count when every sector lies inside the buffer, never more. */
  lemma FileBytesLength(data: seq<Byte>, g: Geometry, lsn: seq<nat>)
    requires |lsn| % 2 == 1 && |lsn| >= 3
    requires PairList(lsn[..|lsn| - 1])
    ensures |FileBytes(data, g, lsn)| <= ChainFileSize(lsn)
    ensures PrefixFits(data, IndexLocator(g), lsn, |lsn| / 2) ==> |FileBytes(data, g, lsn)| == ChainFileSize(lsn)
  {
    var p := |lsn| / 2;
    assert |lsn| == 2 * p + 1;
    PairListRunLength(lsn[..|lsn| - 1], p - 1);
    assert lsn[..|lsn| - 1][2 * p - 1] == lsn[2 * p - 1];
    AllRunsLength(data, IndexLocator(g), lsn, p);
  }

  /** Adding j to x = q * s + m lands where adding j to m does, q tracks further on. */
  lemma DivModShift(x: nat, j: nat, s: nat)
    requires s > 0
    ensures (x + j) / s == x / s + (x % s + j) / s
    ensures (x + j) % s == (x % s + j) % s
  {
    var q, m := x / s, x % s;
    var q', m' := (m + j) / s, (m + j) % s;
    assert x == q * s + m;
    assert m + j == q' * s + m';
    assert x + j == (q + q') * s + m' by {
      assert (q + q') * s == q * s + q' * s;
    }
    DivModUnique(x + j, s, q + q', m');
  }

  /** getData reads sector j of a run from the sector getIndex computes for track
      x div sectors and block x mod sectors; when getIndex picks the band of the sector
      it addresses, that is the sector whose logical number is x + j. */
  lemma RunSectorIsLogicalSector(data: seq<Byte>, g: Geometry, x: nat, L: nat, bytesLast: nat, j: nat)
    requires g.Valid()
    requires var (jw, tw) := Wrap(g.sectors, j, x / g.sectors, x % g.sectors);
      Band(jw) == Band(x % g.sectors + jw)
    ensures RunSector(data, IndexLocator(g), x, L, bytesLast, j) ==
      var start := CorrectedSectorStart(g, (x + j) / g.sectors, (x + j) % g.sectors);
      Slice(data, start, start + if j == L - 1 then bytesLast else SectorBytes)
  {
    var r := SectorRange(g, j, x / g.sectors, x % g.sectors, L, bytesLast);
    IndexedSector(data, g, x, L, bytesLast, j, r.0, r.1);
    CorrectedStart(g, x, L, bytesLast, j);
  }

  /** The arithmetic half of RunSectorIsLogicalSector. */
  lemma CorrectedStart(g: Geometry, x: nat, L: nat, bytesLast: nat, j: nat)
    requires g.Valid()
    requires var (jw, tw) := Wrap(g.sectors, j, x / g.sectors, x % g.sectors);
      Band(jw) == Band(x % g.sectors + jw)
    ensures SectorRange(g, j, x / g.sectors, x % g.sectors, L, bytesLast).0 ==
      CorrectedSectorStart(g, (x + j) / g.sectors, (x + j) % g.sectors)
  {
    var s := g.sectors;
    var (jw, tw) := Wrap(s, j, x / s, x % s);
    SectorRangeAgreesWithCorrected(g, j, x / s, x % s, L, bytesLast);
    WrapIsDivMod(s, j, x / s, x % s);
    DivModShift(x, j, s);
    assert tw == (x + j) / s && x % s + jw == (x + j) % s;
  }
}
