/** The directory walker dir and the lookup cat: a scan of 25-byte slots from a fixed
    offset of the directory track, the size fields of an entry, the free-space count, and
    the search for a file by name and extension. */
module Directory {
  import opened Results
  import opened Bytes
  import opened Text
  import opened DiskGeometry
  import opened Translator
  import opened Extents
  import opened Reconstruct

  /** Bit of byte 0 of a slot: the directory ends here. */
  const EndOfDirectory := 0x08

  /** Bit of byte 0 of a slot: the slot is not in use. */
  const Unused := 0x80

  // ---------------------------------------------------------------------------------
  // Size fields. dir applies them to bytes 12..24 of an entry, so d[2], d[5] and d[12]
  // are entry bytes 14, 17 and 24: the run lengths of the first two extents and the
  // trailing count.

  /** filesize_on_disk: whole sectors of the first two extents, in bytes. */
  function FilesizeOnDisk(d: seq<Byte>): (y: nat)
    requires |d| >= 6
    ensures y % SectorBytes == 0 && y <= 2 * 255 * SectorBytes
  {
    (d[2] as int + d[5]) * 256
  }

  /** filesize: the on-disk size with the last sector cut to d[12] bytes. */
  function Filesize(d: seq<Byte>): (y: int)
    requires |d| >= 13
    ensures y == FilesizeOnDisk(d) - SectorBytes + d[12]
    ensures FilesizeOnDisk(d) - SectorBytes <= y < FilesizeOnDisk(d)
  {
    FilesizeOnDisk(d) - 256 + d[12]
  }

  // ---------------------------------------------------------------------------------
  // Where the directory is

  /** N in dir: the offset of slot 0 in the loaded buffer. */
  function DirectoryBase(g: Geometry): nat {
    g.trackLength * 20 + 1648
  }

  /** The directory starts at the third sector (index 2) of track 20, as the sector
      layout of the translator places it. */
  lemma DirectoryBaseIsSector(g: Geometry)
    requires g.Valid()
    ensures 2 < g.sectors && DirectoryBase(g) == CorrectedSectorStart(g, 20, 2)
  {
  }

  /** Directory slot j: `data[N + j*25 : N + (j+1)*25]`, clamped at the buffer end. */
  function DirSlot(data: seq<Byte>, g: Geometry, j: nat): seq<Byte> {
    Record(data, RecordLength, DirectoryBase(g), j)
  }

  predicate IsEnd(slot: seq<Byte>) {
    |slot| > 0 && HasFlag(slot[0], EndOfDirectory)
  }

  predicate IsUnused(slot: seq<Byte>) {
    |slot| > 0 && HasFlag(slot[0], Unused)
  }

  // ---------------------------------------------------------------------------------
  // The scan

  /** What dir records for one entry. */
  datatype Entry = Entry(name: string, ext: string, size: int, sizeOnDisk: nat, lsn: seq<nat>)

  /** The entry a complete slot decodes to, given its chain list: the name from bytes
      1..8, the extension from bytes 9..11, the sizes from bytes 12..24. */
  function EntryOf(slot: seq<Byte>, lsn: seq<nat>): (e: Entry)
    requires |slot| >= RecordLength
    ensures |e.name| == 8 && |e.ext| == 3 && e.lsn == lsn
    ensures forall k :: 0 <= k < 8 ==> e.name[k] == CharOf(slot[1 + k])
    ensures forall k :: 0 <= k < 3 ==> e.ext[k] == CharOf(slot[9 + k])
    ensures e.size == e.sizeOnDisk - SectorBytes + slot[24]
    ensures e.sizeOnDisk == SectorBytes * (slot[14] as int + slot[17])
  {
    var d := slot[12..25];
    Entry(Decoded(slot[1..9]), Decoded(slot[9..12]), Filesize(d), FilesizeOnDisk(d), lsn)
  }

  /** The loop of dir from slot j on: the entries of the in-use slots before the first
      end marker, in slot order. An empty slot (past the buffer) raises IndexError, as
      reading its byte 0 does; so does an in-use slot shorter than 25 bytes, whose
      size fields are missing. The scan needs no bound: every step moves 25 bytes
      further into a finite buffer. */
  function Scan(data: seq<Byte>, g: Geometry, j: nat): (r: Result<seq<Entry>>)
    decreases |data| - (DirectoryBase(g) + j * RecordLength)
  {
    var slot := DirSlot(data, g, j);
    if |slot| == 0 then Failure(IndexError)
    else if HasFlag(slot[0], EndOfDirectory) then Success([])
    else if HasFlag(slot[0], Unused) then Scan(data, g, j + 1)
    else if |slot| < RecordLength then Failure(IndexError)
    else
      match Chain(data, RecordLength, DirectoryBase(g), slot, MaxHops)
      case Failure(e) => Failure(e)
      case Success(lsn) =>
        match Scan(data, g, j + 1)
        case Failure(e) => Failure(e)
        case Success(rest) => Success([EntryOf(slot, lsn)] + rest)
  }

  /** The in-use slots among lo..hi-1. */
  function LiveSlots(data: seq<Byte>, g: Geometry, lo: nat, hi: nat): (r: seq<nat>)
    ensures forall i :: 0 <= i < |r| ==> lo <= r[i] < hi && !IsUnused(DirSlot(data, g, r[i]))
    ensures forall i, i' :: 0 <= i < i' < |r| ==> r[i] < r[i']
    ensures forall k :: lo <= k < hi && !IsUnused(DirSlot(data, g, k)) ==> k in r
    decreases hi - lo
  {
    if hi <= lo then []
    else (if IsUnused(DirSlot(data, g, lo)) then [] else [lo]) + LiveSlots(data, g, lo + 1, hi)
  }

  /** dir stops at the first slot whose end bit is set and lists exactly the slots before
      it whose unused bit is clear: entry i decodes the i-th of them and carries its
      chain list. */
  lemma {:induction false} ScanStopsAtFirstEnd(data: seq<Byte>, g: Geometry, j: nat)
    requires Scan(data, g, j).Success?
    ensures exists e :: j <= e && IsEnd(DirSlot(data, g, e)) && ScannedUpTo(data, g, j, e)
    decreases |data| - (DirectoryBase(g) + j * RecordLength)
  {
    var slot := DirSlot(data, g, j);
    if HasFlag(slot[0], EndOfDirectory) {
      assert ScannedUpTo(data, g, j, j);
    } else {
      assert Scan(data, g, j + 1).Success?;
      ScanStopsAtFirstEnd(data, g, j + 1);
      var e :| j + 1 <= e && IsEnd(DirSlot(data, g, e)) && ScannedUpTo(data, g, j + 1, e);
      if HasFlag(slot[0], Unused) {
        ScanSkipsUnused(data, g, j, e);
      } else {
        ScanListsLive(data, g, j, e);
      }
    }
  }

  lemma ScanSkipsUnused(data: seq<Byte>, g: Geometry, j: nat, e: nat)
    requires j < e
    requires IsUnused(DirSlot(data, g, j)) && !IsEnd(DirSlot(data, g, j))
    requires Scan(data, g, j + 1).Success? && ScannedUpTo(data, g, j + 1, e)
    ensures Scan(data, g, j).Success? && ScannedUpTo(data, g, j, e)
  {
    assert Scan(data, g, j) == Scan(data, g, j + 1);
    assert LiveSlots(data, g, j, e) == LiveSlots(data, g, j + 1, e);
  }

  lemma ScanListsLive(data: seq<Byte>, g: Geometry, j: nat, e: nat)
    requires j < e
    requires Scan(data, g, j).Success?
    requires |DirSlot(data, g, j)| > 0 && !IsUnused(DirSlot(data, g, j)) && !IsEnd(DirSlot(data, g, j))
    requires Scan(data, g, j + 1).Success? && ScannedUpTo(data, g, j + 1, e)
    ensures ScannedUpTo(data, g, j, e)
  {
    var slot := DirSlot(data, g, j);
    var es, rest := Scan(data, g, j).value, Scan(data, g, j + 1).value;
    var ls, ls' := LiveSlots(data, g, j, e), LiveSlots(data, g, j + 1, e);
    var lsn := Chain(data, RecordLength, DirectoryBase(g), slot, MaxHops).value;
    assert ls == [j] + ls';
    assert es == [EntryOf(slot, lsn)] + rest;
    forall i | 0 <= i < |es|
      ensures EntryMatchesSlot(data, g, es[i], ls[i])
    {
      if i > 0 {
        assert es[i] == rest[i - 1] && ls[i] == ls'[i - 1];
      }
    }
  }

  /** Entry e is what slot k decodes to. */
  predicate EntryMatchesSlot(data: seq<Byte>, g: Geometry, e: Entry, k: nat) {
    var s := DirSlot(data, g, k);
    |s| >= RecordLength &&
    Chain(data, RecordLength, DirectoryBase(g), s, MaxHops) == Success(e.lsn) &&
    e == EntryOf(s, e.lsn)
  }

  /** The scan from slot j succeeded and read slots j..e-1, none of them empty or an end
      marker, and its entries are those of the in-use slots among them. */
  predicate ScannedUpTo(data: seq<Byte>, g: Geometry, j: nat, e: nat)
    requires Scan(data, g, j).Success?
  {
    var es := Scan(data, g, j).value;
    var ls := LiveSlots(data, g, j, e);
    (forall k :: j <= k < e ==> |DirSlot(data, g, k)| > 0 && !IsEnd(DirSlot(data, g, k))) &&
    |es| == |ls| &&
    forall i :: 0 <= i < |es| ==> EntryMatchesSlot(data, g, es[i], ls[i])
  }

  // ---------------------------------------------------------------------------------
  // The listing dir returns

  /** The dictionary dir returns. */
  datatype Listing = Listing(freeBytes: int, filenames: seq<string>, extensions: seq<string>,
                             filesizes: seq<int>, lsns: seq<seq<nat>>)

  /** The four lists have one element per listed entry. */
  predicate WellFormed(l: Listing) {
    |l.extensions| == |l.filenames| && |l.filesizes| == |l.filenames| && |l.lsns| == |l.filenames|
  }

  /** The free-byte count dir starts from: all sectors but 36, the two tracks of the
      directory of a one-sided disk or the one cylinder of a two-sided disk. */
  function InitialFree(g: Geometry): (f: int)
    requires g.Valid()
    ensures f == SectorBytes * (g.sectors * g.cylinders - 36)
  {
    if g.sectors == 18 then g.sectors * (g.cylinders - 2) * 256 else g.sectors * (g.cylinders - 1) * 256
  }

  /** The on-disk sizes of a list of entries, added up. */
  function SumOnDisk(es: seq<Entry>): int {
    if es == [] then 0 else es[0].sizeOnDisk + SumOnDisk(es[1..])
  }

  lemma {:induction false} SumOnDiskAppend(es: seq<Entry>, e: Entry)
    ensures SumOnDisk(es + [e]) == SumOnDisk(es) + e.sizeOnDisk
    decreases |es|
  {
    if es == [] {
      assert [] + [e] == [e];
    } else {
      assert (es + [e])[1..] == es[1..] + [e];
      SumOnDiskAppend(es[1..], e);
    }
  }

  /** The lists and free-byte count dir has built after the entries es, in order. */
  function ListingOf(g: Geometry, es: seq<Entry>): (l: Listing)
    requires g.Valid()
    ensures WellFormed(l) && |l.filenames| == |es|
    ensures forall i :: 0 <= i < |es| ==>
      l.filenames[i] == es[i].name && l.extensions[i] == es[i].ext &&
      l.filesizes[i] == es[i].size && l.lsns[i] == es[i].lsn
  {
    if es == [] then Listing(InitialFree(g), [], [], [], [])
    else
      var l := ListingOf(g, es[..|es| - 1]);
      var e := es[|es| - 1];
      Listing(l.freeBytes - e.sizeOnDisk, l.filenames + [e.name], l.extensions + [e.ext],
              l.filesizes + [e.size], l.lsns + [e.lsn])
  }

  /** The running free-byte count ends at the initial count less every listed entry's
      on-disk size. */
  lemma {:induction false} ListingFreeBytes(g: Geometry, es: seq<Entry>)
    requires g.Valid()
    ensures ListingOf(g, es).freeBytes == InitialFree(g) - SumOnDisk(es)
    decreases |es|
  {
    if es != [] {
      var init := es[..|es| - 1];
      ListingFreeBytes(g, init);
      SumOnDiskAppend(init, es[|es| - 1]);
      assert init + [es[|es| - 1]] == es;
    }
  }

  /** dir: the listing of the scan from slot 0. */
  function DirListing(data: seq<Byte>, g: Geometry): (r: Result<Listing>)
    requires g.Valid()
    ensures r.Success? ==> WellFormed(r.value)
  {
    match Scan(data, g, 0)
    case Success(es) => Success(ListingOf(g, es))
    case Failure(e) => Failure(e)
  }

  // ---------------------------------------------------------------------------------
  // cat

  /** Entry i has the stripped file name `name` and the extension `ext`. */
  predicate Matches(l: Listing, name: string, ext: string, i: nat)
    requires WellFormed(l) && i < |l.filenames|
  {
    RStrip(l.filenames[i]) == name && l.extensions[i] == ext
  }

  /** The last of the first n entries that matches, or -1 when none does. */
  function LastMatch(l: Listing, name: string, ext: string, n: nat): (k: int)
    requires WellFormed(l) && n <= |l.filenames|
    ensures -1 <= k < n
    ensures k >= 0 ==> Matches(l, name, ext, k)
    ensures forall i :: k < i < n ==> !Matches(l, name, ext, i)
  {
    if n == 0 then -1
    else if Matches(l, name, ext, n - 1) then n - 1
    else LastMatch(l, name, ext, n - 1)
  }

  /** Some entry has the stripped file name `name`. */
  predicate SomeNameMatches(l: Listing, name: string) {
    exists i :: 0 <= i < |l.filenames| && RStrip(l.filenames[i]) == name
  }

  /** cat on a listing, for a name already split at its dots: the data of the last
      matching entry. Without a dot, the first entry whose name matches makes the
      source read the missing extension (IndexError); no match at all leaves its result
      unbound (NotFound). */
  function CatOf(data: seq<Byte>, g: Geometry, l: Listing, search: seq<string>): (r: Result<seq<Byte>>)
    requires g.Valid() && WellFormed(l) && |search| >= 1
  {
    if |search| < 2 then
      if SomeNameMatches(l, search[0]) then Failure(IndexError) else Failure(NotFound)
    else
      var k := LastMatch(l, search[0], search[1], |l.filenames|);
      if k < 0 then Failure(NotFound) else Success(FileBytes(data, g, l.lsns[k]))
  }

  /** cat: the directory listing, then the lookup. */
  function CatFile(data: seq<Byte>, g: Geometry, filename: string): Result<seq<Byte>>
    requires g.Valid()
  {
    match DirListing(data, g)
    case Failure(e) => Failure(e)
    case Success(l) => CatOf(data, g, l, Split(filename, '.'))
  }

  /** cat returns the data of an entry exactly when the name has a dot and some entry
      matches it; the data is that of the last such entry. */
  lemma CatFindsLastMatch(data: seq<Byte>, g: Geometry, l: Listing, search: seq<string>)
    requires g.Valid() && WellFormed(l) && |search| >= 1
    ensures CatOf(data, g, l, search).Success? <==>
      |search| >= 2 && exists i :: 0 <= i < |l.filenames| && Matches(l, search[0], search[1], i)
    ensures CatOf(data, g, l, search).Success? ==>
      exists k :: 0 <= k < |l.filenames| && Matches(l, search[0], search[1], k) &&
        (forall i :: k < i < |l.filenames| ==> !Matches(l, search[0], search[1], i)) &&
        CatOf(data, g, l, search).value == FileBytes(data, g, l.lsns[k])
  {
    if |search| >= 2 {
      var k := LastMatch(l, search[0], search[1], |l.filenames|);
      if k >= 0 {
        assert Matches(l, search[0], search[1], k);
      }
    }
  }

  // ---------------------------------------------------------------------------------
  // The size fields against the chain

  /** For an entry that needs no continuation record and has at most two extents, the
      size dir reports is the size of the file the chain describes. */
  lemma FilesizeMatchesChainForTwoExtents(data: seq<Byte>, M: nat, N: nat, slot: seq<Byte>, hops: nat)
    requires |slot| >= RecordLength
    requires !HasFlag(slot[0], ContinuationShape) && !HasFlag(slot[0], MoreRecords)
    requires slot[20] == 0 && slot[23] == 0
    ensures Chain(data, M, N, slot, hops).Success?
    ensures var lsn := Chain(data, M, N, slot, hops).value;
      |lsn| % 2 == 1 && Filesize(slot[12..25]) == ChainFileSize(lsn) &&
      FilesizeOnDisk(slot[12..25]) == SectorBytes * TotalSectors(lsn, |lsn| / 2)
  {
    var lsn := Chain(data, M, N, slot, hops).value;
    var a, b := PairOf(slot[12], slot[13], slot[14]), PairOf(slot[15], slot[16], slot[17]);
    ChainOfOneRecord(data, M, N, slot, hops);
    EntryRuns(slot);
    assert Runs(slot) == a + b;
    assert lsn == a + b + [slot[24]];
    if |a| == 0 && |b| == 0 {
      assert TotalSectors(lsn, |lsn| / 2) == 0;
    } else if |a| == 0 || |b| == 0 {
      assert TotalSectors(lsn, |lsn| / 2) == slot[14] as int + slot[17];
    } else {
      assert TotalSectors(lsn, 1) == slot[14];
      assert TotalSectors(lsn, |lsn| / 2) == slot[14] as int + slot[17];
    }
  }

  /** A one-record entry with three one-sector extents at sectors 10, 11 and 12 and 10
      bytes in the last sector: the chain describes a 522-byte file, dir reports 266. */
  lemma FilesizeThreeExtentsCounterexample(data: seq<Byte>, N: nat)
    ensures var slot := ThreeExtentSlot();
      Chain(data, RecordLength, N, slot, MaxHops) == Success([10, 1, 11, 1, 12, 1, 10]) &&
      ChainFileSize([10, 1, 11, 1, 12, 1, 10]) == 522 &&
      Filesize(slot[12..25]) == 266
  {
    var slot := ThreeExtentSlot();
    ChainOfOneRecord(data, RecordLength, N, slot, MaxHops);
    EntryRuns(slot);
    var lsn: seq<nat> := [10, 1, 11, 1, 12, 1, 10];
    assert Runs(slot) + [slot[24]] == lsn;
    assert TotalSectors(lsn, 1) == 1 && TotalSectors(lsn, 2) == 2 && TotalSectors(lsn, 3) == 3;
  }

  function ThreeExtentSlot(): (s: seq<Byte>)
    ensures |s| == RecordLength
  {
    [0, 0, 0, 0, 0, 0, 0, 0, 0, 0, 0, 0,
     0, 10, 1, 0, 11, 1, 0, 12, 1, 0, 0, 0,
     10]
  }
}
