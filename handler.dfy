/** The dmkHandler object: a DMK image loaded once into an immutable buffer, its geometry,
    and the read operations of the DragonDOS file system over that buffer. */
module Handler {
  import opened Results
  import opened Bytes
  import opened Text
  import opened DiskGeometry
  import opened Translator
  import opened Extents
  import opened Reconstruct
  import opened Directory

  /** The dictionary info returns. */
  datatype DiskInfo = DiskInfo(writeProtect: Byte, cylinders: nat, sectors: nat, trackLength: nat,
                               optionFlags: Byte, reserved: seq<Byte>, driveType: seq<Byte>,
                               diskSize: nat)

  /** The outcome of logical_sector_numbers once it has collected out and reached rec
      with `left` hops to go: out, then the chain from rec. */
  ghost function ChainFrom(data: seq<Byte>, M: nat, N: nat, out: seq<nat>, rec: seq<Byte>, left: nat): Result<seq<nat>> {
    match Walk(data, M, N, rec, left)
    case Success(recs) => Success(out + AllRuns(recs) + [recs[|recs| - 1][24]])
    case Failure(e) => Failure(e)
  }

  /** A scan result with the entries already listed put in front, turned into a listing. */
  ghost function Continue(g: Geometry, listed: seq<Entry>, s: Result<seq<Entry>>): Result<Listing>
    requires g.Valid()
  {
    match s
    case Success(rest) => Success(ListingOf(g, listed + rest))
    case Failure(e) => Failure(e)
  }

  /** Before the first record nothing has been collected. */
  lemma ChainFromStart(data: seq<Byte>, M: nat, N: nat, record: seq<Byte>)
    ensures Chain(data, M, N, record, MaxHops) == ChainFrom(data, M, N, [], record, MaxHops)
  {
    var w := Walk(data, M, N, record, MaxHops);
    if w.Success? {
      var tail: seq<nat> := AllRuns(w.value) + [w.value[|w.value| - 1][24]];
      assert [] + AllRuns(w.value) + [w.value[|w.value| - 1][24]] == tail;
    }
  }

  /** A record that points on contributes its pairs and hands over to the next record. */
  lemma ChainFromStep(data: seq<Byte>, M: nat, N: nat, out: seq<nat>, rec: seq<Byte>, left: nat)
    requires Live(rec) && left > 0
    ensures ChainFrom(data, M, N, out, rec, left) ==
            ChainFrom(data, M, N, out + Runs(rec), Record(data, M, N, rec[24]), left - 1)
  {
    var w := Walk(data, M, N, Record(data, M, N, rec[24]), left - 1);
    if w.Success? {
      var rest := w.value;
      assert Walk(data, M, N, rec, left) == Success([rec] + rest);
      AllRunsCons(rec, rest);
      var recs := [rec] + rest;
      assert recs[|recs| - 1] == rest[|rest| - 1];
      var t: seq<nat> := [rest[|rest| - 1][24]];
      assert out + AllRuns(recs) + t == (out + Runs(rec)) + AllRuns(rest) + t;
    }
  }

  /** A record too short to hold its pointer fields, or a live record with no hops left,
      stops the walk with the matching error. */
  lemma ChainFromStops(data: seq<Byte>, M: nat, N: nat, out: seq<nat>, rec: seq<Byte>, left: nat)
    ensures |rec| < RecordLength ==> ChainFrom(data, M, N, out, rec, left) == Failure(IndexError)
    ensures Live(rec) && left == 0 ==> ChainFrom(data, M, N, out, rec, left) == Failure(ChainCycle)
  {
  }

  /** A complete record that does not point on ends the chain: its pairs, then its byte 24. */
  lemma ChainFromEnd(data: seq<Byte>, M: nat, N: nat, out: seq<nat>, rec: seq<Byte>, left: nat)
    requires |rec| >= RecordLength && !HasFlag(rec[0], MoreRecords)
    ensures ChainFrom(data, M, N, out, rec, left) == Success(out + Runs(rec) + [rec[24]])
  {
    var recs := [rec];
    assert Walk(data, M, N, rec, left) == Success(recs);
    assert recs[1..] == [];
    assert AllRuns(recs) == Runs(rec) + [];
    assert recs[|recs| - 1][24] == rec[24];
    var want: seq<nat> := out + Runs(rec) + [rec[24]];
    assert out + AllRuns(recs) + [recs[|recs| - 1][24]] == want;
  }

  /** dir before slot 0: nothing listed, the free count at its initial value. */
  lemma DirStart(data: seq<Byte>, g: Geometry)
    requires g.Valid()
    ensures DirListing(data, g) == Continue(g, [], Scan(data, g, 0))
    ensures ListingOf(g, []) == Listing(InitialFree(g), [], [], [], [])
  {
    var s := Scan(data, g, 0);
    if s.Success? {
      assert [] + s.value == s.value;
    }
  }

  /** Slot j of dir is the record the loop slices out of the buffer. */
  lemma DirSlotIsRecord(data: seq<Byte>, g: Geometry, j: nat, N: nat, M: nat)
    requires N == DirectoryBase(g) && M == RecordLength
    ensures Slice(data, N + j * M, N + (j + 1) * M) == DirSlot(data, g, j)
    ensures |DirSlot(data, g, j)| > 0 ==> j < |data|
  {
    if |DirSlot(data, g, j)| > 0 {
      assert N + j * M < |data|;
    }
  }

  /** A slot past the end of the buffer: reading its byte 0 fails. */
  lemma DirAtEmpty(data: seq<Byte>, g: Geometry, listed: seq<Entry>, j: nat)
    requires g.Valid() && |DirSlot(data, g, j)| == 0
    ensures Continue(g, listed, Scan(data, g, j)) == Failure(IndexError)
  {
  }

  /** An end marker: the listing so far is the result. */
  lemma DirAtEnd(data: seq<Byte>, g: Geometry, listed: seq<Entry>, j: nat)
    requires g.Valid() && IsEnd(DirSlot(data, g, j))
    ensures Continue(g, listed, Scan(data, g, j)) == Success(ListingOf(g, listed))
  {
    assert Scan(data, g, j) == Success([]);
    assert listed + [] == listed;
  }

  /** An unused slot is skipped. */
  lemma DirAtUnused(data: seq<Byte>, g: Geometry, listed: seq<Entry>, j: nat)
    requires g.Valid() && !IsEnd(DirSlot(data, g, j)) && IsUnused(DirSlot(data, g, j))
    ensures Continue(g, listed, Scan(data, g, j)) == Continue(g, listed, Scan(data, g, j + 1))
  {
  }

  /** An in-use slot shorter than a record: reading its size fields fails. */
  lemma DirAtShort(data: seq<Byte>, g: Geometry, listed: seq<Entry>, j: nat)
    requires g.Valid() && |DirSlot(data, g, j)| > 0 && !IsEnd(DirSlot(data, g, j)) && !IsUnused(DirSlot(data, g, j))
    requires |DirSlot(data, g, j)| < RecordLength
    ensures Continue(g, listed, Scan(data, g, j)) == Failure(IndexError)
  {
  }

  /** An in-use slot whose chain fails: the failure is the result. */
  lemma DirAtBadChain(data: seq<Byte>, g: Geometry, listed: seq<Entry>, j: nat)
    requires g.Valid() && |DirSlot(data, g, j)| >= RecordLength
    requires !IsEnd(DirSlot(data, g, j)) && !IsUnused(DirSlot(data, g, j))
    requires Chain(data, RecordLength, DirectoryBase(g), DirSlot(data, g, j), MaxHops).Failure?
    ensures Continue(g, listed, Scan(data, g, j)) ==
      Failure(Chain(data, RecordLength, DirectoryBase(g), DirSlot(data, g, j), MaxHops).error)
  {
  }

  /** An in-use slot whose chain succeeds: its entry is listed and the scan moves on. */
  lemma DirAtLive(data: seq<Byte>, g: Geometry, listed: seq<Entry>, j: nat, lsn: seq<nat>)
    requires g.Valid() && |DirSlot(data, g, j)| >= RecordLength
    requires !IsEnd(DirSlot(data, g, j)) && !IsUnused(DirSlot(data, g, j))
    requires Chain(data, RecordLength, DirectoryBase(g), DirSlot(data, g, j), MaxHops) == Success(lsn)
    ensures Continue(g, listed, Scan(data, g, j)) ==
      Continue(g, listed + [EntryOf(DirSlot(data, g, j), lsn)], Scan(data, g, j + 1))
  {
    var e := EntryOf(DirSlot(data, g, j), lsn);
    var rest := Scan(data, g, j + 1);
    if rest.Success? {
      assert listed + ([e] + rest.value) == (listed + [e]) + rest.value;
    }
  }

  /** Listing one more entry: its name, extension, size and chain list are appended and
      its on-disk size is charged against the free count. */
  lemma ListingAppend(g: Geometry, listed: seq<Entry>, e: Entry)
    requires g.Valid()
    ensures var l := ListingOf(g, listed);
      ListingOf(g, listed + [e]) ==
        Listing(l.freeBytes - e.sizeOnDisk, l.filenames + [e.name], l.extensions + [e.ext],
                l.filesizes + [e.size], l.lsns + [e.lsn])
  {
    assert (listed + [e])[..|listed|] == listed;
  }

  /** What dir's loop does with one slot: stop with an error, stop at the end marker, skip
      an unused slot, or list an entry. */
  datatype SlotStep = Stop(err: Error) | End | Skip | Add(entry: Entry)

  /** The step for slot j, in the order the source tests the slot. This is one step of
      Directory.Scan, split out so that dir's loop can match on it; ScanStep proves the two
      agree. */
  function SlotStepAt(data: seq<Byte>, g: Geometry, j: nat): (st: SlotStep)
    ensures st.Skip? || st.Add? ==> |DirSlot(data, g, j)| > 0
    ensures st.Add? ==> |DirSlot(data, g, j)| >= RecordLength
  {
    var slot := DirSlot(data, g, j);
    if |slot| == 0 then Stop(IndexError)
    else if HasFlag(slot[0], EndOfDirectory) then End
    else if HasFlag(slot[0], Unused) then Skip
    else if |slot| < RecordLength then Stop(IndexError)
    else
      match Chain(data, RecordLength, DirectoryBase(g), slot, MaxHops)
      case Failure(e) => Stop(e)
      case Success(lsn) => Add(EntryOf(slot, lsn))
  }

  /** One step of the scan: the listing from slot j is decided by slot j's step and, when it
      does not stop the scan, by the listing from slot j + 1. */
  lemma ScanStep(data: seq<Byte>, g: Geometry, listed: seq<Entry>, j: nat)
    requires g.Valid()
    ensures Continue(g, listed, Scan(data, g, j)) ==
      match SlotStepAt(data, g, j)
      case Stop(e) => Failure(e)
      case End => Success(ListingOf(g, listed))
      case Skip => Continue(g, listed, Scan(data, g, j + 1))
      case Add(e) => Continue(g, listed + [e], Scan(data, g, j + 1))
  {
    var slot := DirSlot(data, g, j);
    if |slot| == 0 {
      DirAtEmpty(data, g, listed, j);
    } else if IsEnd(slot) {
      DirAtEnd(data, g, listed, j);
    } else if IsUnused(slot) {
      DirAtUnused(data, g, listed, j);
    } else if |slot| < RecordLength {
      DirAtShort(data, g, listed, j);
    } else {
      var c := Chain(data, RecordLength, DirectoryBase(g), slot, MaxHops);
      if c.Failure? {
        DirAtBadChain(data, g, listed, j);
      } else {
        DirAtLive(data, g, listed, j, c.value);
      }
    }
  }

  /** getData's block: the start minus whole tracks is the remainder. */
  lemma SplitRunStart(x: nat, s: nat)
    requires s > 0
    ensures 0 <= x - (x / s) * s == x % s
  {
  }

  class DmkHandler {
    /** The header and the track data, as read from the image. */
    const data: seq<Byte>
    const cylinders: nat
    const sectors: nat
    const trackLength: nat
    const diskSize: nat

    function Geom(): Geometry {
      Geometry(cylinders, sectors, trackLength)
    }

    predicate Valid() {
      Geom().Valid() && diskSize == DiskSize(Geom()) && 5 <= |data| <= HeaderLength + diskSize
    }

    /** Loading an image: geometry from the 16-byte header, then the header and
        cylinders * trackLength bytes of track data, or less if the image is shorter. */
    constructor (image: seq<Byte>)
      requires |image| >= 5
      ensures Valid()
      ensures Geom() == DeriveGeometry(Slice(image, 0, HeaderLength))
      ensures data == Slice(image, 0, HeaderLength + diskSize)
    {
      var header := Slice(image, 0, HeaderLength);
      var s, t;
      if !HasFlag(header[4], SingleSided) {
        s, t := 36, 6400 * 2;
      } else {
        s, t := 18, 6400;
      }
      cylinders, sectors, trackLength := header[1], s, t;
      diskSize := header[1] * t;
      data := Slice(image, 0, header[1] * t + HeaderLength);
    }

    /** info: the header fields and the derived geometry. */
    function Info(): (r: DiskInfo)
      requires Valid()
      ensures r.writeProtect == data[0] && r.optionFlags == data[4]
      ensures r.cylinders == cylinders && r.sectors == sectors && r.trackLength == trackLength
      ensures ValidShape(r.sectors, r.trackLength) && r.diskSize == diskSize == r.cylinders * r.trackLength
      ensures |r.reserved| == Min(|data|, 12) - 5 && r.reserved + r.driveType == data[5..Min(|data|, HeaderLength)]
    {
      DiskInfo(data[0], cylinders, sectors, trackLength, data[4], Slice(data, 5, 12), Slice(data, 12, 16), diskSize)
    }

    /** logical_sector_numbers: walk record and its continuation records (slot j at
        N + j*M), collecting the pairs of every record and then byte 24 of the last. The
        source loops for ever on a cycle of continuation records; this loop gives up after
        MaxHops hops with ChainCycle, which ChainBoundIsExact shows is such a cycle. */
    method LogicalSectorNumbers(record: seq<Byte>, M: nat, N: nat) returns (r: Result<seq<nat>>)
      ensures r == Chain(data, M, N, record, MaxHops)
    {
      var out: seq<nat> := [];
      var rec := record;
      var hops := 0;
      ghost var left: nat := MaxHops;
      ChainFromStart(data, M, N, record);
      while true
        invariant hops + left == MaxHops
        invariant Chain(data, M, N, record, MaxHops) == ChainFrom(data, M, N, out, rec, left)
        decreases left
      {
        if |rec| < RecordLength {
          // the source indexes past the end of the record
          ChainFromStops(data, M, N, out, rec, left);
          return Failure(IndexError);
        }
        var getNextBlock := HasFlag(rec[0], MoreRecords);
        var pairs := RecordPairs(rec);
        if !getNextBlock {
          ChainFromEnd(data, M, N, out, rec, left);
          out := out + pairs;
          out := out + [rec[24]];
          return Success(out);
        }
        if hops == MaxHops {
          ChainFromStops(data, M, N, out, rec, left);
          return Failure(ChainCycle);
        }
        ChainFromStep(data, M, N, out, rec, left);
        out := out + pairs;
        rec := Record(data, M, N, rec[24]);
        hops := hops + 1;
        left := left - 1;
      }
    }

    /** The inner loop of logical_sector_numbers: the (sector, length) pair of every triple
        in the record's window whose length is not zero, in order. */
    method RecordPairs(rec: seq<Byte>) returns (out: seq<nat>)
      requires |rec| >= RecordLength
      ensures out == Runs(rec)
    {
      out := [];
      var i1, i2 := 12, 24;
      ghost var triples := 4;
      if HasFlag(rec[0], ContinuationShape) {
        i1, i2 := 0, 7 * 3;
        triples := 7;
      }
      assert (i1, i2) == TripleWindow(rec);
      var i := i1;
      ghost var k := 0;
      assert rec[i1..i] == [];
      while i < i2
        invariant 0 <= k <= triples && i == i1 + 3 * k && i2 == i1 + 3 * triples
        invariant out == Triples(rec[i1..i])
        decreases i2 - i
      {
        var x: nat := (rec[i] as int) * 256 + rec[i + 1];
        var L: nat := rec[i + 2];
        ghost var before := out;
        if L > 0 {
          out := out + [x, L];
        }
        TripleAppended(rec, i1, i, before, out);
        i := i + 3;
        k := k + 1;
      }
    }

    /** getIndex: wrap the run into following tracks, pick the band from the wrapped j,
        and return the byte range of the sector. */
    method GetIndex(j0: nat, track0: nat, block: nat, L: nat, bytesLast: nat) returns (start: nat, stop: nat)
      requires Valid()
      ensures (start, stop) == SectorRange(Geom(), j0, track0, block, L, bytesLast)
    {
      var lastBlock := j0 == L - 1;
      var j: int := j0;
      var track: int := track0;
      while block + j >= sectors
        invariant track >= track0
        invariant Wrap(sectors, j, track, block) == Wrap(sectors, j0, track0, block)
        decreases block + j
      {
        j := j - sectors;
        track := track + 1;
      }
      var i: int;
      if j < 9 {
        i := 296 + track * trackLength + (block + j) * 676;
      } else if j < 9 * 2 {
        i := 634 + track * trackLength + (block + j - 9) * 676;
      } else if j < 9 * 3 {
        i := 612 + track * trackLength + (block + j - 9) * 676;
      } else {
        i := 950 + track * trackLength + (block + j - 9 * 2) * 676;
      }
      start := i;
      if lastBlock {
        stop := i + bytesLast;
      } else {
        stop := i + 256;
      }
    }

    /** getData: for each pair, split the run start into track and block, then append
        the slice of every sector of the run. */
    method GetData(lsn: seq<nat>) returns (out: seq<Byte>)
      requires Valid()
      ensures out == FileBytes(data, Geom(), lsn)
    {
      ghost var g := Geom();
      out := [];
      // the pairs at i = 0, 2, ... below |lsn| - 1, that is, i = 2 * p for p < |lsn| / 2
      for p := 0 to |lsn| / 2
        invariant out == FilePrefix(data, IndexLocator(g), lsn, p)
      {
        var run := ReadPair(lsn, 2 * p);
        PrefixAppend(data, IndexLocator(g), lsn, p, run);
        out := out + run;
      }
    }

    /** The body of getData's loop for the pair at i: split the run start into a track and
        a block within it, pick bytesLast, and read the run. */
    method ReadPair(lsn: seq<nat>, i: nat) returns (run: seq<Byte>)
      requires Valid() && i + 1 < |lsn|
      ensures run == PairBytes(data, IndexLocator(Geom()), lsn, i)
    {
      var startTrack := lsn[i] / sectors;
      SplitRunStart(lsn[i], sectors);
      var startBlock := lsn[i] - startTrack * sectors;
      var L := lsn[i + 1];
      var bytesLast := if i == |lsn| - 3 then lsn[|lsn| - 1] else 256;
      run := ReadRun(lsn[i], startTrack, startBlock, L, bytesLast);
    }

    /** The inner loop of getData: the sectors of one run, in order. */
    method ReadRun(x: nat, startTrack: nat, startBlock: nat, L: nat, bytesLast: nat) returns (out: seq<Byte>)
      requires Valid() && startTrack == x / sectors && startBlock == x % sectors
      ensures out == RunBytes(data, IndexLocator(Geom()), x, L, bytesLast, L)
    {
      out := [];
      for j := 0 to L
        invariant out == RunBytes(data, IndexLocator(Geom()), x, L, bytesLast, j)
      {
        var start, stop := GetIndex(j, startTrack, startBlock, L, bytesLast);
        IndexedSector(data, Geom(), x, L, bytesLast, j, start, stop);
        out := out + Slice(data, start, stop);
      }
    }

    /** dir's reading of one slot: the flags in its byte 0, then its entry. */
    method ReadSlot(header: seq<Byte>, ghost j: nat, M: nat, N: nat) returns (st: SlotStep)
      requires Valid() && N == DirectoryBase(Geom()) && M == RecordLength
      requires header == DirSlot(data, Geom(), j)
      ensures st == SlotStepAt(data, Geom(), j)
    {
      if |header| == 0 {
        // the source reads byte 0 of an empty slice
        return Stop(IndexError);
      }
      var dirEnd := HasFlag(header[0], EndOfDirectory);
      var entryUnused := HasFlag(header[0], Unused);
      if dirEnd {
        return End;
      }
      if entryUnused {
        return Skip;
      }
      if |header| < RecordLength {
        // the size fields read past the end of the slot
        return Stop(IndexError);
      }
      var read := ReadEntry(header, M, N);
      if read.Failure? {
        return Stop(read.error);
      }
      return Add(read.value);
    }

    /** The entry of one complete in-use slot: its name, extension and sizes, and the
        chain list read from it, or the error the chain walk stops with. */
    method ReadEntry(header: seq<Byte>, M: nat, N: nat) returns (r: Result<Entry>)
      requires |header| >= RecordLength
      ensures var c := Chain(data, M, N, header, MaxHops);
        match c
        case Success(lsn) => r == Success(EntryOf(header, lsn))
        case Failure(err) => r == Failure(err)
    {
      var filename := ToString(Slice(header, 1, 8 + 1));
      var extension := ToString(Slice(header, 9, 11 + 1));
      var filesize := Filesize(header[12..25]);
      var filesizeOnDisk := FilesizeOnDisk(header[12..25]);
      var lsn := LogicalSectorNumbers(header, M, N);
      if lsn.Failure? {
        return Failure(lsn.error);
      }
      r := Success(Entry(filename, extension, filesize, filesizeOnDisk, lsn.value));
      assert r.value == EntryOf(header, lsn.value);
    }

    /** The free space dir starts from, before subtracting the in-use entries. */
    method FreeBytesOfEmpty() returns (freeBytes: int)
      requires Valid()
      ensures freeBytes == InitialFree(Geom())
    {
      if sectors == 18 {
        freeBytes := sectors * (cylinders - 2) * 256;
      } else {
        freeBytes := sectors * (cylinders - 1) * 256;
      }
    }

    /** dir: scan the slots from the directory base until an end marker, listing every
        slot in use and charging its on-disk size against the free-byte count. */
    method Dir() returns (r: Result<Listing>)
      requires Valid()
      ensures r == DirListing(data, Geom())
    {
      ghost var g := Geom();
      var freeBytes := FreeBytesOfEmpty();
      var N := trackLength * 20 + 1648;
      var M := 25;
      var j := 0;
      var filenames: seq<string> := [];
      var extensions: seq<string> := [];
      var filesizes: seq<int> := [];
      var lsns: seq<seq<nat>> := [];
      ghost var listed: seq<Entry> := [];
      DirStart(data, g);
      while true
        invariant N == DirectoryBase(g) && M == RecordLength
        invariant Listing(freeBytes, filenames, extensions, filesizes, lsns) == ListingOf(g, listed)
        invariant DirListing(data, g) == Continue(g, listed, Scan(data, g, j))
        invariant j <= |data|
        decreases |data| - j
      {
        var header := Slice(data, N + j * M, N + (j + 1) * M);
        DirSlotIsRecord(data, g, j, N, M);
        var step := ReadSlot(header, j, M, N);
        ScanStep(data, g, listed, j);
        j := j + 1;
        match step {
          case Stop(err) =>
            return Failure(err);
          case End =>
            return Success(Listing(freeBytes, filenames, extensions, filesizes, lsns));
          case Skip =>
          case Add(e) =>
            ListingAppend(g, listed, e);
            filenames := filenames + [e.name];
            extensions := extensions + [e.ext];
            filesizes := filesizes + [e.size];
            freeBytes := freeBytes - e.sizeOnDisk;
            lsns := lsns + [e.lsn];
            listed := listed + [e];
        }
      }
    }

    /** The lookup part of cat, over the listing dir returned and the parts of the
        requested name. */
    method CatIn(l: Listing, search: seq<string>) returns (r: Result<seq<Byte>>)
      requires Valid() && WellFormed(l) && |search| >= 1
      ensures r == CatOf(data, Geom(), l, search)
    {
      r := Failure(NotFound);
      for i := 0 to |l.filenames|
        invariant |search| < 2 ==> r == Failure(NotFound)
        invariant |search| < 2 ==> forall k :: 0 <= k < i ==> RStrip(l.filenames[k]) != search[0]
        invariant |search| >= 2 ==>
          (var k := LastMatch(l, search[0], search[1], i);
           r == if k < 0 then Failure(NotFound) else Success(FileBytes(data, Geom(), l.lsns[k])))
      {
        var file := RStrip(l.filenames[i]);
        var ext := l.extensions[i];
        if file == search[0] {
          if |search| < 2 {
            // the source reads the missing extension search[1]
            return Failure(IndexError);
          }
          if ext == search[1] {
            var d := GetData(l.lsns[i]);
            r := Success(d);
          }
        }
      }
    }

    /** cat: the data of the last entry whose stripped name and extension match the parts
        of filename before and after its first dot. */
    method Cat(filename: string) returns (r: Result<seq<Byte>>)
      requires Valid()
      ensures r == CatFile(data, Geom(), filename)
    {
      var search := Split(filename, '.');
      var mydir := Dir();
      if mydir.Failure? {
        return Failure(mydir.error);
      }
      r := CatIn(mydir.value, search);
    }
  }
}
