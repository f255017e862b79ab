# DragonDOS on DMK: a verified model of the read path of `dmkHandler`

This project models the read side of the `dmkHandler` class. The class holds a DMK
floppy image of a DragonDOS disk in memory and reads its file system:

- it derives the disk geometry from the 16-byte DMK header;
- it turns a logical sector number into the byte range of that sector in the image,
  using four interleave bands with base offsets 296, 634, 612 and 950 and a stride of
  676 bytes (`getIndex`);
- it walks the chain of 25-byte directory records that lists a file's sector runs
  (`logical_sector_numbers`);
- it concatenates those runs into the file's bytes (`getData`);
- it lists the directory (`dir`) and looks a file up by name (`cat`).

The modules follow these layers:

- `Results`: errors and results.
- `Bytes`: bytes, bit flags and Python slicing.
- `Text`: `toString`, `str.rstrip`, `str.split`.
- `DiskGeometry`: the loader's geometry.
- `Translator`: `getIndex` as written, and the corrected sector layout.
- `Extents`: the record chain.
- `Reconstruct`: the file bytes and their length.
- `Directory`: directory slots, entries, the listing and `cat`.
- `Handler`: the `DmkHandler` class and its methods.

The loaded image never changes after construction. `DmkHandler` is therefore a class
with constant fields. Its loops (`getIndex`'s wrap, `getData`'s two loops, the chain
walk, the triple loop, `dir`'s scan and `cat`'s search) are methods with loop
invariants. Each method is proved against a function of the image.

Modelling decisions:

- Python's `s[lo:hi]` clamps at the end of the sequence. `Bytes.Slice` models this
  exactly. A read past the end of a slice, such as `header[0]` of an empty slot or
  `data[24]` of a short record, is the error `IndexError`.
- `logical_sector_numbers` loops forever on a chain of records that point back to each
  other. The model follows at most `MaxHops` = 256 continuation pointers and then
  returns `ChainCycle`. `Extents.ChainBoundIsExact` proves that 256 loses nothing:
  - a larger bound never changes the result;
  - a walk that runs out of hops at 256 runs out at every bound, that is, the source
    never terminates on it.
- `cat` returns its variable `data` without binding it when no entry matches, which is
  an `UnboundLocalError` in Python. The model returns `NotFound` in that case.
- A name without a dot makes `cat` read `search[1]` in the first entry whose name
  matches, which is `IndexError`. In the model, a name without a dot and with no
  matching entry gives `NotFound`.
- `floor(LSN[i] / self.sectors)` is float division floored. For the naturals involved
  it is Dafny's `/`, and `LSN[i] - startTrack * sectors` is `%`. `Handler.SplitRunStart`
  states the second fact.
- Flag tests `b & mask` with a one-bit mask are modelled as "the bit of `b` that `mask`
  selects is set": `(b / mask) % 2 == 1`.

Further decisions about what the code does at its edges:

- **Band selection.** The code chooses the band from the wrapped run index `j`, which
  can be negative, and not from the sector within the track. See Findings.
- **Broken chains.** A continuation pointer past the end of the image gives an empty
  or short slice, so a read past the end of the record raises `IndexError`. The model
  returns that error.
- **Missing files.** `cat` fails on a name no entry matches, as described above.
- **Short images.** The loader keeps whatever bytes the file has, and so does the
  model. A read past the end is a clamped slice or, for a single byte, `IndexError`, as
  described above.
- **File size.** `filesize` adds the lengths of the first two extents only. It agrees
  with the size the chain list describes for an entry record that does not continue
  and whose extents sit in its first two triples (the run lengths at bytes 20 and 23
  are zero). See Findings.

## Model

| member | source | states |
|---|---|---|
| Bytes.Slice | pydmk/dmkHandler.py:99 | Python slicing: the length is clamped at the end of the sequence and is 0 for an empty or out-of-range start; inside the bounds it is the ordinary subsequence, element by element |
| Text.Decoded | pydmk/dmkHandler.py:11-18 | the decoded field has one character per byte; what each character is, is stated by DecodedChar, and ToString is proved to build it |
| Text.ToString | pydmk/dmkHandler.py:11-18 | the loop builds exactly Decoded(s), one character per byte |
| Text.DecodedChar | pydmk/dmkHandler.py:14-17 | decoded character k is a space where byte k is 0 and the character with byte k's code otherwise |
| Text.DecodedInjective | pydmk/dmkHandler.py:11-18 | on fields with no zero byte, the decoding is injective: equal text means equal bytes |
| Text.DecodedPaddingCollision | pydmk/dmkHandler.py:14-17 | a zero byte and a space byte decode to the same character, so padding with 0 and padding with spaces cannot be told apart |
| Text.RStrip | pydmk/dmkHandler.py:203 | `rstrip()` returns a prefix of the name whose last character is not whitespace, and only whitespace is removed |
| Text.Split | pydmk/dmkHandler.py:200 | `split('.')` returns at least one part and no part contains a dot |
| Text.SplitJoin | pydmk/dmkHandler.py:200 | joining the parts of `split` with the separator gives back the original name |
| DiskGeometry.DeriveGeometry | pydmk/dmkHandler.py:128-134 | cylinders come from header byte 1; the disk has 36 sectors per track and 12800-byte tracks exactly when bit 0x10 of header byte 4 is clear, otherwise 18 sectors and 6400-byte tracks |
| DiskGeometry.LoadedLength | pydmk/dmkHandler.py:135-138 | the kept buffer is a prefix of the image file, at most 16 + cylinders * track length bytes long, and exactly that long when the file is long enough |
| Translator.Band | pydmk/dmkHandler.py:70-77 | band 0 exactly when j < 9, band 1 exactly when 9 <= j < 18, band 2 exactly when 18 <= j < 27, band 3 exactly when j >= 27; negative j falls in band 0 |
| Translator.Wrap | pydmk/dmkHandler.py:66-68 | after the wrap loop, block + j is below the sector count; j dropped by whole tracks exactly as much as track rose; nothing changes when block + j was already in range |
| Translator.WrapIsDivMod | pydmk/dmkHandler.py:66-68 | the wrapped block + j and the tracks added are the remainder and the quotient of block + j by the sector count |
| Translator.SectorRange | pydmk/dmkHandler.py:61-84 | getIndex's range is bytesLast bytes long for the run's last sector (j == L - 1) and 256 bytes long otherwise, and starts no lower than 296 + track * track length |
| Translator.CorrectedSectorStart | pydmk/dmkHandler.py:70-77 | with the band chosen by the sector within the track, a sector's 256 bytes lie inside its own track |
| Translator.CorrectedSectorsDisjoint | pydmk/dmkHandler.py:70-77 | in the corrected layout, two different sectors of a track do not overlap |
| Translator.CorrectedSectorInsideImage | pydmk/dmkHandler.py:70-77 | in the corrected layout, every sector of a track below the cylinder count lies between the header and the end of the disk data |
| Translator.SectorRangeAgreesWithCorrected | pydmk/dmkHandler.py:66-77 | when the wrapped j and the wrapped sector fall in the same band, getIndex's start equals the corrected start of the wrapped sector |
| Translator.BandSelectionCounterexample | pydmk/dmkHandler.py:70-77 | on an 18-sector disk, sector 4 of a 6-sector run starting at block 5 of track 0 gets the range 6380..6636, which ends past track 0; the sector it should read starts at 634 |
| Extents.TripleWindow | pydmk/dmkHandler.py:32-39 | the window of triples starts and ends on whole triples within the record's first 24 bytes; EntryRuns and ContinuationRuns give the exact windows, bytes 12..23 and bytes 0..20 |
| Extents.TripleAppended | pydmk/dmkHandler.py:45-50 | one pass of the triple loop appends (hi * 256 + lo, L) exactly when L > 0 |
| Extents.Runs | pydmk/dmkHandler.py:32-50 | no contract of its own: the pairs one record contributes; EntryRuns and ContinuationRuns give them triple by triple, RunsShape bounds them and RunsReadWindow shows they depend on the window bytes only |
| Extents.EntryRuns | pydmk/dmkHandler.py:34-35 | an entry record's pairs are those of its four triples at bytes 12..23, in order, zero-length triples dropped |
| Extents.ContinuationRuns | pydmk/dmkHandler.py:36-50 | a continuation record's pairs are those of its seven triples at bytes 0..20, in order, zero-length triples dropped |
| Extents.RunsShape | pydmk/dmkHandler.py:45-50 | a record yields a list of (sector, length) pairs with non-zero lengths: at most 4 pairs for an entry record, 7 for a continuation record |
| Extents.RunsReadWindow | pydmk/dmkHandler.py:45-50 | the pairs depend only on byte 0's shape bit and on the bytes of the window |
| Extents.Record | pydmk/dmkHandler.py:57 | no contract of its own: the clamped slice `data[N+j*M:N+(j+1)*M]`; WalkVisitsHops states that the walk visits exactly these slices |
| Extents.Walk | pydmk/dmkHandler.py:31-57 | a successful walk starts at the given record, visits complete records only, every record but the last points on, and the last does not |
| Extents.Chain | pydmk/dmkHandler.py:28-59 | no contract of its own: the pairs of every record of the walk, then byte 24 of the last; ChainShape, ChainOfOneRecord, ChainEndsWithTerminalByte, ChainCycleIff and ChainBoundIsExact state its properties, and LogicalSectorNumbers is proved to compute it |
| Extents.ChainShape | pydmk/dmkHandler.py:28-59 | a successful chain list has odd length: (sector, length) pairs with lengths 1..255, then the byte count of the last sector |
| Extents.ChainOfOneRecord | pydmk/dmkHandler.py:52-54 | a complete record that does not point on yields its own pairs followed by its byte 24 |
| Extents.WalkVisitsHops | pydmk/dmkHandler.py:56-57 | the k-th record of a walk is the record reached by following byte 24 k times from the first |
| Extents.ChainEndsWithTerminalByte | pydmk/dmkHandler.py:52-53 | the last element of a chain list is byte 24 of the first record on the path that does not point on |
| Extents.ChainCycleIff | pydmk/dmkHandler.py:31-57 | the walk runs out of hops exactly when the first hops + 1 records on its path are all complete and all point on; this is one lemma for both directions, proved by CycleMeansLive and LiveMeansCycle |
| Extents.CycleMeansLive | pydmk/dmkHandler.py:31-57 | a walk that runs out of hops saw only complete records that point on |
| Extents.LiveMeansCycle | pydmk/dmkHandler.py:31-57 | if every record on the path points on, the walk runs out of hops |
| Extents.WalkHopsMonotone | pydmk/dmkHandler.py:31-57 | once a walk ends without running out of hops, a larger bound gives the same walk |
| Extents.HopsRepeat | pydmk/dmkHandler.py:56-57 | two live records on the path with the same slot byte make the walk repeat from there on |
| Extents.ChainBoundIsExact | pydmk/dmkHandler.py:31-57 | 256 hops suffice: any larger bound gives the same chain, and running out at 256 means running out at every bound, i.e. the source loops forever |
| Reconstruct.IndexedSector | pydmk/dmkHandler.py:98-99 | the bytes getIndex's range selects are the run sector the locator and the sector width describe |
| Reconstruct.PrefixAppend | pydmk/dmkHandler.py:88-99 | one pass of getData's outer loop extends the bytes of the first p runs to those of the first p + 1 |
| Reconstruct.PairListRunLength | pydmk/dmkHandler.py:48-50 | every run length in a chain's pair list is between 1 and 255 |
| Reconstruct.RunBytesLength | pydmk/dmkHandler.py:97-99 | a run of L sectors yields at most 256 * (L - 1) + bytesLast bytes, and exactly that many when its sectors lie inside the buffer |
| Reconstruct.EmptyRunStep | pydmk/dmkHandler.py:97 | a run of length 0 adds no bytes |
| Reconstruct.PrefixStepLength | pydmk/dmkHandler.py:88-99 | adding one run adds at most 256 * (L - 1) + bytesLast bytes, exactly that many when it fits |
| Reconstruct.FilePrefixLength | pydmk/dmkHandler.py:88-99 | the runs before the last deliver at most 256 bytes per sector, exactly 256 when they fit |
| Reconstruct.ChainFileSize | pydmk/dmkHandler.py:20-22 | no contract of its own: the file size the chain list describes, 256 bytes per sector of all runs minus 256 plus the trailing count; FileBytesLength bounds getData's output by it and FilesizeMatchesChainForTwoExtents relates it to filesize |
| Reconstruct.AllRunsLength | pydmk/dmkHandler.py:88-99 | all runs of a chain list deliver at most 256 * (sectors - 1) + the trailing count, exactly that when they fit |
| Reconstruct.FileBytes | pydmk/dmkHandler.py:86-100 | no contract of its own: the bytes of all runs of the chain list, sector by sector; FileBytesLength gives its length, RunSectorIsLogicalSector its sectors, and GetData is proved to compute it |
| Reconstruct.FileBytesLength | pydmk/dmkHandler.py:86-100 | getData of a well-formed chain list returns at most the file size the chain describes, and exactly that size when every sector lies inside the buffer |
| Reconstruct.DivModShift | pydmk/dmkHandler.py:89-90 | advancing a logical sector by j moves track and sector like integer division and remainder |
| Reconstruct.CorrectedStart | pydmk/dmkHandler.py:61-77 | under band agreement, getIndex's start for sector j of the run starting at x is the corrected start of logical sector x + j |
| Reconstruct.RunSectorIsLogicalSector | pydmk/dmkHandler.py:61-99 | under band agreement, the bytes getData reads for sector j of a run starting at x are logical sector x + j at its corrected position |
| Directory.FilesizeOnDisk | pydmk/dmkHandler.py:24-26 | the on-disk size is a whole number of 256-byte sectors, at most 2 * 255 of them |
| Directory.Filesize | pydmk/dmkHandler.py:20-22 | the file size is the on-disk size minus 256 plus byte 12 of the size field, so it lies within the last sector |
| Directory.DirectoryBase | pydmk/dmkHandler.py:159 | no contract of its own: N = track length * 20 + 1648; DirectoryBaseIsSector states that it is the start of sector 2 of track 20 |
| Directory.DirectoryBaseIsSector | pydmk/dmkHandler.py:159 | the directory base `track_length * 20 + 1648` is the corrected start of sector 2 of track 20 |
| Directory.DirSlot | pydmk/dmkHandler.py:168 | no contract of its own: directory slot j, the Record slice from DirectoryBase; DirSlotIsRecord states that dir's `header` is this slice |
| Directory.EntryOf | pydmk/dmkHandler.py:179-188 | an entry's name and extension are the decoded bytes 1..8 and 9..11; its sizes are computed from bytes 14, 17 and 24 of the slot |
| Directory.LiveSlots | pydmk/dmkHandler.py:178 | exactly the in-use slots of lo..hi-1: every listed slot is in range and in use, every in-use slot of the range is listed, in increasing order |
| Directory.Scan | pydmk/dmkHandler.py:167-188 | no contract of its own: the entries of the slots from j up to the first end marker; ScanStopsAtFirstEnd, ScanSkipsUnused, ScanListsLive and ScanStep state its properties |
| Directory.ScanStopsAtFirstEnd | pydmk/dmkHandler.py:167-178 | a successful scan stops at an end-marker slot, having read every slot before it, none of them empty |
| Directory.ScanSkipsUnused | pydmk/dmkHandler.py:175-178 | an unused slot contributes no entry |
| Directory.ScanListsLive | pydmk/dmkHandler.py:178-188 | the listed entries are exactly those of the in-use slots before the end marker, each decoded from its slot with the chain that slot yields |
| Directory.InitialFree | pydmk/dmkHandler.py:155-158 | the free count starts at 256 * (sectors * cylinders - 36) on both layouts |
| Directory.ListingOf | pydmk/dmkHandler.py:180-196 | the four lists have one element per entry, in order, holding its name, extension, size and chain list |
| Directory.ListingFreeBytes | pydmk/dmkHandler.py:186 | the final free count is the initial one minus the on-disk sizes of all listed entries |
| Directory.DirListing | pydmk/dmkHandler.py:154-197 | a successful listing has four lists of equal length |
| Directory.LastMatch | pydmk/dmkHandler.py:202-207 | the index found matches name and extension, and no later index matches |
| Directory.CatOf | pydmk/dmkHandler.py:202-208 | no contract of its own: the search loop of cat over a listing; CatFindsLastMatch states when it succeeds and that it returns the last match's data |
| Directory.CatFindsLastMatch | pydmk/dmkHandler.py:199-208 | cat succeeds exactly when the name has a dot and some entry's stripped name and extension match; its data is then that of the last matching entry |
| Directory.CatFile | pydmk/dmkHandler.py:199-208 | no contract of its own: dir's error, or CatOf of the name split at dots; Cat is proved to compute it |
| Directory.FilesizeMatchesChainForTwoExtents | pydmk/dmkHandler.py:20-26 | for an entry record that does not continue and whose third and fourth triples have run length zero (bytes 20 and 23), `filesize` equals the size its chain list describes, and `filesize_on_disk` is 256 bytes per sector |
| Directory.FilesizeThreeExtentsCounterexample | pydmk/dmkHandler.py:20-22 | an entry with three one-sector extents describes 522 bytes, but filesize reports 266 |
| Handler.ChainFromStart | pydmk/dmkHandler.py:29-31 | with nothing collected yet, the remaining walk is the whole chain |
| Handler.ChainFromStep | pydmk/dmkHandler.py:45-57 | a record that points on adds its pairs and moves the walk to the record byte 24 names, at one hop less |
| Handler.ChainFromStops | pydmk/dmkHandler.py:32-57 | a record shorter than 25 bytes gives IndexError; a record that points on with no hops left gives ChainCycle |
| Handler.ChainFromEnd | pydmk/dmkHandler.py:52-54 | a complete record that does not point on ends the chain with its pairs and its byte 24 |
| Handler.DirStart | pydmk/dmkHandler.py:155-166 | dir starts with an empty listing and the initial free count, at slot 0 |
| Handler.DirSlotIsRecord | pydmk/dmkHandler.py:168 | the slice dir reads for slot j is directory slot j; a nonempty slot has j below the buffer length |
| Handler.DirAtEmpty | pydmk/dmkHandler.py:173 | an empty slot makes `header[0]` fail with IndexError |
| Handler.DirAtEnd | pydmk/dmkHandler.py:173-174 | an end marker ends the listing with the entries collected so far |
| Handler.DirAtUnused | pydmk/dmkHandler.py:175-178 | an unused slot is skipped |
| Handler.DirAtShort | pydmk/dmkHandler.py:183 | an in-use slot shorter than 25 bytes fails with IndexError in `filesize` |
| Handler.DirAtBadChain | pydmk/dmkHandler.py:187 | an in-use slot whose chain fails makes dir fail with the same error |
| Handler.DirAtLive | pydmk/dmkHandler.py:178-188 | an in-use slot with a chain list appends its entry and moves on |
| Handler.ListingAppend | pydmk/dmkHandler.py:180-188 | appending an entry appends its name, extension, size and chain list and charges its on-disk size against the free count |
| Handler.SlotStepAt | pydmk/dmkHandler.py:168-188 | the step for a slot: error for an empty slot, end, skip, error for a short slot, the chain's error, or an entry from a complete slot |
| Handler.ScanStep | pydmk/dmkHandler.py:167-188 | the listing from slot j is decided by slot j's step and, unless the step stops the scan, by the listing from slot j + 1 |
| Handler.SplitRunStart | pydmk/dmkHandler.py:89-90 | `x - floor(x / s) * s` is the remainder of x by s |
| Handler.DmkHandler.constructor | pydmk/dmkHandler.py:124-139 | the geometry is derived from the first 16 bytes of the image, and the buffer is the image cut at 16 + cylinders * track length bytes |
| Handler.DmkHandler.Info | pydmk/dmkHandler.py:141-152 | info reports header bytes 0 and 4, this disk's cylinders, sectors and track length, a disk size of cylinders * track length, reserved = header bytes 5..11 (clamped) and, after it, the drive-type bytes 12..15 |
| Handler.DmkHandler.LogicalSectorNumbers | pydmk/dmkHandler.py:28-59 | the list the loop builds is the chain of the record, or the chain's error (IndexError, or ChainCycle in place of looping forever) |
| Handler.DmkHandler.RecordPairs | pydmk/dmkHandler.py:32-50 | the triple loop collects the record's pairs, zero-length triples dropped |
| Handler.DmkHandler.GetIndex | pydmk/dmkHandler.py:61-84 | the wrap loop and the band choice compute getIndex's range, whose properties Translator states |
| Handler.DmkHandler.ReadPair | pydmk/dmkHandler.py:89-99 | one pass of the outer loop reads the run of pair i, with bytesLast from the trailing count only for the last pair |
| Handler.DmkHandler.ReadRun | pydmk/dmkHandler.py:97-99 | the inner loop concatenates the L sectors of the run in order |
| Handler.DmkHandler.GetData | pydmk/dmkHandler.py:86-100 | the result is the concatenation of all runs of the chain list, in order; its length is bounded by FileBytesLength |
| Handler.DmkHandler.ReadSlot | pydmk/dmkHandler.py:168-188 | reading one slot yields exactly the slot's step |
| Handler.DmkHandler.ReadEntry | pydmk/dmkHandler.py:179-188 | a complete in-use slot yields its entry with its chain list, or that chain's error |
| Handler.DmkHandler.FreeBytesOfEmpty | pydmk/dmkHandler.py:155-158 | the free count dir starts from is the initial free count |
| Handler.DmkHandler.Dir | pydmk/dmkHandler.py:154-197 | dir returns the listing of the scan, or the scan's error; the scan's properties are stated by the Directory lemmas |
| Handler.DmkHandler.CatIn | pydmk/dmkHandler.py:202-208 | the search loop returns the data of the last match, IndexError for a dotless name that matches, or NotFound |
| Handler.DmkHandler.Cat | pydmk/dmkHandler.py:199-208 | cat returns dir's error or the lookup of the split name in the listing, as stated by CatFindsLastMatch |

## Left out

- File I/O (`open`, `read`, `close`): the constructor takes the image's bytes as a parameter.
- Logging and `quit()`: they have no effect on the results modelled.
- The missing-file path of the constructor is left out for the same reason.
- `Handler.DmkHandler.constructor`: requires an image of at least 5 bytes. The source reads header bytes 1 and 4 and fails with IndexError on a shorter file.
- `pydmk/pydmk.py` (argument parsing, printing) is not part of this model.
- The cassette and raw-sector export writers are not part of this model.
- Handler.DmkHandler.LogicalSectorNumbers: the source loops forever on a cycle of continuation records; the model stops after 256 hops with `ChainCycle`, which ChainBoundIsExact proves is exactly the case where it does not terminate.
- Handler.DmkHandler.ReadPair, Handler.DmkHandler.ReadRun, Handler.DmkHandler.RecordPairs, Handler.DmkHandler.ReadSlot, Handler.DmkHandler.ReadEntry, Handler.DmkHandler.FreeBytesOfEmpty and Handler.DmkHandler.CatIn are the bodies of loops or branches of the source split into their own methods; the source has them inline.
- Flag tests use the arithmetic form of a one-bit `&`; the equivalence with a bitwise `&` on 8-bit values is not stated.
- Reconstruct: the length lemmas hold for any byte locator; only the concrete getIndex locator is the source's.
- Floating-point division in `floor(LSN[i] / self.sectors)` is modelled as exact integer division, which it equals for the sizes involved.
- Dictionaries returned by `info` and `dir` are records with one field per key.

## Findings

| source | as written | input that shows it | evidently intended | confidence | as-written member | corrected member |
|---|---|---|---|---|---|---|
| pydmk/dmkHandler.py:70-77 | the band is chosen from the wrapped run index `j`, not from the sector within the track `block + j` | 18-sector disk, run of 6 sectors at track 0 block 5, sector j = 4: the range is 6380..6636, past the end of track 0 | band and offset chosen by the sector within the track, so each sector lies inside its own track | not executed | Translator.BandSelectionCounterexample | Translator.CorrectedSectorStart |
| pydmk/dmkHandler.py:20-22 | `filesize` adds the lengths of only the first two extents, bytes 2 and 5 of the size field | entry with three one-sector extents and trailing count 10: the chain describes 522 bytes, `filesize` reports 266 | the file size the chain list describes: 256 per sector of all runs minus 256 plus the trailing count | not executed | Directory.FilesizeThreeExtentsCounterexample | Reconstruct.FileBytesLength |

`Handler.DmkHandler.GetIndex` and `Handler.DmkHandler.Dir` keep the source's behaviour
as written, because they model the program as it runs. The corrected layout is
`Translator.CorrectedSectorStart`. `Reconstruct.RunSectorIsLogicalSector` shows that
getData reads the corrected sector whenever the two band choices agree. The corrected
file size is `Reconstruct.ChainFileSize`:

- `Reconstruct.FileBytesLength` proves that it bounds getData's output and is reached
  when every sector lies in the buffer.
- `Directory.FilesizeMatchesChainForTwoExtents` proves that it agrees with `filesize`
  for an entry record that does not continue and whose third and fourth triples have
  run length zero (bytes 20 and 23).
