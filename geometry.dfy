/** The DMK container header and the disk geometry derived from it. */
module DiskGeometry {
  import opened Bytes

  /** Length of the DMK container header that precedes the track data. */
  const HeaderLength := 16

  /** Bit of header byte 4 that marks a one-sided disk. */
  const SingleSided := 0x10

  /** Cylinder count, sectors per track and bytes per track. A "track" here is a whole
      cylinder: on a two-sided disk it holds both sides, 36 sectors in 12800 bytes. */
  datatype Geometry = Geometry(cylinders: nat, sectors: nat, trackLength: nat) {
    predicate Valid() {
      ValidShape(sectors, trackLength)
    }
  }

  /** The two layouts the loader produces. */
  predicate ValidShape(sectors: int, trackLength: int) {
    (sectors == 18 && trackLength == 6400) || (sectors == 36 && trackLength == 12800)
  }

  /** The geometry part of the loader: cylinders from header byte 1, sidedness from bit
      0x10 of header byte 4 (clear means two sides). */
  function DeriveGeometry(header: seq<Byte>): (g: Geometry)
    requires |header| >= 5
    ensures g.Valid()
    ensures g.cylinders == header[1]
    ensures g.sectors == 36 <==> !HasFlag(header[4], SingleSided)
    ensures g.trackLength * 18 == g.sectors * 6400
  {
    if !HasFlag(header[4], SingleSided) then Geometry(header[1], 36, 6400 * 2)
    else Geometry(header[1], 18, 6400)
  }

  /** Bytes of track data the loader reads after the header. */
  function DiskSize(g: Geometry): nat {
    g.cylinders * g.trackLength
  }

  /** The number of bytes the loader keeps: the header and the track data, or less if the
      image file is shorter. */
  lemma LoadedLength(image: seq<Byte>)
    requires |image| >= 5
    ensures var g := DeriveGeometry(image[..Min(|image|, HeaderLength)]);
      var loaded := Slice(image, 0, HeaderLength + DiskSize(g));
      |loaded| <= HeaderLength + g.cylinders * g.trackLength &&
      (|image| >= HeaderLength + DiskSize(g) ==> |loaded| == HeaderLength + DiskSize(g)) &&
      loaded <= image
  {
  }
}
