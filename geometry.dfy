/**
 * Geometry of the USLOSS disk as the phase 2 disk driver uses it, and the
 * C integer arithmetic it applies to sector numbers.
 */
module DiskGeometry {

  /** Sectors on one track (the literal 16 in the driver). */
  const SectorsPerTrack: int := 16

  /** Bytes in one sector (the literal 512 in the driver). */
  const SectorSize: int := 512

  /** Number of disk units; each has its own head and its own driver process. */
  const Units: int := 2

  /** C's `/` on `int`: the quotient truncated toward zero. */
  function CDiv(a: int, b: int): int
    requires b > 0
  {
    if a >= 0 then a / b else -((-a) / b)
  }

  /** C's `%` on `int`: the remainder that goes with `CDiv`; it takes the sign of `a`. */
  function CMod(a: int, b: int): int
    requires b > 0
  {
    if a >= 0 then a % b else -((-a) % b)
  }

  /**
   * Splits an absolute sector number into (track, offset within the track),
   * the way the client calls compute `first / 16` and `first % 16` in C.
   */
  function SplitSector(first: int): (r: (int, int))
    ensures r.0 * SectorsPerTrack + r.1 == first
    ensures -SectorsPerTrack < r.1 < SectorsPerTrack
    ensures first >= 0 ==> 0 <= r.0 && 0 <= r.1
    ensures first < 0 ==> r.0 <= 0 && r.1 <= 0
  {
    (CDiv(first, SectorsPerTrack), CMod(first, SectorsPerTrack))
  }

  /** What a size query reports to its caller. */
  datatype SizeInfo = SizeInfo(sectorSize: int, sectorCount: int)

  /**
   * The answer of a size query, given the number of tracks the device
   * reported: the total number of sectors and the fixed sector size.
   */
  function SizeReport(tracks: int): SizeInfo
  {
    SizeInfo(SectorSize, tracks * SectorsPerTrack)
  }

  /**
   * The reported sector count is exactly the number of addressable sectors:
   * a non-negative absolute sector lies below it iff its track lies below
   * the reported track count, and the sector size is 512 bytes.
   */
  lemma SizeReportCoversTracks(tracks: int, first: int)
    requires first >= 0
    ensures SizeReport(tracks).sectorSize == SectorSize
    ensures first < SizeReport(tracks).sectorCount <==> SplitSector(first).0 < tracks
  {
    var (t, o) := SplitSector(first);
    assert first == t * SectorsPerTrack + o && 0 <= o < SectorsPerTrack;
    if t < tracks {
      assert t * SectorsPerTrack + SectorsPerTrack <= tracks * SectorsPerTrack;
    } else {
      assert tracks * SectorsPerTrack <= t * SectorsPerTrack;
    }
  }
}
