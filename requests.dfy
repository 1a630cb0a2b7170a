/**
 * The entries of the disk request pool and the operations the driver sends
 * to a disk unit.
 */
module DiskRequests {
  import opened DiskGeometry

  datatype Option<T> = None | Some(value: T)

  /** The device operation a pool entry asks for: a sector read, a sector write or a track count query. */
  datatype Kind = Read | Write | Size

  /**
   * One pending request (the `Pool` record): who it is for is the slot it
   * sits in; `track` and `first` (the offset within that track) locate the
   * first sector, `sectors` counts the sectors to transfer and `buffer` is
   * the caller's buffer address.
   */
  datatype Request = Request(kind: Kind, unit: int, track: int, first: int, sectors: int, buffer: int)

  /** The buffer address of a request without a buffer (C's NULL). */
  const NullBuffer: int := 0

  /**
   * One operation issued to a unit: a seek to a track, a transfer of one
   * sector of the current track to or from buffer address `addr`, or a
   * query of the number of tracks.
   */
  datatype DiskOp =
    | Seek(target: int)
    | Rw(kind: Kind, track: int, sector: int, addr: int)
    | QueryTracks

  /**
   * The pool entry a read or write call builds from its absolute start
   * sector: the track and in-track offset locate exactly that sector, and
   * every other argument is kept as given.
   */
  function TransferRequest(kind: Kind, unit: int, first: int, sectors: int, buffer: int): (r: Request)
    requires kind != Size
    ensures r.kind == kind && r.unit == unit && r.sectors == sectors && r.buffer == buffer
    ensures r.track * SectorsPerTrack + r.first == first
    ensures first >= 0 ==> 0 <= r.first < SectorsPerTrack && 0 <= r.track
  {
    var (track, offset) := SplitSector(first);
    Request(kind, unit, track, offset, sectors, buffer)
  }

  /** The pool entry a size call builds: track 0, offset 0, no sectors, no buffer. */
  function SizeRequest(unit: int): Request
  {
    Request(Size, unit, 0, 0, 0, NullBuffer)
  }

  /**
   * Entries the executor runs to completion: a unit that exists, an offset
   * within a track and a count that is not negative.
   */
  predicate Serviceable(r: Request)
  {
    0 <= r.unit < Units && 0 <= r.first < SectorsPerTrack && r.sectors >= 0
  }
}
