/**
 * Three places where the driver's code does not do what its own outline
 * promises, each modelled as written next to an input that shows the
 * difference from the corrected functions the rest of the model uses.
 */
module AsWritten {
  import opened DiskGeometry
  import opened DiskRequests
  import opened SeekScheduler
  import opened RequestExecutor

  /**
   * The selection scan as written: it compares the absolute distance with
   * the stored one but stores the signed difference `track - head`.
   * `shortest` is the index kept so far and `stored` the value kept with it
   * (none yet meaning infinitely far).
   */
  function ScanSigned(s: seq<Option<Request>>, unit: int, head: int, i: nat, shortest: Option<nat>, stored: Option<int>): Option<nat>
    requires i <= |s|
    decreases |s| - i
  {
    if i == |s| then shortest
    else if OnUnit(s[i], unit) && s[i].value.track == head then Some(i)
    else if OnUnit(s[i], unit) && s[i].value.kind == Size then Some(i)
    else if OnUnit(s[i], unit) && (stored.None? || Distance(s[i], head) < stored.value) then
      ScanSigned(s, unit, head, i + 1, Some(i), Some(s[i].value.track - head))
    else ScanSigned(s, unit, head, i + 1, shortest, stored)
  }

  /**
   * Head on track 5, requests on tracks 1 and then 3: once track 1 is kept
   * with the stored value -4, no distance is below it, so the scan as
   * written keeps track 1 (4 away) over track 3 (2 away), which the
   * shortest-seek rule picks.
   */
  lemma SignedDistanceMisselects()
    ensures var s := [Some(Request(Read, 0, 1, 0, 1, 4096)), Some(Request(Read, 0, 3, 0, 1, 8192))];
      && ScanSigned(s, 0, 5, 0, None, None) == Some(0)
      && IsSelection(s, 0, 5, Some(1))
      && Pick(s, 0, 5) == Some(1)
  {
    var s := [Some(Request(Read, 0, 1, 0, 1, 4096)), Some(Request(Read, 0, 3, 0, 1, 8192))];
    assert ScanSigned(s, 0, 5, 2, Some(0), Some(-4)) == Some(0);
    assert ScanSigned(s, 0, 5, 0, None, None) == Some(0);
    SelectionIsPick(s, 0, 5, Some(1));
  }

  /**
   * The sector loop as written after the positioning seek, which leaves
   * `currentTrack` on `logical` while the head is physically on `track`:
   * the sectors of the first track are transferred there, but the next
   * seek goes to `logical + 1`.
   */
  function RunStaleHead(kind: Kind, track: int, logical: int, offset: int, n: nat, addr: int): seq<DiskOp>
    requires 0 <= offset <= SectorsPerTrack
    decreases n, if offset == SectorsPerTrack then 1 else 0
  {
    if n == 0 then []
    else if offset == SectorsPerTrack then [Seek(logical + 1)] + SectorRun(kind, logical + 1, 0, n, addr)
    else [Rw(kind, track, offset, addr)] + RunStaleHead(kind, track, logical, offset + 1, n - 1, addr + SectorSize)
  }

  /** The service as written, the positioning seek not recorded in `currentTrack`. */
  function ServiceOpsStaleHead(r: Request, head: int): seq<DiskOp>
    requires Serviceable(r)
  {
    if r.track == head || r.kind == Size then ServiceOps(r, head)
    else [Seek(r.track)] + RunStaleHead(r.kind, r.track, head, r.first, r.sectors, r.buffer)
  }

  /**
   * Head on track 0, a read of 2 sectors from absolute sector 47 (track 2,
   * offset 15): as written the second sector is read from track 1 (absolute
   * sector 16) after a seek back to track 1; corrected, it is read from
   * track 3, absolute sector 48.
   */
  lemma StaleHeadMisseeks()
    ensures var r := TransferRequest(Read, 0, 47, 2, 4096);
      && r == Request(Read, 0, 2, 15, 2, 4096)
      && ServiceOpsStaleHead(r, 0) == [Seek(2), Rw(Read, 2, 15, 4096), Seek(1), Rw(Read, 1, 0, 4608)]
      && ServiceOps(r, 0) == [Seek(2), Rw(Read, 2, 15, 4096), Seek(3), Rw(Read, 3, 0, 4608)]
  {
    var r := Request(Read, 0, 2, 15, 2, 4096);
    assert SectorRun(Read, 2, 15, 2, 4096) == [Rw(Read, 2, 15, 4096)] + SectorRun(Read, 2, 16, 1, 4608);
    assert SectorRun(Read, 2, 16, 1, 4608) == [Seek(3)] + SectorRun(Read, 3, 0, 1, 4608);
    assert SectorRun(Read, 3, 0, 1, 4608) == [Rw(Read, 3, 0, 4608)] + SectorRun(Read, 3, 1, 0, 5120);
    assert RunStaleHead(Read, 2, 0, 15, 2, 4096) == [Rw(Read, 2, 15, 4096)] + RunStaleHead(Read, 2, 0, 16, 1, 4608);
    assert RunStaleHead(Read, 2, 0, 16, 1, 4608) == [Seek(1)] + SectorRun(Read, 1, 0, 1, 4608);
    assert SectorRun(Read, 1, 0, 1, 4608) == [Rw(Read, 1, 0, 4608)] + SectorRun(Read, 1, 1, 0, 5120);
  }

  /**
   * The service as written when `sectorsTouched` still holds the count
   * `carried` left by earlier services on the unit: the loop stops as soon
   * as the running count reaches `r.sectors`. (When `carried` exceeds
   * `r.sectors` the count never equals it and the loop seeks on forever;
   * that case is not modelled.)
   */
  function ServiceOpsCarried(r: Request, head: int, carried: int): seq<DiskOp>
    requires Serviceable(r) && 0 <= carried <= r.sectors
  {
    (if r.track != head then [Seek(r.track)] else [])
    + (if r.kind == Size then [QueryTracks] else SectorRun(r.kind, r.track, r.first, r.sectors - carried, r.buffer))
  }

  /**
   * With a carried count the service transfers `carried` sectors too few:
   * after a 2-sector read, a 3-sector read transfers 1 sector; the
   * corrected service, which starts from 0, transfers all `r.sectors`.
   */
  lemma CarriedCountDropsSectors(r: Request, head: int, carried: int)
    requires Serviceable(r) && r.kind != Size && 0 < carried <= r.sectors
    ensures |Transfers(ServiceOpsCarried(r, head, carried))| == r.sectors - carried < r.sectors
    ensures |Transfers(ServiceOps(r, head))| == r.sectors
  {
    var pre: seq<DiskOp> := if r.track != head then [Seek(r.track)] else [];
    assert Transfers(pre) == [] by {
      if pre != [] { assert pre[1..] == []; }
    }
    TransfersAppend(pre, SectorRun(r.kind, r.track, r.first, r.sectors - carried, r.buffer));
    SectorRunTransfers(r.kind, r.track, r.first, r.sectors - carried, r.buffer);
    ServiceTransfers(r, head);
  }
}
