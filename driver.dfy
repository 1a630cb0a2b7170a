/**
 * The disk subsystem's shared state and the operations on it: the request
 * pool indexed by process id, the head position of each unit, the client
 * calls that enter and remove requests, and the driver's selection scan
 * and service loop.
 */
module DiskDriver {
  import opened DiskGeometry
  import opened DiskRequests
  import opened SeekScheduler
  import opened RequestExecutor

  /** Moving a piece from the pending part to the issued part keeps the whole. */
  lemma AppendShift(issued: seq<DiskOp>, piece: seq<DiskOp>, rest: seq<DiskOp>)
    ensures (issued + piece) + rest == issued + (piece + rest)
  {
  }

  class DiskState {
    /** `pools[]`: the pending request of each process, by process id. */
    var pools: array<Option<Request>>
    /** `currentTrack[]`: the track each unit's head rests on. */
    var currentTrack: array<int>
    /** The operations issued to each unit so far, in order. */
    var trace: seq<seq<DiskOp>>
    /** The process ids whose waiting callers were signalled, in order. */
    var woken: seq<nat>

    ghost predicate Valid()
      reads this
    {
      currentTrack.Length == Units && |trace| == Units
    }

    /** The state the initialisation leaves: every slot empty, both heads on track 0, nothing issued. */
    constructor (maxProc: nat)
      ensures Valid() && fresh(pools) && fresh(currentTrack)
      ensures pools.Length == maxProc && forall i :: 0 <= i < maxProc ==> pools[i] == None
      ensures currentTrack[..] == [0, 0]
      ensures trace == [[], []] && woken == []
    {
      pools := new Option<Request>[maxProc](_ => None);
      var heads := new int[Units];
      heads[0], heads[1] := 0, 0;
      currentTrack := heads;
      trace := [[], []];
      woken := [];
    }

    /** Stores `r` as the pending request of process `pid`; no other slot changes. */
    method Enqueue(pid: nat, r: Request)
      requires Valid() && pid < pools.Length
      modifies pools
      ensures Valid()
      ensures pools[pid] == Some(r)
      ensures forall j :: 0 <= j < pools.Length && j != pid ==> pools[j] == old(pools[j])
    {
      pools[pid] := Some(r);
    }

    /** A read call enters its request: slot `pid` only, located by the split start sector. */
    method EnqueueRead(pid: nat, unit: int, first: int, sectors: int, buffer: int)
      requires Valid() && pid < pools.Length
      modifies pools
      ensures Valid()
      ensures pools[pid] == Some(TransferRequest(Read, unit, first, sectors, buffer))
      ensures forall j :: 0 <= j < pools.Length && j != pid ==> pools[j] == old(pools[j])
    {
      Enqueue(pid, TransferRequest(Read, unit, first, sectors, buffer));
    }

    /** A write call enters its request: slot `pid` only, located by the split start sector. */
    method EnqueueWrite(pid: nat, unit: int, first: int, sectors: int, buffer: int)
      requires Valid() && pid < pools.Length
      modifies pools
      ensures Valid()
      ensures pools[pid] == Some(TransferRequest(Write, unit, first, sectors, buffer))
      ensures forall j :: 0 <= j < pools.Length && j != pid ==> pools[j] == old(pools[j])
    {
      Enqueue(pid, TransferRequest(Write, unit, first, sectors, buffer));
    }

    /** A size call enters its request: track 0, offset 0, no sectors, no buffer, in slot `pid` only. */
    method EnqueueSize(pid: nat, unit: int)
      requires Valid() && pid < pools.Length
      modifies pools
      ensures Valid()
      ensures pools[pid] == Some(Request(Size, unit, 0, 0, 0, NullBuffer))
      ensures forall j :: 0 <= j < pools.Length && j != pid ==> pools[j] == old(pools[j])
    {
      Enqueue(pid, SizeRequest(unit));
    }

    /** After its wait a caller clears its own slot; no other slot changes. */
    method Release(pid: nat)
      requires Valid() && pid < pools.Length
      modifies pools
      ensures Valid()
      ensures pools[pid] == None
      ensures forall j :: 0 <= j < pools.Length && j != pid ==> pools[j] == old(pools[j])
    {
      pools[pid] := None;
    }

    /**
     * A size call, once woken with the track count the device reported,
     * clears its slot and answers the sector size and the sector count.
     */
    method ReleaseSize(pid: nat, tracks: int) returns (info: SizeInfo)
      requires Valid() && pid < pools.Length
      modifies pools
      ensures Valid()
      ensures info.sectorSize == SectorSize && info.sectorCount == tracks * SectorsPerTrack
      ensures pools[pid] == None
      ensures forall j :: 0 <= j < pools.Length && j != pid ==> pools[j] == old(pools[j])
    {
      info := SizeReport(tracks);
      Release(pid);
    }

    /**
     * The driver's scan for `unit`: the slot to service next, chosen by the
     * shortest-seek rule from the head's current track; the pool is only read.
     */
    method Select(unit: int) returns (r: Option<nat>)
      requires Valid() && 0 <= unit < Units
      ensures IsSelection(pools[..], unit, currentTrack[unit], r)
      ensures r == Pick(pools[..], unit, currentTrack[unit])
    {
      var head := currentTrack[unit];
      var shortestIndex: Option<nat> := None;
      // Meaningful only once shortestIndex is set; before that the distance is infinite.
      var shortestDistance: nat := 0;
      var i := 0;
      while i < pools.Length
        invariant 0 <= i <= pools.Length
        invariant forall j :: 0 <= j < i ==> !Immediate(pools[j], unit, head)
        invariant shortestIndex.None? ==> forall j :: 0 <= j < i ==> !OnUnit(pools[j], unit)
        invariant shortestIndex.Some? ==>
          && shortestIndex.value < i
          && OnUnit(pools[shortestIndex.value], unit)
          && shortestDistance == Distance(pools[shortestIndex.value], head)
          && (forall j :: 0 <= j < i && OnUnit(pools[j], unit) ==> shortestDistance <= Distance(pools[j], head))
          && (forall j :: 0 <= j < shortestIndex.value && OnUnit(pools[j], unit) ==> shortestDistance < Distance(pools[j], head))
      {
        var e := pools[i];
        if e.Some? && e.value.unit == unit && e.value.track == head {
          shortestIndex := Some(i);
          break;
        }
        if e.Some? && e.value.unit == unit && e.value.kind == Size {
          shortestIndex := Some(i);
          break;
        }
        if e.Some? && e.value.unit == unit && (shortestIndex.None? || Distance(e, head) < shortestDistance) {
          shortestDistance := Distance(e, head);
          shortestIndex := Some(i);
        }
        i := i + 1;
      }
      r := shortestIndex;
      assert IsSelection(pools[..], unit, head, r);
      SelectionIsPick(pools[..], unit, head, r);
    }

    /**
     * The service of slot `idx`: the operations issued to its unit are
     * exactly `ServiceOps` from the head's old track, the head ends on
     * `ServiceHead`, and the other unit is untouched.
     */
    method Execute(idx: nat)
      requires Valid() && idx < pools.Length && pools[idx].Some? && Serviceable(pools[idx].value)
      modifies this`trace, currentTrack
      ensures Valid()
      ensures var r := pools[idx].value;
        && trace == old(trace)[r.unit := old(trace[r.unit]) + ServiceOps(r, old(currentTrack[r.unit]))]
        && currentTrack[r.unit] == ServiceHead(r)
        && forall u :: 0 <= u < Units && u != r.unit ==> currentTrack[u] == old(currentTrack[u])
    {
      var task := pools[idx].value;
      var unit := task.unit;
      // The operations issued to `unit` during this service, in order.
      var issued: seq<DiskOp> := [];
      if task.track != currentTrack[unit] {
        issued := issued + [Seek(task.track)];
        currentTrack[unit] := task.track;
      }
      assert issued == if task.track != old(currentTrack[unit]) then [Seek(task.track)] else [];
      if task.kind == Size {
        issued := issued + [QueryTracks];
      } else {
        var sectorOps := TransferSectors(unit, task.kind, task.first, task.sectors, task.buffer);
        issued := issued + sectorOps;
      }
      trace := trace[unit := trace[unit] + issued];
    }

    /**
     * The sector loop of a service, the head of `unit` on the request's
     * track: one transfer per sector from offset `first` to the end of the
     * track, then a seek to the next track and on from its sector 0, until
     * `sectors` sectors are done.
     */
    method TransferSectors(unit: int, kind: Kind, first: int, sectors: int, buffer: int) returns (issued: seq<DiskOp>)
      requires Valid() && 0 <= unit < Units && 0 <= first < SectorsPerTrack && sectors >= 0
      modifies currentTrack
      ensures issued == SectorRun(kind, old(currentTrack[unit]), first, sectors, buffer)
      ensures currentTrack[unit] == RunHead(old(currentTrack[unit]), first, sectors)
      ensures currentTrack[1 - unit] == old(currentTrack[1 - unit])
    {
      var head := currentTrack[unit];
      ghost var goal := SectorRun(kind, head, first, sectors, buffer);
      ghost var final := RunHead(head, first, sectors);
      ghost var other := currentTrack[1 - unit];
      issued := [];
      var start := first;
      var sectorsTouched := 0;
      var addr := buffer;
      // What is left of the run, still to be issued.
      ghost var run := goal;
      while true
        invariant currentTrack[unit] == head && currentTrack[1 - unit] == other
        invariant 0 <= start < SectorsPerTrack && 0 <= sectorsTouched <= sectors
        invariant addr == buffer + SectorSize * sectorsTouched
        invariant run == SectorRun(kind, head, start, sectors - sectorsTouched, addr)
        invariant issued + run == goal
        invariant RunHead(head, start, sectors - sectorsTouched) == final
        decreases sectors - sectorsTouched
      {
        var trackOps, done, nextAddr := TrackSectors(kind, head, start, sectors - sectorsTouched, addr);
        ghost var afterTrack := SectorRun(kind, head, start + done, sectors - sectorsTouched - done, nextAddr);
        AppendShift(issued, trackOps, afterTrack);
        issued := issued + trackOps;
        run := afterTrack;
        sectorsTouched := sectorsTouched + done;
        addr := nextAddr;
        if sectorsTouched == sectors {
          break;
        }
        RunSeekStep(kind, head, sectors - sectorsTouched, addr);
        ghost var nextTrack := SectorRun(kind, head + 1, 0, sectors - sectorsTouched, addr);
        AppendShift(issued, [Seek(head + 1)], nextTrack);
        issued := issued + [Seek(head + 1)];
        run := nextTrack;
        head := head + 1;
        currentTrack[unit] := head;
        start := 0;
      }
    }

    /**
     * The inner loop of the sector loop: the transfers from offset `start`
     * on `track` until either `remaining` sectors are done or the track is
     * used up. `done` is how many were transferred; what is left of the run
     * continues from offset `start + done` and the address `nextAddr`.
     */
    static method TrackSectors(kind: Kind, track: int, start: int, remaining: nat, addr: int)
      returns (ops: seq<DiskOp>, done: nat, nextAddr: int)
      requires 0 <= start < SectorsPerTrack
      ensures done <= remaining && start + done <= SectorsPerTrack
      ensures done == remaining || start + done == SectorsPerTrack
      ensures nextAddr == addr + SectorSize * done
      ensures ops + SectorRun(kind, track, start + done, remaining - done, nextAddr)
        == SectorRun(kind, track, start, remaining, addr)
      ensures RunHead(track, start + done, remaining - done) == RunHead(track, start, remaining)
    {
      ops := [];
      done := 0;
      nextAddr := addr;
      var i := start;
      while i < SectorsPerTrack
        invariant start <= i <= SectorsPerTrack && done <= remaining && i == start + done
        invariant nextAddr == addr + SectorSize * done
        invariant ops + SectorRun(kind, track, i, remaining - done, nextAddr) == SectorRun(kind, track, start, remaining, addr)
        invariant RunHead(track, i, remaining - done) == RunHead(track, start, remaining)
      {
        if done == remaining {
          break;
        }
        RunSectorStep(kind, track, i, remaining - done, nextAddr);
        AppendShift(ops, [Rw(kind, track, i, nextAddr)], SectorRun(kind, track, i + 1, remaining - done - 1, nextAddr + SectorSize));
        ops := ops + [Rw(kind, track, i, nextAddr)];
        nextAddr := nextAddr + SectorSize;
        done := done + 1;
        i := i + 1;
      }
    }

    /**
     * One round of the driver for `unit`: select under the shortest-seek
     * rule, service the selected request and signal its caller; with no
     * request for the unit nothing happens.
     */
    method ServeNext(unit: int) returns (served: Option<nat>)
      requires Valid() && 0 <= unit < Units
      requires forall i :: 0 <= i < pools.Length && OnUnit(pools[i], unit) ==> Serviceable(pools[i].value)
      modifies this`trace, this`woken, currentTrack
      ensures Valid()
      ensures served == Pick(pools[..], unit, old(currentTrack[unit]))
      ensures served.None? ==> trace == old(trace) && woken == old(woken) && currentTrack[..] == old(currentTrack[..])
      ensures served.Some? ==>
        var r := pools[served.value].value;
        && trace == old(trace)[unit := old(trace[unit]) + ServiceOps(r, old(currentTrack[unit]))]
        && currentTrack[unit] == ServiceHead(r)
        && currentTrack[1 - unit] == old(currentTrack[1 - unit])
        && woken == old(woken) + [served.value]
    {
      served := Select(unit);
      if served.Some? {
        Execute(served.value);
        woken := woken + [served.value];
      }
    }
  }
}
