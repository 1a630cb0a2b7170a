# Disk scheduler and dispatcher of the phase 2 disk driver

This project models the disk request pool, the shortest-seek selection and
the request executor of the USLOSS phase 2 disk driver
(`phase2-starter-master/phase2c/phase2c.c`) and proves their properties in
Dafny.

- **The pool.** The driver keeps `pools[]`, one optional pending request per
  process id, and `currentTrack[]`, the head position of each of the two
  units. Both are the arrays of the class `DiskDriver.DiskState`.
- **The client calls.** `P2_DiskRead` and `P2_DiskWrite` fill slot `pid`
  with a request located by `first / 16` (track) and `first % 16` (offset in
  the track). `P2_DiskSize` fills it with track 0, offset 0, no sectors and no
  buffer. After the wait, each call clears its slot. A size call then answers
  `tracks * 16` sectors of 512 bytes.
- **The selection scan.** The scan looks at the slots in index order. It stops
  at the first request for the unit that is on the head's track or is a size
  query. Otherwise it keeps the request with the strictly smallest
  `|track - head|`, so the lowest index wins a tie. `DiskState.Select` is that
  loop. `IsSelection` states the rule declaratively and `Pick` computes it as
  a function. The lemmas show that the rule has exactly one answer and that
  `Pick` gives it.
- **The executor.** `DiskState.Execute` and `DiskState.TransferSectors` (with its inner loop `DiskState.TrackSectors`) do
  the following:
  - seek to the request's track if the head is elsewhere;
  - issue one sector operation per sector from the start offset to sector 15;
  - seek to `head + 1` and start again from sector 0, until `sectors`
    sectors are done;
  - advance the buffer address by 512 bytes per sector.

  A size query is one track-count query. Each operation issued to the device
  is an abstract `DiskOp` appended to the unit's `trace`. The executor is
  proved against the reference function `ServiceOps`. The lemmas about
  `ServiceOps` state which sectors are transferred, where the seeks fall and
  where the head ends.

Device calls (`USLOSS_DeviceOutput`, `P1_DeviceWait`) are modelled as
appending an operation to the trace. The method assumes every wait returns
ready. The track count the device reports to a size query is a parameter of
`ReleaseSize`.

## Modelling decisions

Several lines of the code are unfinished: they are not valid C, or they
read variables that were never set. The outline comment at
`phase2c.c:118-128` describes the intended algorithm, and the model
follows it:

- `shortestDistance` (`:112`) is never initialised, and the declaration has no
  semicolon. In the model the distance starts at infinity: before any request
  for the unit is kept, the first one found is taken.
- `shortestIndex` and `shortestDistance` are declared once, before the
  driver's `while(1)` loop (`:111-112`, `:129`), and are assigned only at
  `:147`, `:152` and `:156-157`. So each round would start from the index and
  distance the previous round left, and could service the previous slot again
  or read a slot its caller has already cleared (`:262`). The model, like the
  outline, chooses afresh in every round: `Select` starts each scan with no
  index kept and the distance at infinity.
- `:156` stores the signed `track - head`, while `:155` compares `abs(...)`
  with it. The model stores the absolute distance. The code as written is
  modelled in `AsWritten.ScanSigned` (see Findings).
- `sectorsTouched` is initialised once per driver process (`:114`). The model
  resets it to 0 for each service. The code as written is modelled in
  `AsWritten.ServiceOpsCarried`.
- The positioning seek (`:164-174`) does not update `currentTrack`, but the
  later seeks do (`:222`). In the model the head is updated after the
  positioning seek too. The code as written is modelled in
  `AsWritten.ServiceOpsStaleHead`.
- `req` is an uninitialised pointer in the driver and in each client call
  (`:117`, `:243`, `:276`, `:309`). Both kinds of seek go through the
  driver's own `req` (`:165-167`, `:212-214`). A sector transfer outputs the
  request's descriptor (`:197`). For a read or write, that descriptor's `reg1`
  stays at the absolute start sector (`:249`, `:282`) for every sector. For a
  size query, `reg1` holds the caller's result pointer (`:315`). In the model
  every operation is a fresh value: a seek carries its target track, a
  transfer its track, its sector in the track and its buffer address, and a
  size query nothing.
- With no request for the unit, the driver services `pools[shortestIndex]`
  anyway: in the first round that index is uninitialised, and in later rounds
  it is the previous round's index. In the model `Select` returns `None` and
  `ServeNext` does nothing.
- The size check at `:180` sits inside the service loop. Its condition never
  changes during a service, so the model tests it once, after the positioning
  seek.

The scheduling policy the driver is meant to follow is this. A size query
needs no seek and is treated as always ready. A request on the head's
current track is taken before anything else, then a size query, then the
nearest request. In two places the code departs from that policy, and the
model follows the code:

- A size query is stored on track 0, and the seek check at `:164` comes
  before the size check at `:180`. So when the head is not on track 0, a size
  query is preceded by a seek to track 0, and the head moves there.
- The code does not give an on-track request priority over a size query. It
  checks both in one pass (`:146-154`), so whichever comes first in index
  order is taken.

The arithmetic also follows the code:

- Division and remainder are C's, which truncate toward zero
  (`DiskGeometry.CDiv`, `DiskGeometry.CMod`). A negative start sector
  therefore gives a non-positive track and a non-positive offset.

## Model

| member | source | states |
|---|---|---|
| `DiskGeometry.SplitSector` | phase2-starter-master/phase2c/phase2c.c:252-255 | track * 16 + offset is the absolute start sector, with the offset strictly between -16 and 16; for a non-negative sector both parts are non-negative |
| `DiskGeometry.SizeReportCoversTracks` | phase2-starter-master/phase2c/phase2c.c:326-327 | the reported sector size is 512, and a non-negative sector is below the reported count exactly when its track is below the device's track count |
| `DiskRequests.TransferRequest` | phase2-starter-master/phase2c/phase2c.c:248-256 | a read/write entry keeps kind, unit, count and buffer as given, and its track and offset locate exactly the given start sector (offset in 0..15 for a non-negative sector) |
| `SeekScheduler.FirstImmediate` | phase2-starter-master/phase2c/phase2c.c:146-154 | finds a slot iff some slot for the unit is on the head's track or is a size query, and then finds the lowest such slot |
| `SeekScheduler.NearestEntry` | phase2-starter-master/phase2c/phase2c.c:155-158 | any slot it returns lies in the pool and holds a request for the unit |
| `SeekScheduler.NearestEntryIsNearest` | phase2-starter-master/phase2c/phase2c.c:155-158 | finds nothing iff no slot is for the unit; otherwise no slot for the unit is nearer to the head, and every earlier slot for the unit is strictly farther |
| `SeekScheduler.PickIsSelection` | phase2-starter-master/phase2c/phase2c.c:140-159 | the functional selection meets the shortest-seek rule: none iff the unit has no request, else the lowest immediate slot, else the lowest nearest slot |
| `SeekScheduler.SelectionUnique` | phase2-starter-master/phase2c/phase2c.c:140-159 | the shortest-seek rule allows only one answer for a given pool, unit and head |
| `SeekScheduler.SelectionIsPick` | phase2-starter-master/phase2c/phase2c.c:140-159 | every answer that meets the rule equals the functional selection |
| `RequestExecutor.SectorRunTransfers` | phase2-starter-master/phase2c/phase2c.c:177-210 | a run transfers exactly n sectors; the j-th is sector offset + j counted from the run's track, at buffer offset 512 * j |
| `RequestExecutor.SectorRunSeeks` | phase2-starter-master/phase2c/phase2c.c:207-223 | every seek of a run comes right after sector 15 of the track before its target and right before sector 0 of its target, so a run never ends with a seek |
| `RequestExecutor.RunHeadTrack` | phase2-starter-master/phase2c/phase2c.c:211-223 | the head after a run of n > 0 sectors from offset `offset` rests (offset + n - 1) / 16 tracks past the run's track, and on the run's track when n is 0 |
| `RequestExecutor.SectorRunSeekCount` | phase2-starter-master/phase2c/phase2c.c:207-223 | a run seeks once per track it moves the head on, and issues exactly n operations besides its seeks |
| `RequestExecutor.SectorRunLast` | phase2-starter-master/phase2c/phase2c.c:207-210 | a non-empty run ends with a transfer, on the track where the head comes to rest |
| `RequestExecutor.ServiceTransfers` | phase2-starter-master/phase2c/phase2c.c:177-206 | a service transfers exactly `sectors` sectors (none for a size query); the k-th is absolute sector track * 16 + first + k, of the request's kind, at buffer + 512 * k |
| `RequestExecutor.ServiceSeeks` | phase2-starter-master/phase2c/phase2c.c:162-223 | a service begins with a seek to the request's track exactly when the head is elsewhere; every later seek closes a finished track and opens the next one at sector 0, one track further |
| `RequestExecutor.ServiceEnd` | phase2-starter-master/phase2c/phase2c.c:176-224 | a transfer of at least one sector ends on a transfer of its last absolute sector, track * 16 + first + sectors - 1, with the head resting on that sector's track; a size query ends with the track query and leaves the head on the request's track |
| `RequestExecutor.ServiceSeekCount` | phase2-starter-master/phase2c/phase2c.c:162-223 | a service seeks once to position the head when it is elsewhere, plus once per track the head then moves on |
| `DiskDriver.DiskState.constructor` | phase2-starter-master/phase2c/phase2c.c:56-78 | every slot starts empty, both heads start on track 0 and nothing has been issued |
| `DiskDriver.DiskState.EnqueueRead` | phase2-starter-master/phase2c/phase2c.c:246-256 | slot pid holds the read request built from the arguments; every other slot is unchanged |
| `DiskDriver.DiskState.EnqueueWrite` | phase2-starter-master/phase2c/phase2c.c:279-289 | slot pid holds the write request built from the arguments; every other slot is unchanged |
| `DiskDriver.DiskState.EnqueueSize` | phase2-starter-master/phase2c/phase2c.c:312-321 | slot pid holds a size query on track 0, offset 0, with no sectors and no buffer; every other slot is unchanged |
| `DiskDriver.DiskState.Release` | phase2-starter-master/phase2c/phase2c.c:259-263 | after the wait, slot pid is empty and every other slot is unchanged |
| `DiskDriver.DiskState.ReleaseSize` | phase2-starter-master/phase2c/phase2c.c:324-330 | a size call answers 512-byte sectors and tracks * 16 sectors, and clears only its slot |
| `DiskDriver.DiskState.Select` | phase2-starter-master/phase2c/phase2c.c:138-160 | the scan's answer meets the shortest-seek rule for the unit from its current head track, and equals `Pick`; the pool is not modified |
| `DiskDriver.DiskState.Execute` | phase2-starter-master/phase2c/phase2c.c:162-224 | the unit's trace grows by exactly `ServiceOps` from the old head, the head ends on `ServiceHead`, and the other unit's head and trace are unchanged |
| `DiskDriver.DiskState.TransferSectors` | phase2-starter-master/phase2c/phase2c.c:176-224 | the sector loop issues exactly `SectorRun` from the head's track, start offset, count and buffer, and leaves the head on `RunHead`; the other unit's head is unchanged |
| `DiskDriver.DiskState.TrackSectors` | phase2-starter-master/phase2c/phase2c.c:190-206 | the inner loop transfers sectors until the request's count or the end of the track is reached, whichever comes first; what it issues is that prefix of the run, and the rest of the run and the final head are unchanged |
| `DiskDriver.DiskState.ServeNext` | phase2-starter-master/phase2c/phase2c.c:129-226 | one driver round services exactly the slot `Pick` selects, with the trace and head effects of `Execute`, and signals that slot's process; with no request for the unit nothing changes |
| `AsWritten.SignedDistanceMisselects` | phase2-starter-master/phase2c/phase2c.c:155-157 | with the head on track 5 and requests on tracks 1 then 3, the scan as written keeps track 1 while the rule selects track 3 |
| `AsWritten.StaleHeadMisseeks` | phase2-starter-master/phase2c/phase2c.c:164-174 | a 2-sector read from sector 47 with the head on track 0 seeks back to track 1 as written, and on to track 3 once the positioning seek updates the head |
| `AsWritten.CarriedCountDropsSectors` | phase2-starter-master/phase2c/phase2c.c:114 | a sector count carried over from earlier services makes a service transfer that many sectors too few; starting from 0 transfers all of them |

## Left out

- Locks, condition variables, `P1_Wait` and `P1_Signal` are concurrency plumbing and are not modelled. The driver's signal is recorded as the woken process id in `woken`.
- The idle wait on `poolSize == 0` (`phase2c.c:131-137`) is not modelled. It is concurrency plumbing, and `poolSize` is never updated anyway.
- Device I/O is not modelled: `USLOSS_DeviceOutput` and `P1_DeviceWait` become operations appended to a per-unit trace.
- The driver may select a serviced request again before its caller clears the slot. That is a race between processes, and the model runs one step at a time.
- Abort handling is omitted: every device wait is taken to return ready. The `break` at `:201` leaves only the inner loop, so the code's abort behaviour has no coherent meaning to model.
- `P2DiskInit` and `P2DiskShutdown` (`phase2c.c:47-92`) are not modelled, except for the initial state they set up (the constructor). Lock creation, syscall handler registration and driver forking are process management.
- `P1_MAXPROC` is declared in `phase1.h`, which is not part of this model. The pool size is a constructor parameter.
- `ReadStub`, `WriteStub`, `SizeStub` and `MakeName` are argument marshalling and name formatting, and are not modelled.
- `phase2d.c` is startup glue and is not modelled.
- `malloc`, `free` and console output are not modelled. The client calls always return `P1_SUCCESS`, so no status is modelled.
- The integer width of C `int` is not modelled. Tracks, sectors and addresses are unbounded integers, because no wrap-around is reachable for real disk geometries.
- DiskDriver.DiskState.Execute: requires an offset in 0..15, a non-negative sector count and a unit of 0 or 1. With a negative count the code loops forever. A negative start sector gives negative sector numbers to the device. The code does not validate either case.
- DiskDriver.DiskState.ServeNext: requires every request for the unit to be one `Execute` accepts, for the same reason.
- DiskDriver.DiskState.TransferSectors: requires an offset in 0..15 and a non-negative count, for the same reason.
- AsWritten.ServiceOpsCarried: does not model a carried count above the request's count. In that case the loop never stops.

## Findings

| source | as written | input that shows it | evidently intended | confidence | as-written member | corrected member |
|---|---|---|---|---|---|---|
| phase2-starter-master/phase2c/phase2c.c:155-156 | the kept distance is the signed `track - head`, compared against `abs(track - head)` | head on track 5, unit-0 requests on tracks 1 then 3: track 1 (4 away) is kept, track 3 (2 away) is not | store `abs(track - head)`, the nearest request wins | not executed | AsWritten.SignedDistanceMisselects | DiskDriver.DiskState.Select |
| phase2-starter-master/phase2c/phase2c.c:164-174 | the positioning seek does not update `currentTrack`, so the next track seek targets old head + 1 | head on track 0, read of 2 sectors from absolute sector 47: seeks 2, then 1; the second sector comes from absolute sector 16 | head updated after the seek; the second seek targets track 3, sector 48 | not executed | AsWritten.StaleHeadMisseeks | DiskDriver.DiskState.Execute |
| phase2-starter-master/phase2c/phase2c.c:114 | `sectorsTouched` is set to 0 once per driver process, not per request | a 2-sector read followed by a 3-sector read on the same unit: the second transfers 1 sector | reset to 0 at the start of every service | not executed | AsWritten.CarriedCountDropsSectors | DiskDriver.DiskState.TransferSectors |
