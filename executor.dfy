/**
 * How the driver turns one pool entry into device operations: an optional
 * seek to the entry's track, then one operation per sector, moving to the
 * next track whenever a track is used up and sectors remain.
 */
module RequestExecutor {
  import opened DiskGeometry
  import opened DiskRequests

  /**
   * The operations that transfer `n` sectors starting at offset `offset` of
   * track `track`, the head resting on `track`, into the buffer at `addr`.
   * An offset of 16 means the track is used up.
   */
  function SectorRun(kind: Kind, track: int, offset: int, n: nat, addr: int): seq<DiskOp>
    requires 0 <= offset <= SectorsPerTrack
    decreases n, if offset == SectorsPerTrack then 1 else 0
  {
    if n == 0 then []
    else if offset == SectorsPerTrack then [Seek(track + 1)] + SectorRun(kind, track + 1, 0, n, addr)
    else [Rw(kind, track, offset, addr)] + SectorRun(kind, track, offset + 1, n - 1, addr + SectorSize)
  }

  /** The track the head rests on once `SectorRun(_, track, offset, n, _)` is done. */
  function RunHead(track: int, offset: int, n: nat): int
    requires 0 <= offset <= SectorsPerTrack
    decreases n, if offset == SectorsPerTrack then 1 else 0
  {
    if n == 0 then track
    else if offset == SectorsPerTrack then RunHead(track + 1, 0, n)
    else RunHead(track, offset + 1, n - 1)
  }

  /**
   * The head ends on the track of the run's last sector, `offset + n - 1`
   * counted from the start of `track`, and stays put for an empty run.
   */
  lemma {:induction false} RunHeadTrack(track: int, offset: int, n: nat)
    requires 0 <= offset <= SectorsPerTrack
    ensures RunHead(track, offset, n) == if n == 0 then track else track + (offset + n - 1) / SectorsPerTrack
    decreases n, if offset == SectorsPerTrack then 1 else 0
  {
    if n == 0 {
    } else if offset == SectorsPerTrack {
      RunHeadTrack(track + 1, 0, n);
      assert (SectorsPerTrack + n - 1) / SectorsPerTrack == 1 + (n - 1) / SectorsPerTrack;
    } else {
      RunHeadTrack(track, offset + 1, n - 1);
      if n == 1 {
        assert offset / SectorsPerTrack == 0;
      }
    }
  }

  /** Everything the driver issues to service `r` when the unit's head is on `head`. */
  function ServiceOps(r: Request, head: int): seq<DiskOp>
    requires Serviceable(r)
  {
    (if r.track != head then [Seek(r.track)] else [])
    + (if r.kind == Size then [QueryTracks] else SectorRun(r.kind, r.track, r.first, r.sectors, r.buffer))
  }

  /** The track the head rests on once `r` is serviced. */
  function ServiceHead(r: Request): int
    requires Serviceable(r)
  {
    if r.kind == Size then r.track else RunHead(r.track, r.first, r.sectors)
  }

  /** One sector of a run: the transfer at `offset`, then the rest of the run from the next offset. */
  lemma RunSectorStep(kind: Kind, track: int, offset: int, n: nat, addr: int)
    requires 0 <= offset < SectorsPerTrack && n > 0
    ensures SectorRun(kind, track, offset, n, addr)
      == [Rw(kind, track, offset, addr)] + SectorRun(kind, track, offset + 1, n - 1, addr + SectorSize)
    ensures RunHead(track, offset + 1, n - 1) == RunHead(track, offset, n)
  {
  }

  /** A used-up track with sectors left: the seek to the next track, then the run from its sector 0. */
  lemma RunSeekStep(kind: Kind, track: int, n: nat, addr: int)
    requires n > 0
    ensures SectorRun(kind, track, SectorsPerTrack, n, addr)
      == [Seek(track + 1)] + SectorRun(kind, track + 1, 0, n, addr)
    ensures RunHead(track + 1, 0, n) == RunHead(track, SectorsPerTrack, n)
  {
  }

  /** The sector transfers among `ops`, in order. */
  function Transfers(ops: seq<DiskOp>): seq<DiskOp>
  {
    if ops == [] then []
    else (if ops[0].Rw? then [ops[0]] else []) + Transfers(ops[1..])
  }

  /** Number of seeks among `ops`. */
  function SeekCount(ops: seq<DiskOp>): nat
  {
    if ops == [] then 0 else (if ops[0].Seek? then 1 else 0) + SeekCount(ops[1..])
  }

  /** Seek `j` of `ops` is directly followed by a transfer of sector 0 of its target track. */
  predicate OpensTrack(ops: seq<DiskOp>, j: int)
  {
    0 <= j && j + 1 < |ops| && ops[j].Seek?
    && ops[j + 1].Rw? && ops[j + 1].track == ops[j].target && ops[j + 1].sector == 0
  }

  /** Seek `j` of `ops` directly follows the transfer of the last sector of the track before its target. */
  predicate ClosesTrack(ops: seq<DiskOp>, j: int)
  {
    0 < j < |ops| && ops[j].Seek?
    && ops[j - 1].Rw? && ops[j - 1].sector == SectorsPerTrack - 1 && ops[j - 1].track + 1 == ops[j].target
  }

  lemma {:induction false} TransfersAppend(a: seq<DiskOp>, b: seq<DiskOp>)
    ensures Transfers(a + b) == Transfers(a) + Transfers(b)
  {
    if a == [] {
      assert a + b == b;
    } else {
      assert (a + b)[0] == a[0];
      assert (a + b)[1..] == a[1..] + b;
      TransfersAppend(a[1..], b);
    }
  }

  lemma {:induction false} SeekCountAppend(a: seq<DiskOp>, b: seq<DiskOp>)
    ensures SeekCount(a + b) == SeekCount(a) + SeekCount(b)
  {
    if a == [] {
      assert a + b == b;
    } else {
      assert (a + b)[0] == a[0];
      assert (a + b)[1..] == a[1..] + b;
      SeekCountAppend(a[1..], b);
    }
  }

  /**
   * A run transfers exactly `n` sectors; the `j`-th is sector `offset + j`
   * counted from the start of `track`, read into or written from buffer
   * offset `512 * j`.
   */
  lemma {:induction false} SectorRunTransfers(kind: Kind, track: int, offset: int, n: nat, addr: int)
    requires 0 <= offset <= SectorsPerTrack
    ensures |Transfers(SectorRun(kind, track, offset, n, addr))| == n
    ensures forall j :: 0 <= j < n ==>
      Transfers(SectorRun(kind, track, offset, n, addr))[j]
        == Rw(kind, track + (offset + j) / SectorsPerTrack, (offset + j) % SectorsPerTrack, addr + SectorSize * j)
    decreases n, if offset == SectorsPerTrack then 1 else 0
  {
    var ops := SectorRun(kind, track, offset, n, addr);
    if n == 0 {
    } else if offset == SectorsPerTrack {
      var rest := SectorRun(kind, track + 1, 0, n, addr);
      SectorRunTransfers(kind, track + 1, 0, n, addr);
      TransfersAppend([Seek(track + 1)], rest);
      assert Transfers([Seek(track + 1)]) == [] by {
        assert [Seek(track + 1)][1..] == [];
      }
      forall j | 0 <= j < n
        ensures Transfers(ops)[j]
          == Rw(kind, track + (offset + j) / SectorsPerTrack, (offset + j) % SectorsPerTrack, addr + SectorSize * j)
      {
        assert (SectorsPerTrack + j) / SectorsPerTrack == 1 + j / SectorsPerTrack;
        assert (SectorsPerTrack + j) % SectorsPerTrack == j % SectorsPerTrack;
      }
    } else {
      var first := Rw(kind, track, offset, addr);
      var rest := SectorRun(kind, track, offset + 1, n - 1, addr + SectorSize);
      SectorRunTransfers(kind, track, offset + 1, n - 1, addr + SectorSize);
      TransfersAppend([first], rest);
      assert Transfers([first]) == [first] by {
        assert [first][1..] == [];
      }
      var t := Transfers(rest);
      var whole := [first] + t;
      assert Transfers(ops) == whole;
      forall j | 0 <= j < n
        ensures Transfers(ops)[j]
          == Rw(kind, track + (offset + j) / SectorsPerTrack, (offset + j) % SectorsPerTrack, addr + SectorSize * j)
      {
        if j == 0 {
          assert offset / SectorsPerTrack == 0 && offset % SectorsPerTrack == offset;
        } else {
          assert whole[j] == t[j - 1];
          assert offset + 1 + (j - 1) == offset + j;
        }
      }
    }
  }

  /**
   * Every seek in `ops`, a run that starts at `offset` of `track`, opens the
   * next track; it closes the track before it, except as the very first
   * operation of a run that starts on a used-up track.
   */
  predicate SeeksPlaced(ops: seq<DiskOp>, track: int, offset: int)
  {
    forall j :: 0 <= j < |ops| && ops[j].Seek? ==>
      OpensTrack(ops, j)
      && (if j == 0 then offset == SectorsPerTrack && ops[0].target == track + 1 else ClosesTrack(ops, j))
  }

  /**
   * Every seek inside a run moves from a used-up track to the next one: it
   * comes right after sector 15 of the previous track (or first of all when
   * the run starts on a used-up track) and is followed by sector 0 of its
   * target, so a run never ends with a seek.
   */
  lemma {:induction false} SectorRunSeeks(kind: Kind, track: int, offset: int, n: nat, addr: int)
    requires 0 <= offset <= SectorsPerTrack
    ensures SeeksPlaced(SectorRun(kind, track, offset, n, addr), track, offset)
    decreases n, if offset == SectorsPerTrack then 1 else 0
  {
    var ops := SectorRun(kind, track, offset, n, addr);
    if n == 0 {
    } else if offset == SectorsPerTrack {
      var rest := SectorRun(kind, track + 1, 0, n, addr);
      SectorRunSeeks(kind, track + 1, 0, n, addr);
      assert ops == [Seek(track + 1)] + rest;
      assert rest[0] == Rw(kind, track + 1, 0, addr);
      forall j | 0 <= j < |ops| && ops[j].Seek?
        ensures OpensTrack(ops, j)
          && (if j == 0 then offset == SectorsPerTrack && ops[0].target == track + 1 else ClosesTrack(ops, j))
      {
        if j > 0 {
          assert ops[j] == rest[j - 1];
          assert j - 1 != 0;
          assert OpensTrack(rest, j - 1) && ClosesTrack(rest, j - 1);
          assert ops[j + 1] == rest[j] && ops[j - 1] == rest[j - 2];
        }
      }
    } else {
      var rest := SectorRun(kind, track, offset + 1, n - 1, addr + SectorSize);
      SectorRunSeeks(kind, track, offset + 1, n - 1, addr + SectorSize);
      assert ops == [Rw(kind, track, offset, addr)] + rest;
      forall j | 0 <= j < |ops| && ops[j].Seek?
        ensures j != 0 && OpensTrack(ops, j) && ClosesTrack(ops, j)
      {
        assert ops[j] == rest[j - 1];
        assert OpensTrack(rest, j - 1);
        assert ops[j + 1] == rest[j];
        if j - 1 == 0 {
          assert ops[0] == Rw(kind, track, offset, addr);
        } else {
          assert ClosesTrack(rest, j - 1);
          assert ops[j - 1] == rest[j - 2];
        }
      }
    }
  }

  /** A run issues one transfer per sector and one seek per track boundary it crosses. */
  lemma {:induction false} SectorRunSeekCount(kind: Kind, track: int, offset: int, n: nat, addr: int)
    requires 0 <= offset <= SectorsPerTrack
    ensures var ops := SectorRun(kind, track, offset, n, addr);
      SeekCount(ops) == RunHead(track, offset, n) - track && |ops| == n + SeekCount(ops)
    decreases n, if offset == SectorsPerTrack then 1 else 0
  {
    if n == 0 {
    } else if offset == SectorsPerTrack {
      var rest := SectorRun(kind, track + 1, 0, n, addr);
      SectorRunSeekCount(kind, track + 1, 0, n, addr);
      SeekCountAppend([Seek(track + 1)], rest);
      assert SeekCount([Seek(track + 1)]) == 1 by {
        assert [Seek(track + 1)][1..] == [];
      }
    } else {
      var first := Rw(kind, track, offset, addr);
      var rest := SectorRun(kind, track, offset + 1, n - 1, addr + SectorSize);
      SectorRunSeekCount(kind, track, offset + 1, n - 1, addr + SectorSize);
      SeekCountAppend([first], rest);
      assert SeekCount([first]) == 0 by {
        assert [first][1..] == [];
      }
    }
  }

  /** A non-empty run ends with a transfer on the track `RunHead` names. */
  lemma {:induction false} SectorRunLast(kind: Kind, track: int, offset: int, n: nat, addr: int)
    requires 0 <= offset <= SectorsPerTrack && n > 0
    ensures var ops := SectorRun(kind, track, offset, n, addr);
      |ops| > 0 && ops[|ops| - 1].Rw? && ops[|ops| - 1].track == RunHead(track, offset, n)
    decreases n, if offset == SectorsPerTrack then 1 else 0
  {
    var ops := SectorRun(kind, track, offset, n, addr);
    if offset == SectorsPerTrack {
      var rest := SectorRun(kind, track + 1, 0, n, addr);
      SectorRunLast(kind, track + 1, 0, n, addr);
      assert ops[|ops| - 1] == rest[|rest| - 1];
    } else if n > 1 {
      var rest := SectorRun(kind, track, offset + 1, n - 1, addr + SectorSize);
      SectorRunLast(kind, track, offset + 1, n - 1, addr + SectorSize);
      assert ops[|ops| - 1] == rest[|rest| - 1];
    } else {
      assert SectorRun(kind, track, offset + 1, 0, addr + SectorSize) == [];
      assert ops == [Rw(kind, track, offset, addr)];
    }
  }

  /**
   * Servicing `r` transfers exactly `r.sectors` sectors (none for a size
   * query); the `k`-th is the absolute sector `track * 16 + first + k` of
   * the request and uses buffer offset `512 * k`.
   */
  lemma ServiceTransfers(r: Request, head: int)
    requires Serviceable(r)
    ensures var t := Transfers(ServiceOps(r, head));
      && |t| == (if r.kind == Size then 0 else r.sectors)
      && forall k :: 0 <= k < |t| ==>
        && t[k].Rw? && t[k].kind == r.kind
        && 0 <= t[k].sector < SectorsPerTrack
        && t[k].track * SectorsPerTrack + t[k].sector == r.track * SectorsPerTrack + r.first + k
        && t[k].addr == r.buffer + SectorSize * k
  {
    var pre: seq<DiskOp> := if r.track != head then [Seek(r.track)] else [];
    assert Transfers(pre) == [] by {
      if pre != [] { assert pre[1..] == []; }
    }
    if r.kind == Size {
      TransfersAppend(pre, [QueryTracks]);
      assert Transfers([QueryTracks]) == [] by {
        assert [QueryTracks][1..] == [];
      }
    } else {
      var run := SectorRun(r.kind, r.track, r.first, r.sectors, r.buffer);
      TransfersAppend(pre, run);
      SectorRunTransfers(r.kind, r.track, r.first, r.sectors, r.buffer);
      var t := Transfers(ServiceOps(r, head));
      forall k | 0 <= k < |t|
        ensures t[k].track * SectorsPerTrack + t[k].sector == r.track * SectorsPerTrack + r.first + k
      {
        var p := r.first + k;
        assert (r.track + p / SectorsPerTrack) * SectorsPerTrack + p % SectorsPerTrack
          == r.track * SectorsPerTrack + p;
      }
    }
  }

  /**
   * Servicing `r` begins with a seek to its track exactly when the head is
   * elsewhere; every later seek moves from the just-finished track to the
   * next one and is followed by sector 0 of that track.
   */
  lemma ServiceSeeks(r: Request, head: int)
    requires Serviceable(r)
    ensures var ops := ServiceOps(r, head);
      && (r.track != head <==> |ops| > 0 && ops[0] == Seek(r.track))
      && forall j :: 0 < j < |ops| && ops[j].Seek? ==> ClosesTrack(ops, j) && OpensTrack(ops, j)
  {
    var ops := ServiceOps(r, head);
    var pre: seq<DiskOp> := if r.track != head then [Seek(r.track)] else [];
    if r.kind == Size {
      assert ops == pre + [QueryTracks];
    } else {
      var run := SectorRun(r.kind, r.track, r.first, r.sectors, r.buffer);
      SectorRunSeeks(r.kind, r.track, r.first, r.sectors, r.buffer);
      assert ops == pre + run;
      if r.track == head {
        assert ops == run;
        assert r.sectors > 0 ==> run[0].Rw?;
      } else {
        forall j | 0 < j < |ops| && ops[j].Seek?
          ensures ClosesTrack(ops, j) && OpensTrack(ops, j)
        {
          assert ops[j] == run[j - 1];
          assert j - 1 != 0 by {
            assert run[0].Rw?;
          }
          assert ClosesTrack(run, j - 1) && OpensTrack(run, j - 1);
          assert ops[j + 1] == run[j] && ops[j - 1] == run[j - 2];
        }
      }
    }
  }

  /**
   * After servicing a transfer of at least one sector, the last operation
   * is the transfer of the request's last absolute sector, and the head
   * rests on that sector's track. A size query ends with the track query,
   * the head on the query's track 0.
   */
  lemma ServiceEnd(r: Request, head: int)
    requires Serviceable(r)
    ensures var ops := ServiceOps(r, head);
      && (r.kind == Size ==> ops[|ops| - 1] == QueryTracks && ServiceHead(r) == r.track)
      && (r.kind != Size && r.sectors > 0 ==>
           ops[|ops| - 1].Rw? && ops[|ops| - 1].track == ServiceHead(r)
           && ServiceHead(r) * SectorsPerTrack + ops[|ops| - 1].sector
              == r.track * SectorsPerTrack + r.first + r.sectors - 1)
  {
    if r.kind != Size && r.sectors > 0 {
      var ops := ServiceOps(r, head);
      var run := SectorRun(r.kind, r.track, r.first, r.sectors, r.buffer);
      SectorRunLast(r.kind, r.track, r.first, r.sectors, r.buffer);
      RunHeadTrack(r.track, r.first, r.sectors);
      assert ops[|ops| - 1] == run[|run| - 1];
      SectorRunTransfers(r.kind, r.track, r.first, r.sectors, r.buffer);
      LastTransfer(run);
      var p := r.first + r.sectors - 1;
      assert run[|run| - 1] == Rw(r.kind, r.track + p / SectorsPerTrack, p % SectorsPerTrack, r.buffer + SectorSize * (r.sectors - 1));
      assert (r.track + p / SectorsPerTrack) * SectorsPerTrack + p % SectorsPerTrack == r.track * SectorsPerTrack + p;
    }
  }

  /**
   * A service seeks once to position the head when it is elsewhere, and
   * then once per track boundary the transfer crosses; a size query seeks
   * only to position the head.
   */
  lemma ServiceSeekCount(r: Request, head: int)
    requires Serviceable(r)
    ensures SeekCount(ServiceOps(r, head)) == (if r.track != head then 1 else 0) + (ServiceHead(r) - r.track)
  {
    var pre: seq<DiskOp> := if r.track != head then [Seek(r.track)] else [];
    assert SeekCount(pre) == (if r.track != head then 1 else 0) by {
      if pre != [] { assert pre[1..] == []; }
    }
    if r.kind == Size {
      SeekCountAppend(pre, [QueryTracks]);
      assert SeekCount([QueryTracks]) == 0 by {
        assert [QueryTracks][1..] == [];
      }
    } else {
      var run := SectorRun(r.kind, r.track, r.first, r.sectors, r.buffer);
      SeekCountAppend(pre, run);
      SectorRunSeekCount(r.kind, r.track, r.first, r.sectors, r.buffer);
    }
  }

  /** The last transfer of a sequence ending with a transfer is its last operation. */
  lemma {:induction false} LastTransfer(ops: seq<DiskOp>)
    requires |ops| > 0 && ops[|ops| - 1].Rw?
    ensures |Transfers(ops)| > 0 && Transfers(ops)[|Transfers(ops)| - 1] == ops[|ops| - 1]
  {
    var prefix := ops[..|ops| - 1];
    var last := ops[|ops| - 1];
    assert ops == prefix + [last];
    TransfersAppend(prefix, [last]);
    assert Transfers([last]) == [last] by {
      assert [last][1..] == [];
    }
  }
}
