/**
 * Shortest-seek-first selection over the request pool, as a specification:
 * which pool index the driver of one unit must service next.
 */
module SeekScheduler {
  import opened DiskRequests

  /** A pool slot holding a request for `unit`. */
  predicate OnUnit(e: Option<Request>, unit: int)
  {
    e.Some? && e.value.unit == unit
  }

  /**
   * A slot the scan takes at once, without comparing distances: a request
   * for `unit` on the head's track, or a size query for `unit`.
   */
  predicate Immediate(e: Option<Request>, unit: int, head: int)
  {
    OnUnit(e, unit) && (e.value.track == head || e.value.kind == Size)
  }

  /** Seek distance from the head to a request's track. */
  function Distance(e: Option<Request>, head: int): nat
    requires e.Some?
  {
    if e.value.track >= head then e.value.track - head else head - e.value.track
  }

  /**
   * `r` is the selection for `unit` with its head on track `head`:
   * nothing when no slot holds a request for the unit; otherwise a slot
   * for the unit that is either the lowest immediate slot, or, when there
   * is no immediate slot, one at the smallest distance with no slot at the
   * same distance before it.
   */
  ghost predicate IsSelection(s: seq<Option<Request>>, unit: int, head: int, r: Option<nat>)
  {
    match r
    case None => forall i :: 0 <= i < |s| ==> !OnUnit(s[i], unit)
    case Some(k) =>
      && k < |s|
      && OnUnit(s[k], unit)
      && ((Immediate(s[k], unit, head) && forall i :: 0 <= i < k ==> !Immediate(s[i], unit, head))
          || ((forall i :: 0 <= i < |s| ==> !Immediate(s[i], unit, head))
              && (forall i :: 0 <= i < |s| && OnUnit(s[i], unit) ==> Distance(s[k], head) <= Distance(s[i], head))
              && (forall i :: 0 <= i < k && OnUnit(s[i], unit) ==> Distance(s[k], head) < Distance(s[i], head))))
  }

  function Shift(r: Option<nat>): Option<nat>
  {
    if r.Some? then Some(r.value + 1) else None
  }

  /** The lowest immediate slot, if any. */
  function FirstImmediate(s: seq<Option<Request>>, unit: int, head: int): (r: Option<nat>)
    ensures r.None? <==> forall i :: 0 <= i < |s| ==> !Immediate(s[i], unit, head)
    ensures r.Some? ==> r.value < |s| && Immediate(s[r.value], unit, head)
    ensures r.Some? ==> forall i :: 0 <= i < r.value ==> !Immediate(s[i], unit, head)
  {
    if s == [] then None
    else if Immediate(s[0], unit, head) then Some(0)
    else
      var rest := FirstImmediate(s[1..], unit, head);
      assert forall i :: 1 <= i < |s| ==> s[i] == s[1..][i - 1];
      Shift(rest)
  }

  /** The nearest slot for `unit`, the lowest one among equally near slots. */
  function NearestEntry(s: seq<Option<Request>>, unit: int, head: int): (r: Option<nat>)
    ensures r.Some? ==> r.value < |s| && OnUnit(s[r.value], unit)
  {
    if s == [] then None
    else
      var rest := Shift(NearestEntry(s[1..], unit, head));
      if !OnUnit(s[0], unit) then rest
      else if rest.None? || Distance(s[0], head) <= Distance(s[rest.value], head) then Some(0)
      else rest
  }

  /** The selection as a function: the lowest immediate slot, else the nearest slot. */
  function Pick(s: seq<Option<Request>>, unit: int, head: int): Option<nat>
  {
    var first := FirstImmediate(s, unit, head);
    if first.Some? then first else NearestEntry(s, unit, head)
  }

  /** `NearestEntry` finds nothing only when no slot is for the unit, and otherwise finds a nearest slot, the lowest such. */
  lemma {:induction false} NearestEntryIsNearest(s: seq<Option<Request>>, unit: int, head: int)
    ensures NearestEntry(s, unit, head).None? <==> forall i :: 0 <= i < |s| ==> !OnUnit(s[i], unit)
    ensures NearestEntry(s, unit, head).Some? ==>
      var k := NearestEntry(s, unit, head).value;
      && (forall i :: 0 <= i < |s| && OnUnit(s[i], unit) ==> Distance(s[k], head) <= Distance(s[i], head))
      && (forall i :: 0 <= i < k && OnUnit(s[i], unit) ==> Distance(s[k], head) < Distance(s[i], head))
  {
    if s != [] {
      var tail := s[1..];
      NearestEntryIsNearest(tail, unit, head);
      assert forall i :: 1 <= i < |s| ==> s[i] == tail[i - 1];
    }
  }

  /** `Pick` meets the selection specification. */
  lemma PickIsSelection(s: seq<Option<Request>>, unit: int, head: int)
    ensures IsSelection(s, unit, head, Pick(s, unit, head))
  {
    NearestEntryIsNearest(s, unit, head);
    if FirstImmediate(s, unit, head).None? && NearestEntry(s, unit, head).None? {
      assert forall i :: 0 <= i < |s| ==> !OnUnit(s[i], unit);
    }
  }

  /** The selection specification fixes one answer for every pool and head. */
  lemma SelectionUnique(s: seq<Option<Request>>, unit: int, head: int, r1: Option<nat>, r2: Option<nat>)
    requires IsSelection(s, unit, head, r1) && IsSelection(s, unit, head, r2)
    ensures r1 == r2
  {
  }

  /** Hence `Pick` is the only answer the specification allows. */
  lemma SelectionIsPick(s: seq<Option<Request>>, unit: int, head: int, r: Option<nat>)
    requires IsSelection(s, unit, head, r)
    ensures r == Pick(s, unit, head)
  {
    PickIsSelection(s, unit, head);
    SelectionUnique(s, unit, head, r, Pick(s, unit, head));
  }
}
