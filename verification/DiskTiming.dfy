/**
 The timing of the simulated disk (machine/disk.cc): one surface that rotates by one sector every RotationTime ticks, a
 head that moves by one track every SeekTime ticks, and a buffer that fills with the current track as it
 passes under the head.
 */
module DiskTiming {

  const SECTORS_PER_TRACK := 32
  const NUM_SECTORS := 1024
  const ROTATION_TIME := 500
  const SEEK_TIME := 500

  // ---------- the physical disk ----------

  /** A sector boundary passes under the head. */
  predicate AtBoundary(time: int)
  {
    time % ROTATION_TIME == 0
  }

  /** Which sector of a track starts to pass under the head at a boundary. */
  function UnderHead(time: nat): nat
  {
    time / ROTATION_TIME % SECTORS_PER_TRACK
  }

  predicate Starts(time: int, sector: nat)
  {
    time >= 0 && AtBoundary(time) && UnderHead(time) == sector % SECTORS_PER_TRACK
  }

  /** time is the first moment, not before from, at which the sector starts to pass under the head. */
  ghost predicate FirstPass(time: int, sector: nat, from: int)
  {
    && time >= from && Starts(time, sector)
    && forall t :: from <= t < time ==> !Starts(t, sector)
  }

  /** The sector has passed under the head completely, somewhere between two times. */
  ghost predicate PassedBetween(sector: nat, from: int, to: int)
  {
    exists t :: from <= t && t + ROTATION_TIME <= to && Starts(t, sector)
  }

  function Abs(x: int): nat
  {
    if x < 0 then -x else x
  }

  /** Time to move the head between the tracks of two sectors. */
  function SeekTicks(fromSector: nat, toSector: nat): nat
  {
    Abs(toSector / SECTORS_PER_TRACK - fromSector / SECTORS_PER_TRACK) * SEEK_TIME
  }

  // ---------- the code's arithmetic ----------

  /** C division rounds toward zero. */
  function CDiv(a: int, b: int): int
    requires b > 0
  {
    if a >= 0 then a / b else -((-a) / b)
  }

  /** Number of sectors of rotational delay. */
  function ModuloDiff(to: nat, from: nat): (d: nat)
    ensures d < SECTORS_PER_TRACK
  {
    (to % SECTORS_PER_TRACK - from % SECTORS_PER_TRACK + SECTORS_PER_TRACK) % SECTORS_PER_TRACK
  }

  /** How long until the next boundary. */
  function RoundUp(time: nat): (r: nat)
    ensures AtBoundary(time + r) && r < ROTATION_TIME
  {
    if time % ROTATION_TIME > 0 then ROTATION_TIME - time % ROTATION_TIME else 0
  }

  /** From a boundary, the sector comes round ModuloDiff sectors later, and not sooner. */
  lemma NextPass(sector: nat, boundary: nat)
    requires AtBoundary(boundary)
    ensures FirstPass(boundary + ModuloDiff(sector, boundary / ROTATION_TIME) * ROTATION_TIME, sector, boundary)
  {
    var k := boundary / ROTATION_TIME;
    var d := ModuloDiff(sector, k);
    PassAt(boundary, d);
    SectorComesRound(sector, k, d);
    forall t | boundary <= t < boundary + d * ROTATION_TIME
      ensures !Starts(t, sector)
    {
      if AtBoundary(t) {
        var j := (t - boundary) / ROTATION_TIME;
        StepsBetween(boundary, t);
        PassAt(boundary, j);
        SectorComesRound(sector, k, j);
      }
    }
  }

  /** Counting sectors past the head: the wanted one is there after ModuloDiff of them, and not before. */
  lemma SectorComesRound(sector: nat, k: nat, j: nat)
    requires j <= ModuloDiff(sector, k)
    ensures (k + j) % SECTORS_PER_TRACK == sector % SECTORS_PER_TRACK <==> j == ModuloDiff(sector, k)
  {
    var a, b := sector % SECTORS_PER_TRACK, k % SECTORS_PER_TRACK;
    assert (k + j) % SECTORS_PER_TRACK == (b + j) % SECTORS_PER_TRACK;
  }

  lemma StepsBetween(boundary: nat, t: nat)
    requires boundary <= t && AtBoundary(boundary) && AtBoundary(t)
    ensures t == boundary + (t - boundary) / ROTATION_TIME * ROTATION_TIME
  {
  }

  lemma PassAt(boundary: nat, j: nat)
    requires AtBoundary(boundary)
    ensures AtBoundary(boundary + j * ROTATION_TIME)
    ensures UnderHead(boundary + j * ROTATION_TIME) == (boundary / ROTATION_TIME + j) % SECTORS_PER_TRACK
  {
    assert boundary == boundary / ROTATION_TIME * ROTATION_TIME;
    assert (boundary + j * ROTATION_TIME) / ROTATION_TIME == boundary / ROTATION_TIME + j;
  }

  /** Rounding up to the next boundary loses no pass. */
  lemma FirstPassFromBoundary(time: int, sector: nat, from: nat)
    requires FirstPass(time, sector, from + RoundUp(from))
    ensures FirstPass(time, sector, from)
  {
    forall t | from <= t < time
      ensures !Starts(t, sector)
    {
      if t < from + RoundUp(from) { NoBoundary(from, t); }
    }
  }

  lemma NoBoundary(from: nat, t: nat)
    requires from <= t < from + RoundUp(from)
    ensures !AtBoundary(t)
  {
  }

  /** The comparison that grants a buffer hit says exactly that the sector has passed since the buffer was started. */
  lemma BufferTest(sector: nat, bufferInit: nat, timeAfter: nat)
    requires AtBoundary(bufferInit) && AtBoundary(timeAfter)
    ensures CDiv(timeAfter - bufferInit, ROTATION_TIME) > ModuloDiff(sector, bufferInit / ROTATION_TIME) <==>
            PassedBetween(sector, bufferInit, timeAfter)
  {
    var d := ModuloDiff(sector, bufferInit / ROTATION_TIME);
    var first := bufferInit + d * ROTATION_TIME;
    NextPass(sector, bufferInit);
    assert Starts(first, sector);
    assert PassedBetween(sector, bufferInit, timeAfter) <==> first + ROTATION_TIME <= timeAfter;
    BoundaryCount(bufferInit, timeAfter, d);
  }

  lemma BoundaryCount(from: nat, to: nat, d: nat)
    requires AtBoundary(from) && AtBoundary(to)
    ensures CDiv(to - from, ROTATION_TIME) > d <==> from + d * ROTATION_TIME + ROTATION_TIME <= to
  {
    var a, b := from / ROTATION_TIME, to / ROTATION_TIME;
    assert from == a * ROTATION_TIME && to == b * ROTATION_TIME;
  }

  /** No sector starts between the head's arrival and the next boundary, so counting from either is the same. */
  lemma PassedSinceArrival(sector: nat, arrival: nat, to: nat)
    ensures PassedBetween(sector, arrival, to) <==> PassedBetween(sector, arrival + RoundUp(arrival), to)
  {
    if PassedBetween(sector, arrival, to) {
      var t :| arrival <= t && t + ROTATION_TIME <= to && Starts(t, sector);
      if t < arrival + RoundUp(arrival) { NoBoundary(arrival, t); }
    }
  }

  class Disk {
    var active: bool
    var lastSector: nat
    var bufferInit: nat
    ghost var arrival: nat           // when the head reached the track it is on

    /** The buffer was started at the first boundary after the head reached its track. */
    ghost predicate Valid()
      reads this
    {
      lastSector < NUM_SECTORS && AtBoundary(bufferInit) && bufferInit == arrival + RoundUp(arrival)
    }

    constructor ()
      ensures Valid() && !active && lastSector == 0 && arrival == 0
    {
      active, lastSector, bufferInit, arrival := false, 0, 0, 0;
    }

    method TimeToSeek(newSector: nat, totalTicks: nat) returns (seek: nat, rotation: nat)
      ensures seek == SeekTicks(lastSector, newSector) && rotation == RoundUp(totalTicks + seek)
    {
      var newTrack := newSector / SECTORS_PER_TRACK;
      var oldTrack := lastSector / SECTORS_PER_TRACK;
      seek := Abs(newTrack - oldTrack) * SEEK_TIME;
      var over := (totalTicks + seek) % ROTATION_TIME;
      rotation := 0;
      if over > 0 {
        rotation := ROTATION_TIME - over;
      }
    }

    /**
     A read of the current track whose sector has passed under the head since the buffer was started takes one
     rotation tick. Any other request is transferred the first time the sector passes after the seek.
     */
    method ComputeLatency(newSector: nat, writing: bool, totalTicks: nat) returns (latency: nat)
      requires Valid() && newSector < NUM_SECTORS
      ensures ROTATION_TIME <= latency <= 31999
      ensures Served(newSector, writing, totalTicks, latency)
    {
      var seek, rotation := TimeToSeek(newSector, totalTicks);
      var timeAfter := totalTicks + seek + rotation;
      BufferTest(newSector, bufferInit, timeAfter);
      PassedSinceArrival(newSector, arrival, timeAfter);
      SeekBound(lastSector, newSector);
      if !writing && seek == 0 &&
         CDiv(timeAfter - bufferInit, ROTATION_TIME) > ModuloDiff(newSector, bufferInit / ROTATION_TIME) {
        return ROTATION_TIME;
      }
      NextPass(newSector, timeAfter);
      rotation := rotation + ModuloDiff(newSector, timeAfter / ROTATION_TIME) * ROTATION_TIME;
      FirstPassFromBoundary(totalTicks + seek + rotation, newSector, totalTicks + seek);
      return seek + rotation + ROTATION_TIME;
    }

    method UpdateLast(newSector: nat, totalTicks: nat)
      requires Valid() && newSector < NUM_SECTORS
      modifies this`lastSector, this`bufferInit, this`arrival
      ensures Valid() && lastSector == newSector
      ensures
        var seek := SeekTicks(old(lastSector), newSector);
        arrival == (if seek == 0 then old(arrival) else totalTicks + seek)
    {
      var seek, rotate := TimeToSeek(newSector, totalTicks);
      if seek != 0 {
        bufferInit := totalTicks + seek + rotate;
        arrival := totalTicks + seek;
      }
      lastSector := newSector;
    }

    /** ReadRequest and WriteRequest: the delay after which the disk interrupt is scheduled. */
    method Request(sectorNumber: nat, writing: bool, totalTicks: nat) returns (ticks: nat)
      requires Valid() && !active && sectorNumber < NUM_SECTORS
      modifies this
      ensures Valid() && active && lastSector == sectorNumber
      ensures
        var seek := SeekTicks(old(lastSector), sectorNumber);
        arrival == (if seek == 0 then old(arrival) else totalTicks + seek)
      ensures ROTATION_TIME <= ticks <= 31999
      ensures old(Served(sectorNumber, writing, totalTicks, ticks))
    {
      ticks := ComputeLatency(sectorNumber, writing, totalTicks);
      active := true;
      UpdateLast(sectorNumber, totalTicks);
    }

    /** The interrupt: the request is over. */
    method CallBack()
      requires Valid()
      modifies this`active
      ensures Valid() && !active
    {
      active := false;
    }

    /**
     What the disk promises about a request. Either the transfer ends ticks after the request, having started the
     first time the sector came under the head after the seek; or the data comes out of the buffer, which the whole
     sector has passed into while the head stayed on its track.
     */
    ghost predicate Served(sector: nat, writing: bool, now: nat, ticks: nat)
      requires Valid()
      reads this
    {
      var seek := SeekTicks(lastSector, sector);
      var ready := now + seek + RoundUp(now + seek);
      if !writing && seek == 0 && PassedBetween(sector, arrival, ready) then ticks == ROTATION_TIME
      else FirstPass(now + ticks - ROTATION_TIME, sector, now + seek)
    }
  }

  lemma SeekBound(fromSector: nat, toSector: nat)
    requires fromSector < NUM_SECTORS && toSector < NUM_SECTORS
    ensures SeekTicks(fromSector, toSector) <= 31 * SEEK_TIME
  {
  }

  /** Seeks cost 500 ticks for each track passed: none on a track, 500 to the next one, and they add up, in both directions. */
  lemma SeeksAddUp(a: nat, b: nat, c: nat)
    requires a / 32 <= b / 32 <= c / 32
    ensures SeekTicks(a, c) == SeekTicks(a, b) + SeekTicks(b, c) == SeekTicks(c, a)
    ensures a / 32 == b / 32 ==> SeekTicks(a, b) == 0
    ensures a / 32 + 1 == b / 32 ==> SeekTicks(a, b) == 500
  {
  }

  // ---------- any sequence of requests ----------

  /** A request and the time at which it was made. */
  datatype Asked = Asked(sector: nat, writing: bool, time: nat)

  /** Where the earlier requests left the head; at first it is over sector 0. */
  function HeadAfter(past: seq<Asked>): nat
  {
    if past == [] then 0 else past[|past| - 1].sector
  }

  /** When the head reached the track it is on: at the end of the last seek, or at time 0 if it has not moved yet. */
  function ReachedTrack(past: seq<Asked>): nat
  {
    if past == [] then 0
    else
      var before, last := past[..|past| - 1], past[|past| - 1];
      var seek := SeekTicks(HeadAfter(before), last.sector);
      if seek == 0 then ReachedTrack(before) else last.time + seek
  }

  /** The last seek, if there was one, is the one that ReachedTrack counts from. */
  lemma {:induction false} ReachedAtLastSeek(past: seq<Asked>, i: nat)
    requires i < |past| && SeekTicks(HeadAfter(past[..i]), past[i].sector) != 0
    requires forall j :: i < j < |past| ==> past[j].sector / SECTORS_PER_TRACK == past[i].sector / SECTORS_PER_TRACK
    ensures ReachedTrack(past) == past[i].time + SeekTicks(HeadAfter(past[..i]), past[i].sector)
  {
    var n := |past| - 1;
    if i < n {
      var front := past[..n];
      assert front[..i] == past[..i] && HeadAfter(front) == past[n - 1].sector;
      assert forall j :: i < j < |front| ==> front[j] == past[j];
      ReachedAtLastSeek(front, i);
    } else {
      assert past[..n] == past[..i];
    }
  }

  /**
   The answer to a request after the earlier ones. A read of a sector on the head's own track comes out of the buffer if the
   whole sector has passed since the head reached that track. Any other transfer starts the first time that the
   sector comes under the head after the seek.
   */
  ghost predicate RightLatency(past: seq<Asked>, r: Asked, ticks: int)
  {
    var seek := SeekTicks(HeadAfter(past), r.sector);
    var ready := r.time + seek + RoundUp(r.time + seek);
    if !r.writing && seek == 0 && PassedBetween(r.sector, ReachedTrack(past), ready) then ticks == 500
    else FirstPass(r.time + ticks - 500, r.sector, r.time + seek)
  }

  /** The disk stands as the earlier requests left it. */
  ghost predicate StandsAfter(disk: Disk, past: seq<Asked>)
    reads disk
  {
    disk.Valid() && !disk.active && disk.lastSector == HeadAfter(past) && disk.arrival == ReachedTrack(past)
  }

  /** One request and its interrupt. */
  method ServeOne(disk: Disk, ghost past: seq<Asked>, r: Asked) returns (ticks: nat)
    requires StandsAfter(disk, past) && r.sector < NUM_SECTORS
    modifies disk
    ensures StandsAfter(disk, past + [r]) && 500 <= ticks <= 31999 && RightLatency(past, r, ticks)
  {
    hide FirstPass, PassedBetween, SeekTicks, RoundUp;
    assert (past + [r])[..|past|] == past;
    ticks := disk.Request(r.sector, r.writing, r.time);
    disk.CallBack();
  }

  /** The first requests took the right times, each after those before it. */
  ghost predicate RightTimes(requests: seq<Asked>, latencies: seq<nat>)
  {
    |latencies| <= |requests| && forall i :: 0 <= i < |latencies| ==>
      500 <= latencies[i] <= 31999 && RightLatency(requests[..i], requests[i], latencies[i])
  }

  lemma RightTimesNext(requests: seq<Asked>, latencies: seq<nat>, ticks: nat)
    requires RightTimes(requests, latencies) && |latencies| < |requests| && 500 <= ticks <= 31999
    requires RightLatency(requests[..|latencies|], requests[|latencies|], ticks)
    ensures RightTimes(requests, latencies + [ticks])
  {
    hide RightLatency;
  }

  lemma AtFirst(disk: Disk, requests: seq<Asked>)
    requires disk.Valid() && !disk.active && disk.lastSector == 0 && disk.arrival == 0
    ensures StandsAfter(disk, requests[..0]) && RightTimes(requests, [])
  {
  }

  /** Every request of every sequence takes the right time. */
  method Serve(requests: seq<Asked>) returns (latencies: seq<nat>)
    requires forall i :: 0 <= i < |requests| ==> requests[i].sector < NUM_SECTORS
    ensures |latencies| == |requests| && RightTimes(requests, latencies)
  {
    hide RightLatency, StandsAfter, RightTimes;
    var disk := new Disk();
    AtFirst(disk, requests);
    latencies := [];
    for n := 0 to |requests|
      invariant fresh(disk) && StandsAfter(disk, requests[..n]) && |latencies| == n && RightTimes(requests, latencies)
    {
      assert requests[..n] + [requests[n]] == requests[..n + 1];
      var ticks := ServeOne(disk, requests[..n], requests[n]);
      RightTimesNext(requests, latencies, ticks);
      latencies := latencies + [ticks];
    }
  }

  /** A read of sector 34 at once, and one of sector 32 when it is done: the second has to wait for most of a turn. */
  lemma NoStaleBuffer()
    ensures RightLatency([], Asked(34, false, 0), 1500)
    ensures !RightLatency([Asked(34, false, 0)], Asked(32, false, 1500), 500)
  {
    NextPass(34, 500);
    FirstPassFromBoundary(1000, 34, 500);
    var past := [Asked(34, false, 0)];
    assert past[..0] == [];
    assert ReachedTrack(past) == 500;
    forall t | 500 <= t && t + ROTATION_TIME <= 1500
      ensures !Starts(t, 32)
    {
    }
    assert !Starts(1500, 32);
  }
}
