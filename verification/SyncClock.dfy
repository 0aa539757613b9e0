/**
 The media sync clock: media time is anchored to system time and runs at the
 playback rate; it can be paused, resumed and sought, suppliers report anchors by
 priority, tracks bound its range, and synchronizers meet at a preroll barrier.

 Times are integers with -1 for "none", as in the code.  The `double` arithmetic
 is modelled over the reals, with the truncation of its conversion to integers.
 */
module SyncClock {
  import opened Sequences

  const NONE := -1
  const HST_MSECOND := 1_000_000

  datatype Synchronizer = Synchronizer(id: nat, priority: int)

  datatype Track = Track(id: int, start: int, end: int)

  datatype Clock = Clock(
    paused: bool, priority: int, anchorClock: int, anchorMedia: int, pausedMedia: int, pausedClock: int, rate: real,
    alreadyWait: bool, shouldPreroll: bool, seeking: bool, seekingMedia: int,
    tracks: seq<Track>, minStart: int, maxEnd: int, syncers: seq<Synchronizer>, prerolled: seq<Synchronizer>)

  function InitialClock(): Clock {
    Clock(true, NONE, NONE, NONE, NONE, NONE, 1.0, false, true, false, NONE, [], NONE, NONE, [], [])
  }

  // ------------------------------------------------------------------
  // Time arithmetic
  // ------------------------------------------------------------------

  /** Conversion of a `double` to an integer, which truncates. */
  function Trunc(x: real): int {
    if x >= 0.0 then x.Floor else -((-x).Floor)
  }

  predicate Stopped(rate: real) {
    -0.000000001 < rate < 0.000000001
  }

  function Advanced(anchorClock: int, now: int, anchorMedia: int, rate: real): real {
    anchorMedia as real + Scaled(now - anchorClock, rate)
  }

  function Scaled(ticks: int, rate: real): real {
    Times(ticks as real, rate)
  }

  function Times(x: real, y: real): real {
    x * y
  }

  /** `SimpleGetMediaTime`. */
  function MediaTime(anchorClock: int, now: int, anchorMedia: int, rate: real): int {
    if Stopped(rate) || anchorClock == NONE || now == NONE || anchorMedia == NONE then NONE
    else Trunc(Advanced(anchorClock, now, anchorMedia, rate))
  }

  /** The media time that the anchor gives, before clipping. */
  function Raw(c: Clock, now: int): int {
    MediaTime(c.anchorClock, now, c.anchorMedia, c.rate)
  }

  /** `ClipMediaTime`; "none" is clipped like any other number. */
  function Clip(c: Clock, t: int): int {
    var low := if c.minStart != NONE && t < c.minStart then c.minStart else t;
    if c.maxEnd != NONE && low > c.maxEnd then c.maxEnd else low
  }

  /** `GetMediaTimeNow`. */
  function Reading(c: Clock, now: int): int {
    if c.seeking then c.seekingMedia
    else if c.paused then (if c.pausedMedia == NONE then 0 else c.pausedMedia)
    else Clip(c, Raw(c, now))
  }

  // ------------------------------------------------------------------
  // Operations
  // ------------------------------------------------------------------

  function WithRate(c: Clock, rate: real, now: int): Clock {
    if rate < 0.0 then c
    else if c.anchorClock == NONE || c.anchorMedia == NONE then c.(rate := rate)
    else c.(anchorClock := now, anchorMedia := Raw(c, now), rate := rate)
  }

  function Paused(c: Clock, now: int): Clock {
    if c.paused then c
    else
      var media := if c.anchorMedia != NONE && c.anchorClock != NONE then Raw(c, now) else NONE;
      c.(paused := true, pausedClock := now, pausedMedia := Clip(c, media))
  }

  /** `SetAllSyncShouldWaitNoLock`: the next preroll round starts empty. */
  function ShouldWait(c: Clock): Clock {
    if c.shouldPreroll && !c.alreadyWait then c.(prerolled := [], alreadyWait := true) else c
  }

  function Resumed(c: Clock, now: int): Clock {
    var d := if c.paused && c.pausedMedia != NONE && c.alreadyWait then
               c.(anchorClock := now, anchorMedia := c.pausedMedia, pausedMedia := NONE, pausedClock := NONE)
             else c;
    if !d.paused then d else ShouldWait(d).(paused := false)
  }

  function AnchorReset(c: Clock): Clock {
    c.(pausedMedia := NONE, priority := NONE, anchorClock := NONE, anchorMedia := NONE)
  }

  predicate SeekAccepted(c: Clock, t: int) {
    c.minStart != NONE && c.maxEnd != NONE && c.minStart <= t <= c.maxEnd
  }

  function Sought(c: Clock, t: int): Clock {
    if SeekAccepted(c, t) then
      AnchorReset(ShouldWait(c.(seeking := true, seekingMedia := t, alreadyWait := false)))
    else c
  }

  function Abs(x: int): int {
    if x < 0 then -x else x
  }

  /** A report that `UpdateTimeAnchor` looks at: both times are given and the supplier is registered. */
  predicate Counts(c: Clock, clock: int, media: int, supplier: Synchronizer) {
    clock != NONE && media != NONE && supplier in c.syncers
  }

  function Anchored(c: Clock, clock: int, media: int, supplier: Synchronizer): Clock {
    var d := if Counts(c, clock, media, supplier) && supplier.priority >= c.priority then
               c.(priority := supplier.priority, anchorClock := clock, anchorMedia := media)
             else c;
    if clock != NONE && media != NONE && d.seeking && Abs(media - d.seekingMedia) / HST_MSECOND <= 50 then
      d.(seeking := false)
    else d
  }

  /** The index of the track's record, or the number of records. */
  function TrackIndex(tracks: seq<Track>, id: int): (i: nat)
    ensures i <= |tracks|
    ensures i < |tracks| ==> tracks[i].id == id
    ensures forall j :: 0 <= j < i ==> tracks[j].id != id
  {
    if tracks == [] then 0 else if tracks[0].id == id then 0 else 1 + TrackIndex(tracks[1..], id)
  }

  function StartSet(tracks: seq<Track>, id: int, t: int): seq<Track> {
    var i := TrackIndex(tracks, id);
    if i < |tracks| then tracks[i := tracks[i].(start := t)] else tracks + [Track(id, t, NONE)]
  }

  function EndSet(tracks: seq<Track>, id: int, t: int): seq<Track> {
    var i := TrackIndex(tracks, id);
    if i < |tracks| then tracks[i := tracks[i].(end := t)] else tracks + [Track(id, NONE, t)]
  }

  function WithStart(c: Clock, t: int, id: int): Clock {
    c.(tracks := StartSet(c.tracks, id, t), minStart := if c.minStart == NONE || t < c.minStart then t else c.minStart)
  }

  function WithEnd(c: Clock, t: int, id: int): Clock {
    c.(tracks := EndSet(c.tracks, id, t), maxEnd := if c.maxEnd == NONE || t > c.maxEnd then t else c.maxEnd)
  }

  function Added(c: Clock, s: Synchronizer): Clock {
    if s in c.syncers then c else c.(syncers := c.syncers + [s])
  }

  function SyncerIndex(syncers: seq<Synchronizer>, s: Synchronizer): (i: nat)
    ensures i <= |syncers|
    ensures i < |syncers| ==> syncers[i] == s
    ensures forall j :: 0 <= j < i ==> syncers[j] != s
  {
    if syncers == [] then 0 else if syncers[0] == s then 0 else 1 + SyncerIndex(syncers[1..], s)
  }

  function Removed(c: Clock, s: Synchronizer): Clock {
    var i := SyncerIndex(c.syncers, s);
    if i < |c.syncers| then c.(syncers := c.syncers[..i] + c.syncers[i + 1..]) else c
  }

  /** `ReportPrerolled`, with the synchronizers it notifies. */
  function Prerolled(c: Clock, s: Synchronizer): (Clock, seq<Synchronizer>) {
    if !c.shouldPreroll || s in c.prerolled then (c, [])
    else
      var all := c.prerolled + [s];
      if |all| == |c.syncers| then (c.(prerolled := []), all) else (c.(prerolled := all), [])
  }

  // ------------------------------------------------------------------
  // The manager object
  // ------------------------------------------------------------------

  /** The manager's fields and methods; `now` is the system clock at the call. */
  class MediaSyncManager {
    var clockPaused: bool
    var currentSyncerPriority: int
    var currentAnchorClockTime: int
    var currentAnchorMediaTime: int
    var pausedMediaTime: int
    var pausedClockTime: int
    var playRate: real
    var alreadySetSyncersShouldWait: bool
    var allSyncerShouldPrerolled: bool
    var isSeeking: bool
    var seekingMediaTime: int
    var trackMediaTimeRange: seq<Track>
    var minRangeStart: int
    var maxRangeEnd: int
    var syncers: seq<Synchronizer>
    var prerolledSyncers: seq<Synchronizer>

    ghost function View(): Clock
      reads this
    {
      Clock(clockPaused, currentSyncerPriority, currentAnchorClockTime, currentAnchorMediaTime, pausedMediaTime,
            pausedClockTime, playRate, alreadySetSyncersShouldWait, allSyncerShouldPrerolled, isSeeking, seekingMediaTime,
            trackMediaTimeRange, minRangeStart, maxRangeEnd, syncers, prerolledSyncers)
    }

    constructor ()
      ensures View() == InitialClock()
    {
      clockPaused, currentSyncerPriority, currentAnchorClockTime, currentAnchorMediaTime := true, NONE, NONE, NONE;
      pausedMediaTime, pausedClockTime, playRate := NONE, NONE, 1.0;
      alreadySetSyncersShouldWait, allSyncerShouldPrerolled, isSeeking, seekingMediaTime := false, true, false, NONE;
      trackMediaTimeRange, minRangeStart, maxRangeEnd, syncers, prerolledSyncers := [], NONE, NONE, [], [];
    }

    method SetPlaybackRate(rate: real, now: int) returns (ok: bool)
      modifies this
      ensures ok <==> rate >= 0.0
      ensures View() == WithRate(old(View()), rate, now)
    {
      if rate < 0.0 {
        return false;
      }
      if currentAnchorClockTime != NONE && currentAnchorMediaTime != NONE {
        var media := MediaTime(currentAnchorClockTime, now, currentAnchorMediaTime, playRate);
        SimpleUpdateTimeAnchor(now, media);
      }
      playRate := rate;
      return true;
    }

    method SimpleUpdateTimeAnchor(clockTime: int, mediaTime: int)
      modifies this`currentAnchorClockTime, this`currentAnchorMediaTime
      ensures View() == old(View()).(anchorClock := clockTime, anchorMedia := mediaTime)
    {
      currentAnchorMediaTime, currentAnchorClockTime := mediaTime, clockTime;
    }

    method ClipMediaTime(inTime: int) returns (ret: int)
      ensures ret == Clip(View(), inTime)
    {
      ret := inTime;
      if minRangeStart != NONE && ret < minRangeStart {
        ret := minRangeStart;
      }
      if maxRangeEnd != NONE && ret > maxRangeEnd {
        ret := maxRangeEnd;
      }
    }

    method Pause(now: int)
      modifies this
      ensures View() == Paused(old(View()), now)
    {
      if clockPaused {
        return;
      }
      pausedClockTime := now;
      if currentAnchorMediaTime != NONE && currentAnchorClockTime != NONE {
        pausedMediaTime := MediaTime(currentAnchorClockTime, now, currentAnchorMediaTime, playRate);
      } else {
        pausedMediaTime := NONE;
      }
      pausedMediaTime := ClipMediaTime(pausedMediaTime);
      clockPaused := true;
    }

    method SetAllSyncShouldWaitNoLock()
      modifies this`prerolledSyncers, this`alreadySetSyncersShouldWait
      ensures View() == ShouldWait(old(View()))
    {
      if allSyncerShouldPrerolled && !alreadySetSyncersShouldWait {
        prerolledSyncers := [];
        alreadySetSyncersShouldWait := true;
      }
    }

    /** Whether synchronizers are to wait for each other. */
    method WaitAllPrerolled(prerolled: bool)
      modifies this`allSyncerShouldPrerolled
      ensures View() == old(View()).(shouldPreroll := prerolled)
    {
      allSyncerShouldPrerolled := prerolled;
    }

    method Resume(now: int)
      modifies this
      ensures View() == Resumed(old(View()), now)
      ensures !clockPaused
      ensures old(clockPaused && pausedMediaTime != -1 && alreadySetSyncersShouldWait) ==>
        pausedMediaTime == -1 && pausedClockTime == -1 && currentAnchorMediaTime == old(pausedMediaTime)
    {
      if clockPaused && pausedMediaTime != NONE && alreadySetSyncersShouldWait {
        SimpleUpdateTimeAnchor(now, pausedMediaTime);
        pausedMediaTime, pausedClockTime := NONE, NONE;
      }
      if !clockPaused {
        return;
      }
      SetAllSyncShouldWaitNoLock();
      clockPaused := false;
    }

    method ResetTimeAnchorNoLock()
      modifies this
      ensures View() == AnchorReset(old(View()))
    {
      pausedMediaTime, currentSyncerPriority := NONE, NONE;
      SimpleUpdateTimeAnchor(NONE, NONE);
    }

    method SeekTo(mediaTime: int) returns (ok: bool)
      modifies this
      ensures ok <==> old(minRangeStart != NONE && maxRangeEnd != NONE && minRangeStart <= mediaTime <= maxRangeEnd)
      ensures View() == Sought(old(View()), mediaTime)
    {
      if minRangeStart == NONE || maxRangeEnd == NONE {
        return false;
      }
      if mediaTime > maxRangeEnd || mediaTime < minRangeStart {
        return false;
      }
      isSeeking, seekingMediaTime, alreadySetSyncersShouldWait := true, mediaTime, false;
      SetAllSyncShouldWaitNoLock();
      ResetTimeAnchorNoLock();
      return true;
    }

    /** Back to the state of a new manager. */
    method ResetAll()
      modifies this
      ensures View() == InitialClock()
    {
      clockPaused := true;
      ResetTimeAnchorNoLock();
      pausedClockTime, playRate := NONE, 1.0;
      alreadySetSyncersShouldWait, allSyncerShouldPrerolled := false, true;
      isSeeking, seekingMediaTime := false, NONE;
      trackMediaTimeRange := [];
      minRangeStart, maxRangeEnd := NONE, NONE;
      syncers, prerolledSyncers := [], [];
    }

    /** Returns whether the current frame is to be rendered. */
    method UpdateTimeAnchor(clockTime: int, mediaTime: int, supplier: Synchronizer) returns (render: bool)
      modifies this
      ensures View() == Anchored(old(View()), clockTime, mediaTime, supplier)
      ensures render <==> clockTime == NONE || mediaTime == NONE || !View().seeking
    {
      if clockTime == NONE || mediaTime == NONE {
        return true;
      }
      if supplier in syncers && supplier.priority >= currentSyncerPriority {
        currentSyncerPriority := supplier.priority;
        SimpleUpdateTimeAnchor(clockTime, mediaTime);
      }
      if isSeeking && Abs(mediaTime - seekingMediaTime) / HST_MSECOND <= 50 {
        isSeeking := false;
      }
      return !isSeeking;
    }

    method GetMediaTimeNow(now: int) returns (t: int)
      ensures t == Reading(View(), now)
    {
      if isSeeking {
        return seekingMediaTime;
      }
      if clockPaused {
        return if pausedMediaTime == NONE then 0 else pausedMediaTime;
      }
      t := ClipMediaTime(MediaTime(currentAnchorClockTime, now, currentAnchorMediaTime, playRate));
    }

    method GetClockTimeNow(now: int) returns (t: int)
      ensures t == ClockNow(View(), now)
    {
      t := if clockPaused then pausedClockTime else now;
    }

    /** When the media time is, was or will be reached: read at that moment, the anchor gives it to within one tick. */
    method GetClockTime(mediaTime: int) returns (t: int)
      ensures t == ClockTime(View().anchorClock, mediaTime, View().anchorMedia, View().rate)
      ensures Stopped(playRate) || currentAnchorClockTime == NONE || currentAnchorMediaTime == NONE ==> t == NONE
      ensures Positive(playRate) && mediaTime != NONE && t != NONE ==>
        mediaTime as real - playRate - 1.0 < Raw(View(), t) as real < mediaTime as real + playRate + 1.0
    {
      t := ClockTime(currentAnchorClockTime, mediaTime, currentAnchorMediaTime, playRate);
      if Positive(playRate) && mediaTime != NONE && t != NONE {
        ClockTimeNear(currentAnchorClockTime, mediaTime, currentAnchorMediaTime, playRate);
      }
    }

    method FindTrack(trackId: int) returns (i: nat)
      ensures i == TrackIndex(trackMediaTimeRange, trackId)
    {
      i := 0;
      while i < |trackMediaTimeRange| && trackMediaTimeRange[i].id != trackId
        invariant 0 <= i <= |trackMediaTimeRange|
        invariant forall j :: 0 <= j < i ==> trackMediaTimeRange[j].id != trackId
      {
        i := i + 1;
      }
    }

    method SetMediaTimeRangeStart(startMediaTime: int, trackId: int)
      modifies this`trackMediaTimeRange, this`minRangeStart
      ensures View() == WithStart(old(View()), startMediaTime, trackId)
    {
      var i := FindTrack(trackId);
      if i == |trackMediaTimeRange| {
        trackMediaTimeRange := trackMediaTimeRange + [Track(trackId, startMediaTime, NONE)];
      } else {
        trackMediaTimeRange := trackMediaTimeRange[i := trackMediaTimeRange[i].(start := startMediaTime)];
      }
      if minRangeStart == NONE || startMediaTime < minRangeStart {
        minRangeStart := startMediaTime;
      }
    }

    method SetMediaTimeRangeEnd(endMediaTime: int, trackId: int)
      modifies this`trackMediaTimeRange, this`maxRangeEnd
      ensures View() == WithEnd(old(View()), endMediaTime, trackId)
    {
      var i := FindTrack(trackId);
      if i == |trackMediaTimeRange| {
        trackMediaTimeRange := trackMediaTimeRange + [Track(trackId, NONE, endMediaTime)];
      } else {
        trackMediaTimeRange := trackMediaTimeRange[i := trackMediaTimeRange[i].(end := endMediaTime)];
      }
      if maxRangeEnd == NONE || endMediaTime > maxRangeEnd {
        maxRangeEnd := endMediaTime;
      }
    }

    method AddSynchronizer(syncer: Synchronizer)
      modifies this`syncers
      ensures View() == Added(old(View()), syncer)
    {
      if syncer !in syncers {
        syncers := syncers + [syncer];
      }
    }

    method RemoveSynchronizer(syncer: Synchronizer)
      modifies this`syncers
      ensures View() == Removed(old(View()), syncer)
    {
      var i := 0;
      while i < |syncers| && syncers[i] != syncer
        invariant 0 <= i <= |syncers|
        invariant forall j :: 0 <= j < i ==> syncers[j] != syncer
      {
        i := i + 1;
      }
      if i < |syncers| {
        syncers := syncers[..i] + syncers[i + 1..];
      }
    }

    /** Returns the synchronizers that are notified, in the order in which they had reported. */
    method ReportPrerolled(supplier: Synchronizer) returns (notified: seq<Synchronizer>)
      modifies this`prerolledSyncers
      ensures (View(), notified) == Prerolled(old(View()), supplier)
    {
      notified := [];
      if !allSyncerShouldPrerolled || supplier in prerolledSyncers {
        return;
      }
      prerolledSyncers := prerolledSyncers + [supplier];
      if |prerolledSyncers| == |syncers| {
        notified := prerolledSyncers;
        prerolledSyncers := [];
      }
    }
  }

  // ------------------------------------------------------------------
  // Media time never runs backwards
  // ------------------------------------------------------------------

  lemma TruncMonotone(x: real, y: real)
    requires x <= y
    ensures Trunc(x) <= Trunc(y)
  {
  }

  lemma TruncInt(n: int)
    ensures Trunc(n as real) == n
  {
  }

  lemma MulMonotone(x: real, y: real, r: real)
    requires x <= y && r >= 0.0
    ensures Times(x, r) <= Times(y, r)
  {
    assert (y - x) * r >= 0.0;
  }

  lemma AdvancedMonotone(anchorClock: int, now: int, later: int, anchorMedia: int, rate: real)
    requires now <= later && rate >= 0.0
    ensures Advanced(anchorClock, now, anchorMedia, rate) <= Advanced(anchorClock, later, anchorMedia, rate)
  {
    hide Times;
    MulMonotone((now - anchorClock) as real, (later - anchorClock) as real, rate);
  }

  /** A rate that the code does not take for zero. */
  predicate Positive(rate: real) {
    rate >= 0.000000001
  }

  lemma RawMonotone(c: Clock, now: int, later: int)
    requires Positive(c.rate) && now != NONE && later != NONE && now <= later
    ensures Raw(c, now) <= Raw(c, later)
  {
    hide Trunc, Advanced;
    AdvancedMonotone(c.anchorClock, now, later, c.anchorMedia, c.rate);
    TruncMonotone(Advanced(c.anchorClock, now, c.anchorMedia, c.rate), Advanced(c.anchorClock, later, c.anchorMedia, c.rate));
  }

  lemma ClipFacts(c: Clock, t: int, u: int)
    ensures t <= u ==> Clip(c, t) <= Clip(c, u)
    ensures Clip(c, Clip(c, t)) == Clip(c, t)
  {
  }

  /** The anchor set here and now gives its own media time. */
  lemma FreshAnchor(c: Clock, now: int)
    requires c.anchorClock == now && now != NONE && c.anchorMedia != NONE && !Stopped(c.rate)
    ensures Raw(c, now) == c.anchorMedia
  {
    assert (now - c.anchorClock) as real * c.rate == 0.0;
    TruncInt(c.anchorMedia);
  }

  lemma RateKeepsRaw(c: Clock, rate: real, now: int)
    requires !Stopped(rate)
    ensures Raw(WithRate(c, rate, now), now) == Raw(c, now)
  {
    hide Trunc, Advanced;
    var d := WithRate(c, rate, now);
    if rate >= 0.0 && c.anchorClock != NONE && c.anchorMedia != NONE && Raw(c, now) != NONE {
      FreshAnchor(d, now);
    }
  }

  /** A change of the rate is continuous on every clock: the media time shown does not jump. */
  lemma RateContinuous(c: Clock, rate: real, now: int)
    requires !Stopped(rate)
    ensures Reading(WithRate(c, rate, now), now) == Reading(c, now)
  {
    hide Raw, Trunc, Advanced;
    RateKeepsRaw(c, rate, now);
  }

  /** A rate of zero is accepted, and a running clock then shows "none", clipped: continuous only if it showed that before. */
  lemma RateContinuousExact(c: Clock, rate: real, now: int)
    ensures Reading(WithRate(c, rate, now), now) == Reading(c, now) <==>
      (rate < 0.0 || !Stopped(rate) || c.seeking || c.paused || Reading(c, now) == Clip(c, NONE))
  {
    hide Trunc, Advanced;
    if !Stopped(rate) {
      RateContinuous(c, rate, now);
    }
  }

  /** Truncation gives -1 between -2, excluded, and -1. */
  lemma TruncNone(x: real)
    ensures Trunc(x) == NONE <==> -2.0 < x <= -1.0
  {
  }

  /**
   A media time of -1 is taken for "none".  An anchored clock is still anchored
   after a change of rate exactly when the time it has reached is not -1; if it
   is, the clock gives "none" at every later moment.
   */
  lemma SentinelExact(c: Clock, rate: real, now: int, later: int)
    requires c.anchorClock != NONE && c.anchorMedia != NONE && rate >= 0.0
    requires !Stopped(c.rate) && now != NONE
    ensures
      var d := WithRate(c, rate, now);
      var lost := -2.0 < Advanced(c.anchorClock, now, c.anchorMedia, c.rate) <= -1.0;
      && (lost <==> Raw(c, now) == NONE)
      && (d.anchorClock != NONE && d.anchorMedia != NONE <==> !lost)
      && (lost ==> Raw(d, later) == NONE)
  {
    hide Trunc, Advanced;
    TruncNone(Advanced(c.anchorClock, now, c.anchorMedia, c.rate));
  }

  /** A clock anchored a little ahead, at the first frame: a change of rate at media time -1 stops it. */
  lemma SentinelStopsClock()
    ensures
      var c := InitialClock().(paused := false, anchorClock := 10, anchorMedia := 4);
      var d := WithRate(c, 1.0, 5);
      Reading(c, 5) == -1 && Reading(c, 100) == 94 && Reading(d, 100) == -1
  {
    assert (5 - 10) as real * 1.0 == -5.0 && (100 - 10) as real * 1.0 == 90.0;
  }

  /** After a pause the time shown is that of the pause at any later moment, exactly unless a running clock showed "none". */
  lemma PauseFreezes(c: Clock, now: int, later: int)
    ensures Reading(Paused(c, now), later) ==
      if !c.seeking && !c.paused && Reading(c, now) == NONE then 0 else Reading(c, now)
    ensures Reading(Paused(c, now), later) == Reading(c, now) <==>
      (c.seeking || c.paused || Reading(c, now) != NONE)
  {
  }

  /**
   Resuming goes on from the paused time when there is one and the synchronizers
   had been told to wait; otherwise the clock shows the time that the old anchor
   has reached meanwhile, so the pause is skipped over.
   */
  lemma ResumeReading(c: Clock, now: int)
    requires !c.seeking && !Stopped(c.rate) && now != NONE
    ensures Reading(Resumed(c, now), now) ==
      Clip(c, if c.paused && c.pausedMedia != NONE && c.alreadyWait then c.pausedMedia else Raw(c, now))
  {
    if c.paused && c.pausedMedia != NONE && c.alreadyWait {
      FreshAnchor(Resumed(c, now), now);
    }
  }

  /**
   A clock that goes, anchored or not: no seek, a positive rate, and the system
   clock known.  While paused at a time, that time is one the anchor has reached.
   */
  ghost predicate Going(c: Clock, now: int) {
    && !c.seeking && Positive(c.rate) && now != NONE
    && (c.paused && c.pausedMedia != NONE ==>
          c.pausedMedia <= Clip(c, Raw(c, now)) && Clip(c, c.pausedMedia) == c.pausedMedia)
  }

  lemma GoingLater(c: Clock, now: int, later: int)
    requires Going(c, now) && now <= later && later != NONE
    ensures Going(c, later) && Reading(c, now) <= Reading(c, later)
  {
    hide Raw;
    RawMonotone(c, now, later);
    ClipFacts(c, Raw(c, now), Raw(c, later));
  }

  /** Whatever a supplier reports, with any latency, a running clock goes on from there. */
  lemma ReportGoes(c: Clock, now: int, clock: int, media: int, supplier: Synchronizer)
    requires Going(c, now) && !c.paused
    ensures Going(Anchored(c, clock, media, supplier), now)
  {
  }

  datatype Event = Rate(rate: real) | Pause | Resume | Read

  function Applied(c: Clock, e: Event, now: int): Clock {
    match e
    case Rate(r) => WithRate(c, r, now)
    case Pause => Paused(c, now)
    case Resume => Resumed(c, now)
    case Read => c
  }

  /**
   A clock paused at "none" shows 0.  Resuming it shows what the anchor gives, and
   that goes back if it is still negative.
   */
  predicate FallsBack(c: Clock, e: Event, now: int) {
    e == Resume && c.paused && c.pausedMedia == NONE && Clip(c, Raw(c, now)) < 0
  }

  /** Every event keeps the clock going, and moves the time shown back exactly when it falls back to a negative time. */
  lemma EventExact(c: Clock, e: Event, now: int)
    requires Going(c, now) && (e.Rate? ==> !Stopped(e.rate))
    ensures Going(Applied(c, e, now), now)
    ensures Reading(c, now) <= Reading(Applied(c, e, now), now) <==> !FallsBack(c, e, now)
  {
    hide Trunc, Advanced;
    match e
    case Rate(r) => RateKeepsRaw(c, r, now);
    case Pause => ClipFacts(c, Raw(c, now), Raw(c, now));
    case Resume => ResumeReading(c, now);
    case Read =>
  }

  /** A run without seek, reset or supplier reports: events at times that do not go back. */
  ghost predicate ClockRun(clocks: seq<Clock>, events: seq<Event>, times: seq<int>) {
    && |clocks| == |events| == |times| && |clocks| > 0
    && Going(clocks[0], times[0])
    && (forall i :: 0 <= i < |events| && events[i].Rate? ==> !Stopped(events[i].rate))
    && (forall i :: 0 <= i < |times| ==> times[i] != NONE)
    && forall i :: 0 <= i < |clocks| - 1 ==>
         clocks[i + 1] == Applied(clocks[i], events[i], times[i]) && times[i] <= times[i + 1]
  }

  lemma {:induction false} RunGoes(clocks: seq<Clock>, events: seq<Event>, times: seq<int>, i: nat)
    requires ClockRun(clocks, events, times) && i < |clocks|
    ensures Going(clocks[i], times[i])
  {
    hide Going, Reading, Applied, FallsBack;
    if i > 0 {
      RunGoes(clocks, events, times, i - 1);
      EventExact(clocks[i - 1], events[i - 1], times[i - 1]);
      GoingLater(clocks[i], times[i - 1], times[i]);
    }
  }

  /** From any point of a run on, the media time shown does not decrease as long as no resume falls back. */
  lemma {:induction false} TimeNeverGoesBack(clocks: seq<Clock>, events: seq<Event>, times: seq<int>, i: nat, j: nat)
    requires ClockRun(clocks, events, times) && i <= j < |clocks|
    requires forall k :: i <= k < j ==> !FallsBack(clocks[k], events[k], times[k])
    ensures Reading(clocks[i], times[i]) <= Reading(clocks[j], times[j])
    decreases j
  {
    hide Going, Reading, Applied, FallsBack;
    if i < j {
      TimeNeverGoesBack(clocks, events, times, i, j - 1);
      RunGoes(clocks, events, times, j - 1);
      EventExact(clocks[j - 1], events[j - 1], times[j - 1]);
      GoingLater(clocks[j], times[j - 1], times[j]);
    }
  }

  /** What a run shows, before and after its events, never decreases. */
  ghost predicate NeverBack(clocks: seq<Clock>, events: seq<Event>, times: seq<int>)
    requires |clocks| == |events| == |times|
  {
    forall i, j :: 0 <= i <= j < |clocks| ==>
      && Reading(clocks[i], times[i]) <= Reading(clocks[j], times[j])
      && Reading(clocks[i], times[i]) <= Reading(Applied(clocks[j], events[j], times[j]), times[j])
  }

  /** Over every run, the media time shown never decreases if and only if no resume falls back. */
  lemma NeverBackExact(clocks: seq<Clock>, events: seq<Event>, times: seq<int>)
    requires ClockRun(clocks, events, times)
    ensures NeverBack(clocks, events, times) <==>
      forall k :: 0 <= k < |clocks| ==> !FallsBack(clocks[k], events[k], times[k])
  {
    hide Going, Reading, Applied, FallsBack;
    forall k | 0 <= k < |clocks|
      ensures Reading(clocks[k], times[k]) <= Reading(Applied(clocks[k], events[k], times[k]), times[k]) <==>
        !FallsBack(clocks[k], events[k], times[k])
    {
      RunGoes(clocks, events, times, k);
      EventExact(clocks[k], events[k], times[k]);
    }
    if forall k :: 0 <= k < |clocks| ==> !FallsBack(clocks[k], events[k], times[k]) {
      forall i, j | 0 <= i <= j < |clocks|
        ensures Reading(clocks[i], times[i]) <= Reading(clocks[j], times[j])
      {
        TimeNeverGoesBack(clocks, events, times, i, j);
      }
    }
  }

  /** The event pauses a running clock that shows "none". */
  predicate PausesAtNone(c: Clock, e: Event, now: int) {
    e == Pause && !c.paused && Reading(c, now) == NONE
  }

  lemma StaysTimed(c: Clock, e: Event, now: int)
    requires Going(c, now) && !PausesAtNone(c, e, now)
    requires c.paused ==> c.pausedMedia != NONE
    ensures Applied(c, e, now).paused ==> Applied(c, e, now).pausedMedia != NONE
  {
  }

  /** A run that never pauses while "none" is shown has no resume that falls back, so its time never goes back. */
  lemma {:induction false} TimedPausesSuffice(clocks: seq<Clock>, events: seq<Event>, times: seq<int>, i: nat)
    requires ClockRun(clocks, events, times) && i < |clocks|
    requires clocks[0].paused ==> clocks[0].pausedMedia != NONE
    requires forall k :: 0 <= k < |clocks| ==> !PausesAtNone(clocks[k], events[k], times[k])
    ensures clocks[i].paused ==> clocks[i].pausedMedia != NONE
    ensures !FallsBack(clocks[i], events[i], times[i])
  {
    hide Going, Applied, PausesAtNone;
    if i > 0 {
      TimedPausesSuffice(clocks, events, times, i - 1);
      RunGoes(clocks, events, times, i - 1);
      StaysTimed(clocks[i - 1], events[i - 1], times[i - 1]);
    }
  }

  /**
   Pause and resume move the time shown back exactly when "none" was shown at the
   pause and the clock would show a negative time at the resume.
   */
  lemma PauseResumeExact(c: Clock, now: int, later: int)
    requires Going(c, now) && !c.paused && now <= later && later != NONE
    ensures
      var p := Paused(c, now);
      Reading(p, later) <= Reading(Resumed(p, later), later) <==> (Reading(c, now) != NONE || Reading(c, later) >= 0)
  {
    hide Trunc, Advanced;
    GoingLater(c, now, later);
    ClipFacts(c, Raw(c, now), Raw(c, later));
    ResumeReading(Paused(c, now), later);
  }

  /** Play, pause and play again before the first anchor: the time shown goes from 0 back to -1. */
  lemma EarlyPauseFallsBack()
    ensures
      var running := Resumed(InitialClock(), 5);
      var held := Paused(running, 6);
      Reading(running, 6) == -1 && Reading(held, 7) == 0 && Reading(Resumed(held, 7), 7) == -1
  {
  }

  /**
   From a pause to the next resume the time shown stands still, and with the
   synchronizers told to wait the clock goes on from there, if it was paused at a time.
   */
  lemma {:induction false} FrozenWhilePaused(clocks: seq<Clock>, events: seq<Event>, times: seq<int>, i: nat, j: nat)
    requires ClockRun(clocks, events, times) && i <= j < |clocks|
    requires clocks[i].paused && forall k :: i <= k < j ==> events[k] != Resume
    ensures clocks[j].paused && clocks[j].alreadyWait == clocks[i].alreadyWait
    ensures clocks[j].pausedMedia == clocks[i].pausedMedia
    ensures Reading(clocks[j], times[j]) == Reading(clocks[i], times[i])
    ensures clocks[i].alreadyWait && clocks[i].pausedMedia != NONE ==>
      Reading(Resumed(clocks[j], times[j]), times[j]) == Reading(clocks[i], times[i])
    decreases j
  {
    hide Raw, Clip;
    RunGoes(clocks, events, times, j);
    ResumeReading(clocks[j], times[j]);
    if i < j {
      FrozenWhilePaused(clocks, events, times, i, j - 1);
      RunGoes(clocks, events, times, j - 1);
      StaysPaused(clocks[j - 1], events[j - 1], times[j - 1]);
    } else {
      RunGoes(clocks, events, times, i);
    }
  }

  lemma StaysPaused(c: Clock, e: Event, now: int)
    requires c.paused && e != Resume && !c.seeking
    ensures
      var d := Applied(c, e, now);
      d.paused && !d.seeking && d.pausedMedia == c.pausedMedia && d.alreadyWait == c.alreadyWait
  {
  }

  // ------------------------------------------------------------------
  // What the clock shows, in plain numbers
  // ------------------------------------------------------------------

  /** Truncation goes towards zero. */
  lemma TruncExact(x: real)
    ensures x >= 0.0 ==> Trunc(x) as real <= x < Trunc(x) as real + 1.0
    ensures x <= 0.0 ==> Trunc(x) as real - 1.0 < x <= Trunc(x) as real
  {
  }

  /** A time that the known ends of the range allow. */
  predicate Allowed(c: Clock, t: int) {
    (c.minStart == -1 || c.minStart <= t) && (c.maxEnd == -1 || t <= c.maxEnd)
  }

  /** Clipping takes the nearest time that is allowed; of ends in the wrong order, the upper one. */
  lemma ClipNearest(c: Clock, t: int, u: int)
    ensures Allowed(c, t) ==> Clip(c, t) == t
    ensures Allowed(c, u) ==> Allowed(c, Clip(c, t))
    ensures Allowed(c, u) && t <= u ==> t <= Clip(c, t) <= u
    ensures Allowed(c, u) && t >= u ==> t >= Clip(c, t) >= u
    ensures c.minStart != -1 && c.maxEnd != -1 && c.minStart > c.maxEnd ==> Clip(c, t) == c.maxEnd
  {
  }

  /** At a rate of zero, and without an anchor or a system clock, the anchor gives "none". */
  lemma NoMediaTime(c: Clock, now: int)
    requires -0.000000001 < c.rate < 0.000000001 || c.anchorClock == -1 || c.anchorMedia == -1 || now == -1
    ensures Raw(c, now) == -1
  {
  }

  /** The media time reached from `media` in so many ticks at the rate. */
  function Reached(media: int, ticks: int, rate: real): int {
    Trunc(media as real + ticks as real * rate)
  }

  lemma ReachedIsAdvanced(anchorClock: int, now: int, anchorMedia: int, rate: real)
    ensures Trunc(Advanced(anchorClock, now, anchorMedia, rate)) == Reached(anchorMedia, now - anchorClock, rate)
  {
    hide Trunc;
  }

  /** With no tick gone nothing is added, and at normal speed a tick is a tick. */
  lemma ReachedExact(media: int, ticks: int, rate: real)
    ensures Reached(media, 0, rate) == media
    ensures Reached(media, ticks, 1.0) == media + ticks
  {
    assert 0 as real * rate == 0.0 && ticks as real * 1.0 == ticks as real;
    TruncInt(media);
    TruncInt(media + ticks);
  }

  /**
   A report that counts, of at least the current priority, puts the anchor at the
   clock and media time reported: from there media time advances at the rate.
   */
  lemma ReportSetsAnchor(c: Clock, clock: int, media: int, s: Synchronizer, now: int)
    requires clock != -1 && media != -1 && s in c.syncers && s.priority >= c.priority
    requires c.rate >= 0.000000001 && now != -1
    ensures
      var d := Anchored(c, clock, media, s);
      var t := Reached(media, now - clock, c.rate);
      && Raw(d, now) == t && (now == clock ==> t == media)
      && (!d.seeking && !d.paused ==> Reading(d, now) == Clip(c, t))
  {
    hide Trunc, Advanced, Reached;
    ReachedIsAdvanced(clock, now, media, c.rate);
    ReachedExact(media, 0, c.rate);
  }

  /** Any other report leaves the media time of every moment as it was. */
  lemma ReportIgnored(c: Clock, clock: int, media: int, s: Synchronizer, now: int)
    requires clock == -1 || media == -1 || s !in c.syncers || s.priority < c.priority
    ensures Raw(Anchored(c, clock, media, s), now) == Raw(c, now)
    ensures !c.seeking ==> Anchored(c, clock, media, s) == c
  {
  }

  /** A seek ends with a report of both times less than 51 ms away from its target, and with no other. */
  lemma ReportEndsSeek(c: Clock, clock: int, media: int, s: Synchronizer)
    ensures Anchored(c, clock, media, s).seeking <==>
      c.seeking && (clock == -1 || media == -1 || media - c.seekingMedia >= 51_000_000 || c.seekingMedia - media >= 51_000_000)
    ensures Anchored(c, clock, media, s).seekingMedia == c.seekingMedia
  {
  }

  /** After a change of rate, an anchored clock goes on from the time it had reached at the rate set. */
  lemma RateSetsSpeed(c: Clock, rate: real, now: int, later: int)
    requires c.anchorClock != -1 && c.anchorMedia != -1 && Raw(c, now) != -1
    requires rate >= 0.000000001 && later != -1
    ensures
      var d := WithRate(c, rate, now);
      var t := Reached(Raw(c, now), later - now, rate);
      && Raw(d, later) == t
      && (!c.seeking && !c.paused ==> Reading(d, later) == Clip(c, t))
  {
    hide Trunc, Advanced, Reached;
    ReachedIsAdvanced(now, later, Raw(c, now), rate);
  }

  /** Anchored or not, from the next report that counts the clock runs at the rate set last. */
  lemma RateOfNextReport(c: Clock, rate: real, now: int, clock: int, media: int, s: Synchronizer, later: int)
    requires clock != -1 && media != -1 && s in c.syncers && s.priority >= c.priority
    requires rate >= 0.000000001 && later != -1
    ensures Raw(Anchored(WithRate(c, rate, now), clock, media, s), later) ==
      Reached(media, later - clock, rate)
  {
    hide Raw, Anchored, WithRate, Trunc, Reached;
    RateIsSet(c, rate, now);
    ReportSetsAnchor(WithRate(c, rate, now), clock, media, s, later);
  }

  lemma RateIsSet(c: Clock, rate: real, now: int)
    requires rate >= 0.0
    ensures
      var d := WithRate(c, rate, now);
      d.rate == rate && d.syncers == c.syncers && d.priority == c.priority
  {
  }

  /** A negative rate is refused: no reading changes, at any moment. */
  lemma RateRefused(c: Clock, rate: real, now: int, later: int)
    requires rate < 0.0
    ensures Raw(WithRate(c, rate, now), later) == Raw(c, later)
    ensures Reading(WithRate(c, rate, now), later) == Reading(c, later)
  {
  }

  /** What a resumed clock shows at every later moment. */
  lemma ResumeRuns(c: Clock, now: int, later: int)
    requires !c.seeking && c.rate >= 0.000000001 && now != -1 && later != -1
    ensures Reading(Resumed(c, now), later) ==
      Clip(c, if c.paused && c.pausedMedia != -1 && c.alreadyWait
              then Reached(c.pausedMedia, later - now, c.rate) else Raw(c, later))
  {
    hide Raw, Clip, Trunc, Reading, Resumed, Advanced, Reached;
    ResumeAdvances(c, now, later);
    ReachedIsAdvanced(now, later, c.pausedMedia, c.rate);
  }

  lemma ResumeAdvances(c: Clock, now: int, later: int)
    requires !c.seeking && c.rate >= 0.000000001 && now != -1 && later != -1
    ensures Reading(Resumed(c, now), later) ==
      Clip(c, if c.paused && c.pausedMedia != -1 && c.alreadyWait
              then Trunc(Advanced(now, later, c.pausedMedia, c.rate)) else Raw(c, later))
  {
    hide Trunc, Advanced;
  }

  /** An accepted seek shows its target, and forgets the anchor, the paused time and the priority; a refused one does nothing. */
  lemma SeekShows(c: Clock, t: int, u: int, now: int)
    ensures
      var d := Sought(c, t);
      if c.minStart != -1 && c.maxEnd != -1 && c.minStart <= t <= c.maxEnd then
        && Reading(d, now) == t && Raw(d, now) == -1 && d.priority == -1
        && Raw(Resumed(d, u), now) == -1 && Reading(Resumed(d, u), now) == t
        && d.paused == c.paused && d.rate == c.rate
      else d == c
  {
  }

  /** The system clock as the manager shows it: that of the pause while paused. */
  function ClockNow(c: Clock, now: int): int {
    if c.paused then c.pausedClock else now
  }

  /** A pause holds the system clock shown, and playing lets it go again. */
  lemma ClockNowHeld(c: Clock, now: int, later: int)
    ensures !c.paused ==> ClockNow(Paused(c, now), later) == now && ClockNow(c, later) == later
    ensures c.paused ==> ClockNow(Paused(c, now), later) == ClockNow(c, later)
    ensures ClockNow(Resumed(c, now), later) == later
  {
  }

  /** A new clock is paused at 0; played and anchored, it runs at normal speed. */
  lemma FirstAnchor(s: Synchronizer, start: int, clock: int, media: int, now: int)
    requires clock != -1 && media != -1 && s.priority >= -1 && now != -1
    ensures Reading(InitialClock(), now) == 0
    ensures Reading(Anchored(Resumed(Added(InitialClock(), s), start), clock, media, s), now) == media + (now - clock)
  {
    hide Reached;
    var c := Resumed(Added(InitialClock(), s), start);
    ReportSetsAnchor(c, clock, media, s, now);
    ReachedExact(media, now - clock, 1.0);
  }

  // ------------------------------------------------------------------
  // The clock time of a media time
  // ------------------------------------------------------------------

  /** `SimpleGetClockTime`. */
  function ClockTime(anchorClock: int, media: int, anchorMedia: int, rate: real): int {
    if Stopped(rate) || anchorClock == NONE || media == NONE || anchorMedia == NONE then NONE
    else Trunc(anchorClock as real + (media - anchorMedia) as real / rate)
  }

  lemma TruncBounds(x: real)
    requires x >= 0.0
    ensures Trunc(x) as real <= x < Trunc(x) as real + 1.0
  {
  }

  lemma DivMul(x: real, r: real)
    requires r > 0.0
    ensures Times(x / r, r) == x
  {
  }

  /** At the clock time given for a media time from the anchor on, the media time is reached to within one tick. */
  lemma ClockTimeInverts(anchorClock: int, media: int, anchorMedia: int, rate: real)
    requires rate >= 0.000000001 && anchorClock >= 0 && media >= anchorMedia >= 0
    ensures
      var t := ClockTime(anchorClock, media, anchorMedia, rate);
      t >= anchorClock && media as real - rate - 1.0 < MediaTime(anchorClock, t, anchorMedia, rate) as real <= media as real
  {
    hide Trunc, Advanced, Times;
    var d := (media - anchorMedia) as real / rate;
    DivMul((media - anchorMedia) as real, rate);
    assert d >= 0.0;
    var x := anchorClock as real + d;
    TruncBounds(x);
    TruncInt(anchorClock);
    TruncMonotone(anchorClock as real, x);
    var t := ClockTime(anchorClock, media, anchorMedia, rate);
    assert t == Trunc(x);
    AdvancedBounds(anchorClock, t, anchorMedia, rate, media, d);
    var y := Advanced(anchorClock, t, anchorMedia, rate);
    TruncBounds(y);
  }

  lemma TruncNear(x: real)
    ensures x - 1.0 < Trunc(x) as real < x + 1.0
  {
  }

  lemma ScaledNear(ticks: int, d: real, rate: real)
    requires d - 1.0 < ticks as real < d + 1.0 && rate > 0.0
    ensures Times(d, rate) - rate < Scaled(ticks, rate) < Times(d, rate) + rate
  {
    hide Times;
    MulLess(ticks as real, d + 1.0, rate);
    MulLess(d, ticks as real + 1.0, rate);
    OneMoreTick(d, rate);
    OneMoreTick(ticks as real, rate);
  }

  /** For any media time, before the anchor too: at the clock time given for it, it is the one reached, to within one tick. */
  lemma ClockTimeNear(anchorClock: int, media: int, anchorMedia: int, rate: real)
    requires Positive(rate) && media != NONE && ClockTime(anchorClock, media, anchorMedia, rate) != NONE
    ensures
      var t := ClockTime(anchorClock, media, anchorMedia, rate);
      media as real - rate - 1.0 < MediaTime(anchorClock, t, anchorMedia, rate) as real < media as real + rate + 1.0
  {
    hide Trunc, Times, Scaled;
    var d := (media - anchorMedia) as real / rate;
    DivMul((media - anchorMedia) as real, rate);
    TruncNear(anchorClock as real + d);
    var t := ClockTime(anchorClock, media, anchorMedia, rate);
    ScaledNear(t - anchorClock, d, rate);
    TruncNear(Advanced(anchorClock, t, anchorMedia, rate));
  }

  lemma TickBounds(e: real, d: real, rate: real)
    requires 0.0 <= e <= d < e + 1.0 && rate > 0.0
    ensures 0.0 <= Times(e, rate) <= Times(d, rate) < Times(e, rate) + rate
  {
    hide Times;
    MulMonotone(0.0, e, rate);
    MulMonotone(e, d, rate);
    MulLess(d, e + 1.0, rate);
    OneMoreTick(e, rate);
  }

  lemma MulLess(x: real, y: real, r: real)
    requires x < y && r > 0.0
    ensures Times(x, r) < Times(y, r)
  {
    assert (y - x) * r > 0.0;
  }

  lemma OneMoreTick(e: real, rate: real)
    ensures Times(0.0, rate) == 0.0 && Times(e + 1.0, rate) == Times(e, rate) + rate
  {
  }

  lemma ScaledBounds(ticks: int, d: real, rate: real, total: real)
    requires 0.0 <= ticks as real <= d < ticks as real + 1.0 && rate > 0.0 && Times(d, rate) == total
    ensures 0.0 <= Scaled(ticks, rate) <= total < Scaled(ticks, rate) + rate
  {
    hide Times;
    TickBounds(ticks as real, d, rate);
  }

  lemma AdvancedBounds(anchorClock: int, t: int, anchorMedia: int, rate: real, media: int, d: real)
    requires rate > 0.0 && Times(d, rate) == (media - anchorMedia) as real && anchorMedia >= 0 && t >= anchorClock
    requires t as real <= anchorClock as real + d < t as real + 1.0
    ensures media as real - rate < Advanced(anchorClock, t, anchorMedia, rate) <= media as real
    ensures Advanced(anchorClock, t, anchorMedia, rate) >= 0.0
  {
    hide Scaled, Times;
    ScaledBounds(t - anchorClock, d, rate, (media - anchorMedia) as real);
  }

  // ------------------------------------------------------------------
  // Range and priority, over every run
  // ------------------------------------------------------------------

  datatype Op =
    | SetRate(rate: real, now: int) | DoPause(now: int) | DoResume(now: int) | Seek(to: int) | Reset
    | Report(clock: int, media: int, supplier: Synchronizer)
    | RangeStart(t: int, track: int) | RangeEnd(t: int, track: int)
    | Add(s: Synchronizer) | Remove(s: Synchronizer) | Preroll(s: Synchronizer) | WaitPreroll(wait: bool)

  function Do(c: Clock, op: Op): Clock {
    match op
    case SetRate(r, now) => WithRate(c, r, now)
    case DoPause(now) => Paused(c, now)
    case DoResume(now) => Resumed(c, now)
    case Seek(t) => Sought(c, t)
    case Reset => InitialClock()
    case Report(clock, media, s) => Anchored(c, clock, media, s)
    case RangeStart(t, id) => WithStart(c, t, id)
    case RangeEnd(t, id) => WithEnd(c, t, id)
    case Add(s) => Added(c, s)
    case Remove(s) => Removed(c, s)
    case Preroll(s) => Prerolled(c, s).0
    case WaitPreroll(b) => c.(shouldPreroll := b)
  }

  function DoAll(c: Clock, ops: seq<Op>): Clock {
    if ops == [] then c else Do(DoAll(c, ops[..|ops| - 1]), ops[|ops| - 1])
  }

  /** The overall range covers what every track recorded, and the position sought. */
  ghost predicate RangeCovers(c: Clock) {
    && StartsCovered(c) && EndsCovered(c)
    && (c.seeking ==> SeekAccepted(c, c.seekingMedia))
  }

  ghost predicate StartsCovered(c: Clock) {
    forall i :: 0 <= i < |c.tracks| && c.tracks[i].start != NONE ==> c.minStart != NONE && c.minStart <= c.tracks[i].start
  }

  ghost predicate EndsCovered(c: Clock) {
    forall i :: 0 <= i < |c.tracks| && c.tracks[i].end != NONE ==> c.maxEnd != NONE && c.tracks[i].end <= c.maxEnd
  }

  /** A range bound that is set is a time, not "none". */
  predicate GivesTime(op: Op) {
    op.RangeStart? || op.RangeEnd? ==> op.t != NONE
  }

  lemma StartCovers(c: Clock, t: int, id: int)
    requires RangeCovers(c) && t != NONE
    ensures RangeCovers(WithStart(c, t, id))
  {
  }

  lemma EndCovers(c: Clock, t: int, id: int)
    requires RangeCovers(c) && t != NONE
    ensures RangeCovers(WithEnd(c, t, id))
  {
  }

  lemma SameRangeCovers(c: Clock, d: Clock)
    requires RangeCovers(c)
    requires d.tracks == c.tracks && d.minStart == c.minStart && d.maxEnd == c.maxEnd
    requires d.seeking ==> SeekAccepted(c, d.seekingMedia)
    ensures RangeCovers(d)
  {
  }

  lemma StepCovers(c: Clock, op: Op)
    requires RangeCovers(c) && GivesTime(op)
    ensures RangeCovers(Do(c, op))
  {
    hide WithStart, WithEnd, TrackIndex, SyncerIndex, StartsCovered, EndsCovered, Raw, Clip;
    match op
    case RangeStart(t, id) => StartCovers(c, t, id);
    case RangeEnd(t, id) => EndCovers(c, t, id);
    case Reset => NothingToCover();
    case _ => SameRangeCovers(c, Do(c, op));
  }

  lemma NothingToCover()
    ensures RangeCovers(InitialClock())
  {
  }

  lemma {:induction false} RunCovers(ops: seq<Op>)
    requires forall op :: op in ops ==> GivesTime(op)
    ensures RangeCovers(DoAll(InitialClock(), ops))
  {
    if ops != [] {
      RunCovers(ops[..|ops| - 1]);
      StepCovers(DoAll(InitialClock(), ops[..|ops| - 1]), ops[|ops| - 1]);
    }
  }

  /**
   In every reachable state whose range is known and in order, a running clock
   shows a time in the range, and so does a clock that is seeking.
   */
  lemma ReadingInRange(ops: seq<Op>, now: int)
    requires forall op :: op in ops ==> GivesTime(op)
    ensures
      var c := DoAll(InitialClock(), ops);
      (c.seeking || (!c.paused && c.minStart != NONE && c.maxEnd != NONE && c.minStart <= c.maxEnd)) ==>
        c.minStart <= Reading(c, now) <= c.maxEnd
  {
    RunCovers(ops);
  }

  /**
   Setting a start to "none" resets the known minimum.  The starts stay covered
   exactly when a time is given, or the minimum is below "none" or unknown, or
   no other track has recorded a start.
   */
  lemma StartNoneExact(c: Clock, t: int, id: int)
    requires StartsCovered(c)
    ensures StartsCovered(WithStart(c, t, id)) <==>
      (t != NONE || c.minStart <= NONE ||
       forall i :: 0 <= i < |c.tracks| && i != TrackIndex(c.tracks, id) ==> c.tracks[i].start == NONE)
  {
    var d := WithStart(c, t, id);
    var k := TrackIndex(c.tracks, id);
    assert forall i :: 0 <= i < |c.tracks| && i != k ==> d.tracks[i] == c.tracks[i];
  }

  /** A second track without a start makes the first one's start forgotten. */
  lemma StartNoneForgets()
    ensures
      var c := InitialClock().(tracks := [Track(1, 5, NONE)], minStart := 5);
      StartsCovered(c) && !StartsCovered(WithStart(c, NONE, 2)) && WithStart(c, NONE, 2).minStart == NONE
  {
    var c := InitialClock().(tracks := [Track(1, 5, NONE)], minStart := 5);
    assert WithStart(c, NONE, 2).tracks[0].start == 5;
  }

  /** The priorities of the reports that counted since the anchor was last reset, after one more operation. */
  function NextCounted(c: Clock, op: Op, reports: seq<int>): seq<int> {
    match op
    case Reset => []
    case Seek(t) => if SeekAccepted(c, t) then [] else reports
    case Report(clock, media, s) => if Counts(c, clock, media, s) then reports + [s.priority] else reports
    case _ => reports
  }

  function CountedReports(c: Clock, ops: seq<Op>): seq<int> {
    if ops == [] then []
    else NextCounted(DoAll(c, ops[..|ops| - 1]), ops[|ops| - 1], CountedReports(c, ops[..|ops| - 1]))
  }

  function Highest(priorities: seq<int>): int {
    if priorities == [] then NONE
    else
      var rest, last := Highest(priorities[..|priorities| - 1]), priorities[|priorities| - 1];
      if last >= rest then last else rest
  }

  lemma {:induction false} HighestIsMax(priorities: seq<int>)
    ensures Highest(priorities) >= NONE
    ensures forall p :: p in priorities ==> p <= Highest(priorities)
    ensures Highest(priorities) == NONE || Highest(priorities) in priorities
  {
    if priorities != [] {
      HighestIsMax(priorities[..|priorities| - 1]);
      assert priorities == priorities[..|priorities| - 1] + [priorities[|priorities| - 1]];
    }
  }

  lemma PriorityStep(c: Clock, op: Op, reports: seq<int>)
    requires c.priority == Highest(reports)
    ensures Do(c, op).priority == Highest(NextCounted(c, op, reports))
  {
    hide Highest;
    if op.Report? {
      OneMoreReport(reports, op.supplier.priority);
    } else if op.Reset? || op.Seek? {
      NoReports();
    }
  }

  lemma NoReports()
    ensures Highest([]) == NONE
  {
  }

  lemma OneMoreReport(reports: seq<int>, p: int)
    ensures Highest(reports + [p]) == if p >= Highest(reports) then p else Highest(reports)
  {
  }

  /** In every reachable state the current priority is the highest that counted since the last anchor reset. */
  lemma {:induction false} PriorityIsHighest(ops: seq<Op>)
    ensures DoAll(InitialClock(), ops).priority == Highest(CountedReports(InitialClock(), ops))
  {
    hide Do, NextCounted;
    if ops != [] {
      var init, op := ops[..|ops| - 1], ops[|ops| - 1];
      PriorityIsHighest(init);
      PriorityStep(DoAll(InitialClock(), init), op, CountedReports(InitialClock(), init));
    }
  }

  // ------------------------------------------------------------------
  // The preroll barrier
  // ------------------------------------------------------------------

  /** A round under way: registered synchronizers have reported, each once, and not all of them. */
  ghost predicate Round(c: Clock) {
    && c.shouldPreroll
    && Distinct(c.syncers) && Distinct(c.prerolled)
    && Elems(c.prerolled) < Elems(c.syncers)
  }

  /** In every reachable state a synchronizer is registered once and has reported once. */
  lemma {:induction false} RegisteredOnce(ops: seq<Op>)
    ensures Distinct(DoAll(InitialClock(), ops).syncers) && Distinct(DoAll(InitialClock(), ops).prerolled)
  {
    hide Do;
    if ops != [] {
      RegisteredOnce(ops[..|ops| - 1]);
      RegisteredStep(DoAll(InitialClock(), ops[..|ops| - 1]), ops[|ops| - 1]);
    }
  }

  lemma RegisteredStep(c: Clock, op: Op)
    requires Distinct(c.syncers) && Distinct(c.prerolled)
    ensures Distinct(Do(c, op).syncers) && Distinct(Do(c, op).prerolled)
  {
    hide Distinct;
    NoneDistinct();
    match op
    case Add(s) => DistinctAppend(c.syncers, s);
    case Remove(s) => DistinctErase(c.syncers, SyncerIndex(c.syncers, s));
    case Preroll(s) => DistinctAppend(c.prerolled, s);
    case _ =>
  }

  lemma NoneDistinct()
    ensures Distinct<Synchronizer>([])
  {
  }

  lemma DistinctAppend(s: seq<Synchronizer>, x: Synchronizer)
    requires Distinct(s)
    ensures x !in s ==> Distinct(s + [x])
  {
  }

  lemma DistinctErase(s: seq<Synchronizer>, i: nat)
    requires Distinct(s)
    ensures i < |s| ==> Distinct(s[..i] + s[i + 1..])
  {
  }

  lemma SubsetSize<T>(a: set<T>, b: set<T>)
    requires a <= b
    ensures |a| <= |b| && (|a| == |b| <==> a == b)
  {
    if a != b {
      SmallerSet(a, b);
    }
  }

  /**
   One report of a registered synchronizer: nobody is notified before all have
   reported; when the last one does, each is notified exactly once and the next
   round starts empty.
   */
  lemma ReportStep(c: Clock, s: Synchronizer)
    requires Round(c) && s in c.syncers
    ensures
      var (d, notified) := Prerolled(c, s);
      && Round(d) && d.syncers == c.syncers
      && (notified != [] <==> Elems(c.prerolled) + {s} == Elems(c.syncers))
      && (notified != [] ==> multiset(notified) == multiset(c.syncers) && d.prerolled == [])
      && (notified == [] ==> Elems(d.prerolled) == Elems(c.prerolled) + {s})
  {
    assert forall x :: x in c.prerolled <==> x in Elems(c.prerolled);
    DistinctSize(c.syncers);
    if s !in c.prerolled {
      var all := c.prerolled + [s];
      assert Elems(all) == Elems(c.prerolled) + {s};
      DistinctSize(all);
      SubsetSize(Elems(all), Elems(c.syncers));
      if |all| == |c.syncers| {
        SameMultiset(all, c.syncers);
        assert Elems<Synchronizer>([]) == {} && s in Elems(c.syncers);
      }
    }
  }

  /** When synchronizers do not wait for each other, reports are ignored. */
  lemma ReportsIgnored(c: Clock, s: Synchronizer)
    requires !c.shouldPreroll
    ensures Prerolled(c, s) == (c, [])
  {
  }

  /** The synchronizers that an operation notifies. */
  function Notified(c: Clock, op: Op): seq<Synchronizer> {
    if op.Preroll? then Prerolled(c, op.s).1 else []
  }

  /** The round starts over: an accepted seek, or a resume before which the synchronizers had not been told to wait. */
  predicate StartsOver(c: Clock, op: Op) {
    match op
    case Seek(t) => SeekAccepted(c, t)
    case DoResume(_) => c.paused && !c.alreadyWait
    case _ => false
  }

  /** Registration does not change, synchronizers go on waiting for each other, and only registered ones report. */
  predicate Stable(syncers: seq<Synchronizer>, op: Op) {
    match op
    case Reset => false
    case Add(s) => s in syncers
    case Remove(s) => s !in syncers
    case WaitPreroll(wait) => wait
    case Preroll(s) => s in syncers
    case _ => true
  }

  /** The reporters since the round last started over or was notified. */
  ghost function Reporters(c: Clock, ops: seq<Op>): set<Synchronizer> {
    if ops == [] then {}
    else
      var d, op := DoAll(c, ops[..|ops| - 1]), ops[|ops| - 1];
      if StartsOver(d, op) || Notified(d, op) != [] then {}
      else Reporters(c, ops[..|ops| - 1]) + if op.Preroll? then {op.s} else {}
  }

  lemma RoundGoesOn(c: Clock, d: Clock)
    requires Round(c) && d.shouldPreroll && d.syncers == c.syncers && (d.prerolled == c.prerolled || d.prerolled == [])
    ensures Round(d)
    ensures d.prerolled == [] ==> Elems(d.prerolled) == {}
  {
  }

  lemma RoundStep(c: Clock, op: Op)
    requires Round(c) && Stable(c.syncers, op)
    ensures
      var d := Do(c, op);
      && Round(d) && d.syncers == c.syncers
      && Elems(d.prerolled) ==
           if StartsOver(c, op) || Notified(c, op) != [] then {}
           else Elems(c.prerolled) + if op.Preroll? then {op.s} else {}
  {
    hide Round, Elems, Distinct, TrackIndex, SyncerIndex, Raw, Clip, Prerolled;
    RoundWaits(c);
    if op.Preroll? {
      ReportStep(c, op.s);
      RoundGoesOn(c, c.(prerolled := []));
    } else {
      OtherOps(c, op);
      RoundGoesOn(c, Do(c, op));
    }
  }

  lemma RoundWaits(c: Clock)
    requires Round(c)
    ensures c.shouldPreroll
  {
  }

  /** The operations other than reports leave the round alone or start it over. */
  lemma OtherOps(c: Clock, op: Op)
    requires c.shouldPreroll && Stable(c.syncers, op) && !op.Preroll?
    ensures
      var d := Do(c, op);
      && d.shouldPreroll && d.syncers == c.syncers
      && d.prerolled == if StartsOver(c, op) then [] else c.prerolled
  {
    hide TrackIndex, Raw, Clip;
  }

  /**
   The barrier over whole runs of all operations with stable registration: a
   report is answered exactly when the reporters since the last batch, seek or
   first resume are then all the registered synchronizers, and the batch notifies
   each of them exactly once.
   */
  lemma {:induction false} BarrierHolds(c: Clock, ops: seq<Op>, s: Synchronizer)
    requires Round(c) && c.prerolled == []
    requires s in c.syncers && forall op :: op in ops ==> Stable(c.syncers, op)
    ensures
      var d := DoAll(c, ops);
      && Round(d) && d.syncers == c.syncers && Elems(d.prerolled) == Reporters(c, ops)
      && (Notified(d, Preroll(s)) != [] <==> Reporters(c, ops) + {s} == Elems(c.syncers))
      && (Notified(d, Preroll(s)) != [] ==> multiset(Notified(d, Preroll(s))) == multiset(c.syncers))
  {
    hide Do, Round, StartsOver, Stable;
    if ops == [] {
      assert Elems(c.prerolled) == {};
    } else {
      BarrierHolds(c, ops[..|ops| - 1], s);
      RoundStep(DoAll(c, ops[..|ops| - 1]), ops[|ops| - 1]);
    }
    ReportStep(DoAll(c, ops), s);
  }

  // ------------------------------------------------------------------
  // Records of whole runs
  // ------------------------------------------------------------------

  /** The operation neither starts a seek anew nor ends the one to `t`. */
  predicate KeepsSeeking(c: Clock, t: int, op: Op) {
    match op
    case Reset => false
    case Seek(u) => !(c.minStart <= u <= c.maxEnd)
    case Report(clock, media, _) => clock == -1 || media == -1 || media - t >= 51_000_000 || t - media >= 51_000_000
    case _ => true
  }

  ghost predicate SeekLasts(c: Clock, t: int, ops: seq<Op>) {
    forall i :: 0 <= i < |ops| ==> KeepsSeeking(DoAll(c, ops[..i]), t, ops[i])
  }

  /** Whatever else happens, the target is shown until a report comes near it, or another seek or a reset. */
  lemma {:induction false} SeekHolds(c: Clock, t: int, ops: seq<Op>, now: int)
    requires c.seeking && c.seekingMedia == t && SeekLasts(c, t, ops)
    ensures Reading(DoAll(c, ops), now) == t
    ensures DoAll(c, ops).seeking && DoAll(c, ops).seekingMedia == t
  {
    hide Do, KeepsSeeking;
    if ops != [] {
      var init := ops[..|ops| - 1];
      assert forall i :: 0 <= i < |init| ==> init[..i] == ops[..i] && init[i] == ops[i];
      SeekHolds(c, t, init, now);
      assert KeepsSeeking(DoAll(c, init), t, ops[|ops| - 1]);
      SeekStep(DoAll(c, init), t, ops[|ops| - 1]);
    }
  }

  lemma SeekStep(c: Clock, t: int, op: Op)
    requires c.seeking && c.seekingMedia == t && KeepsSeeking(c, t, op)
    ensures Do(c, op).seeking && Do(c, op).seekingMedia == t
  {
    hide TrackIndex, SyncerIndex, Raw, Clip, StartSet, EndSet;
    if op.Report? {
      ReportEndsSeek(c, op.clock, op.media, op.supplier);
    }
  }

  /** The starts given since the last reset. */
  function Starts(ops: seq<Op>): seq<int> {
    if ops == [] then []
    else
      var op := ops[|ops| - 1];
      if op.Reset? then [] else Starts(ops[..|ops| - 1]) + if op.RangeStart? then [op.t] else []
  }

  function Ends(ops: seq<Op>): seq<int> {
    if ops == [] then []
    else
      var op := ops[|ops| - 1];
      if op.Reset? then [] else Ends(ops[..|ops| - 1]) + if op.RangeEnd? then [op.t] else []
  }

  ghost predicate IsLowest(low: int, s: seq<int>) {
    if s == [] then low == -1 else low in s && forall t :: t in s ==> low <= t
  }

  ghost predicate IsHighest(high: int, s: seq<int>) {
    if s == [] then high == -1 else high in s && forall t :: t in s ==> t <= high
  }

  /** In every reachable state the range is exactly from the lowest start to the highest end given since the last reset. */
  lemma {:induction false} RangeIsExact(ops: seq<Op>)
    requires forall op :: op in ops ==> GivesTime(op)
    ensures IsLowest(DoAll(InitialClock(), ops).minStart, Starts(ops))
    ensures IsHighest(DoAll(InitialClock(), ops).maxEnd, Ends(ops))
    ensures -1 !in Starts(ops) && -1 !in Ends(ops)
  {
    hide Do, IsLowest, IsHighest;
    if ops == [] {
      NothingGiven();
    } else {
      var init, op := ops[..|ops| - 1], ops[|ops| - 1];
      RangeIsExact(init);
      assert GivesTime(op);
      RangeStep(DoAll(InitialClock(), init), op, Starts(init), Ends(init));
    }
  }

  lemma NothingGiven()
    ensures IsLowest(-1, []) && IsHighest(-1, [])
  {
  }

  lemma RangeStep(c: Clock, op: Op, starts: seq<int>, ends: seq<int>)
    requires IsLowest(c.minStart, starts) && IsHighest(c.maxEnd, ends) && GivesTime(op)
    requires -1 !in starts && -1 !in ends
    ensures IsLowest(Do(c, op).minStart, if op.Reset? then [] else starts + if op.RangeStart? then [op.t] else [])
    ensures IsHighest(Do(c, op).maxEnd, if op.Reset? then [] else ends + if op.RangeEnd? then [op.t] else [])
  {
    hide IsLowest, IsHighest, TrackIndex, SyncerIndex, Raw, Clip, StartSet, EndSet, Prerolled, ShouldWait;
    assert starts + [] == starts && ends + [] == ends;
    if op.Reset? {
      NothingGiven();
    } else if op.RangeStart? {
      LowestStep(c.minStart, starts, op.t);
    } else if op.RangeEnd? {
      HighestStep(c.maxEnd, ends, op.t);
    } else {
      RangeUntouched(c, op);
    }
  }

  lemma RangeUntouched(c: Clock, op: Op)
    requires !op.Reset? && !op.RangeStart? && !op.RangeEnd?
    ensures Do(c, op).minStart == c.minStart && Do(c, op).maxEnd == c.maxEnd && Do(c, op).tracks == c.tracks
  {
    hide TrackIndex, SyncerIndex, Raw, Clip, StartSet, EndSet;
  }

  lemma LowestStep(low: int, s: seq<int>, t: int)
    requires IsLowest(low, s) && -1 !in s
    ensures IsLowest(if low == -1 || t < low then t else low, s + [t])
  {
    assert t in s + [t];
  }

  lemma HighestStep(high: int, s: seq<int>, t: int)
    requires IsHighest(high, s) && -1 !in s
    ensures IsHighest(if high == -1 || t > high then t else high, s + [t])
  {
    assert t in s + [t];
  }

  /** What a track has recorded: its start and end, or "none" without a record. */
  function Recorded(tracks: seq<Track>, id: int): (int, int) {
    var i := TrackIndex(tracks, id);
    if i < |tracks| then (tracks[i].start, tracks[i].end) else (-1, -1)
  }

  /** What was last given for the track since the last reset. */
  function LastGiven(ops: seq<Op>, id: int): (int, int) {
    if ops == [] then (-1, -1)
    else
      var (start, end) := LastGiven(ops[..|ops| - 1], id);
      match ops[|ops| - 1]
      case Reset => (-1, -1)
      case RangeStart(t, track) => if track == id then (t, end) else (start, end)
      case RangeEnd(t, track) => if track == id then (start, t) else (start, end)
      case _ => (start, end)
  }

  lemma {:induction false} TrackIndexOf(tracks: seq<Track>, id: int, i: nat)
    requires i <= |tracks| && (i < |tracks| ==> tracks[i].id == id) && forall j :: 0 <= j < i ==> tracks[j].id != id
    ensures TrackIndex(tracks, id) == i
  {
    if i > 0 {
      TrackIndexOf(tracks[1..], id, i - 1);
    }
  }

  lemma SetRecords(tracks: seq<Track>, track: int, t: int, id: int)
    ensures Recorded(StartSet(tracks, track, t), id) ==
      if track == id then (t, Recorded(tracks, id).1) else Recorded(tracks, id)
    ensures Recorded(EndSet(tracks, track, t), id) ==
      if track == id then (Recorded(tracks, id).0, t) else Recorded(tracks, id)
  {
    var i, k := TrackIndex(tracks, id), TrackIndex(tracks, track);
    var at := if i < |tracks| || track == id then i else if k < |tracks| then i else i + 1;
    TrackIndexOf(StartSet(tracks, track, t), id, at);
    TrackIndexOf(EndSet(tracks, track, t), id, at);
  }

  /** In every reachable state each track has on record what was last given for it since the last reset. */
  lemma {:induction false} TracksAreExact(ops: seq<Op>, id: int)
    ensures Recorded(DoAll(InitialClock(), ops).tracks, id) == LastGiven(ops, id)
  {
    hide Recorded, Do;
    NothingRecorded(id);
    if ops != [] {
      TracksAreExact(ops[..|ops| - 1], id);
      TracksStep(DoAll(InitialClock(), ops[..|ops| - 1]), ops[|ops| - 1], id);
    }
  }

  lemma TracksStep(c: Clock, op: Op, id: int)
    ensures Recorded(Do(c, op).tracks, id) ==
      match op
      case Reset => (-1, -1)
      case RangeStart(t, track) => if track == id then (t, Recorded(c.tracks, id).1) else Recorded(c.tracks, id)
      case RangeEnd(t, track) => if track == id then (Recorded(c.tracks, id).0, t) else Recorded(c.tracks, id)
      case _ => Recorded(c.tracks, id)
  {
    hide Recorded, StartSet, EndSet;
    if op.RangeStart? || op.RangeEnd? {
      SetRecords(c.tracks, op.track, op.t, id);
    } else if op.Reset? {
      NothingRecorded(id);
    } else {
      RangeUntouched(c, op);
    }
  }

  lemma NothingRecorded(id: int)
    ensures Recorded([], id) == (-1, -1)
  {
  }

  /** Added and not removed since, nor reset. */
  predicate IsRegistered(ops: seq<Op>, s: Synchronizer) {
    if ops == [] then false
    else
      match ops[|ops| - 1]
      case Reset => false
      case Add(x) => x == s || IsRegistered(ops[..|ops| - 1], s)
      case Remove(x) => x != s && IsRegistered(ops[..|ops| - 1], s)
      case _ => IsRegistered(ops[..|ops| - 1], s)
  }

  lemma RemovedMembers(syncers: seq<Synchronizer>, x: Synchronizer, s: Synchronizer)
    requires Distinct(syncers)
    ensures
      var i := SyncerIndex(syncers, x);
      && (x !in syncers ==> i == |syncers|)
      && (i < |syncers| ==> (s in syncers[..i] + syncers[i + 1..] <==> s in syncers && s != x))
  {
    var i := SyncerIndex(syncers, x);
    if i < |syncers| && s in syncers && s != x {
      var k :| 0 <= k < |syncers| && syncers[k] == s;
      assert (syncers[..i] + syncers[i + 1..])[if k < i then k else k - 1] == s;
    }
  }

  /** In every reachable state exactly those are registered that were added and not removed since. */
  lemma {:induction false} RegisteredExact(ops: seq<Op>, s: Synchronizer)
    ensures s in DoAll(InitialClock(), ops).syncers <==> IsRegistered(ops, s)
  {
    hide Distinct, Do;
    if ops != [] {
      RegisteredExact(ops[..|ops| - 1], s);
      RegisteredOnce(ops[..|ops| - 1]);
      MembersStep(DoAll(InitialClock(), ops[..|ops| - 1]), ops[|ops| - 1], s);
    }
  }

  lemma MembersStep(c: Clock, op: Op, s: Synchronizer)
    requires Distinct(c.syncers)
    ensures s in Do(c, op).syncers <==>
      match op
      case Reset => false
      case Add(x) => x == s || s in c.syncers
      case Remove(x) => x != s && s in c.syncers
      case _ => s in c.syncers
  {
    hide Distinct, TrackIndex, SyncerIndex, Raw, Clip, StartSet, EndSet;
    if op.Remove? {
      RemovedMembers(c.syncers, op.s, s);
    }
  }

  /** Whether synchronizers are to wait: as told last since the last reset, and yes if not told. */
  function ToldToWait(ops: seq<Op>): bool {
    if ops == [] then true
    else
      match ops[|ops| - 1]
      case Reset => true
      case WaitPreroll(wait) => wait
      case _ => ToldToWait(ops[..|ops| - 1])
  }

  lemma {:induction false} WaitsAsTold(ops: seq<Op>)
    ensures DoAll(InitialClock(), ops).shouldPreroll == ToldToWait(ops)
  {
    hide Do;
    if ops != [] {
      WaitsAsTold(ops[..|ops| - 1]);
      ToldStep(DoAll(InitialClock(), ops[..|ops| - 1]), ops[|ops| - 1]);
    }
  }

  lemma ToldStep(c: Clock, op: Op)
    ensures Do(c, op).shouldPreroll ==
      match op
      case Reset => true
      case WaitPreroll(wait) => wait
      case _ => c.shouldPreroll
  {
    hide TrackIndex, SyncerIndex, Raw, Clip, StartSet, EndSet;
  }

  /**
   Without waiting, resuming and seeking leave the round alone, and a clock that
   has not told its synchronizers to wait does not skip its pauses.
   */
  lemma NoWaiting(c: Clock, t: int, now: int, until: int, later: int)
    requires !c.shouldPreroll
    ensures Resumed(c, now).prerolled == c.prerolled && Resumed(c, now).alreadyWait == c.alreadyWait
    ensures Sought(c, t).prerolled == c.prerolled && (Sought(c, t) != c ==> !Sought(c, t).alreadyWait)
    ensures !c.seeking && !c.paused && !c.alreadyWait ==>
      Reading(Resumed(Paused(c, now), until), later) == Clip(c, Raw(c, later))
  {
    hide Trunc, Advanced;
  }

  /** As long as synchronizers wait for each other, a clock that has been played has told them so. */
  lemma {:induction false} PlayedHasWaited(ops: seq<Op>)
    requires forall op :: op in ops ==> KeepsWaiting(op)
    ensures
      var c := DoAll(InitialClock(), ops);
      c.shouldPreroll && (!c.paused || c.pausedMedia != -1 ==> c.alreadyWait)
  {
    hide Do;
    if ops != [] {
      PlayedHasWaited(ops[..|ops| - 1]);
      WaitedStep(DoAll(InitialClock(), ops[..|ops| - 1]), ops[|ops| - 1]);
    }
  }

  predicate KeepsWaiting(op: Op) {
    op != WaitPreroll(false)
  }

  lemma WaitedStep(c: Clock, op: Op)
    requires c.shouldPreroll && (!c.paused || c.pausedMedia != -1 ==> c.alreadyWait) && KeepsWaiting(op)
    ensures Do(c, op).shouldPreroll && (!Do(c, op).paused || Do(c, op).pausedMedia != -1 ==> Do(c, op).alreadyWait)
  {
    hide TrackIndex, SyncerIndex, Raw, Clip, StartSet, EndSet;
  }

  /**
   In every state that such a run reaches: a clock at a positive rate, paused while
   it shows a time and resumed at any later moment, goes on from that time.
   */
  lemma PauseIsSkipped(ops: seq<Op>, c: Clock, now: int, until: int, later: int)
    requires c == DoAll(InitialClock(), ops) && forall op :: op in ops ==> KeepsWaiting(op)
    requires !c.seeking && !c.paused && c.rate >= 0.000000001 && Reading(c, now) != -1
    requires until != -1 && later != -1
    ensures Reading(Resumed(Paused(c, now), until), later) ==
      Clip(c, Reached(Reading(c, now), later - until, c.rate))
  {
    PlayedHasWaited(ops);
    PauseThenResume(c, now, until, later);
  }

  lemma PauseThenResume(c: Clock, now: int, until: int, later: int)
    requires !c.seeking && !c.paused && c.rate >= 0.000000001 && Reading(c, now) != -1 && c.alreadyWait
    requires until != -1 && later != -1
    ensures Reading(Resumed(Paused(c, now), until), later) ==
      Clip(c, Reached(Reading(c, now), later - until, c.rate))
  {
    hide Raw, Clip, Trunc, Reading, Resumed, Paused, Advanced, Reached;
    PausedShown(c, now);
    ResumeAdvances(Paused(c, now), until, later);
    ReachedIsAdvanced(until, later, Reading(c, now), c.rate);
    assert Clip(Paused(c, now), Trunc(Advanced(until, later, Reading(c, now), c.rate))) ==
           Clip(c, Trunc(Advanced(until, later, Reading(c, now), c.rate)));
  }

  lemma PausedShown(c: Clock, now: int)
    requires !c.seeking && !c.paused
    ensures
      var p := Paused(c, now);
      p.pausedMedia == Reading(c, now) && p.paused && !p.seeking && p.rate == c.rate && p.alreadyWait == c.alreadyWait
    ensures forall t :: Clip(Paused(c, now), t) == Clip(c, t)
  {
  }

  // ------------------------------------------------------------------
  // Where the barrier fails
  // ------------------------------------------------------------------

  /**
   Whoever reports: a batch that is sent notifies each registered synchronizer
   exactly once if and only if everyone who reported is registered.
   */
  lemma BatchExact(c: Clock, s: Synchronizer)
    requires c.shouldPreroll && Distinct(c.syncers) && Distinct(c.prerolled)
    ensures
      var notified := Notified(c, Preroll(s));
      && (notified != [] <==> s !in c.prerolled && |c.prerolled| + 1 == |c.syncers|)
      && (notified != [] ==>
            (multiset(notified) == multiset(c.syncers) <==> forall x :: x in c.prerolled + [s] ==> x in c.syncers))
  {
    var all := c.prerolled + [s];
    if s !in c.prerolled && |all| == |c.syncers| {
      DistinctSize(all);
      DistinctSize(c.syncers);
      if forall x :: x in all ==> x in c.syncers {
        SubsetSize(Elems(all), Elems(c.syncers));
        SameMultiset(all, c.syncers);
      } else {
        var x :| x in all && x !in c.syncers;
        assert x in multiset(all) && x !in multiset(c.syncers);
      }
    }
  }

  /** A reporter that is not registered opens the barrier while a registered one is still missing. */
  lemma StrangerOpensBarrier(a: Synchronizer, b: Synchronizer, stranger: Synchronizer)
    requires a != b && a != stranger && b != stranger
    ensures
      var c := InitialClock().(syncers := [a, b], prerolled := [a]);
      Prerolled(c, stranger) == (c.(prerolled := []), [a, stranger])
  {
    assert [a] + [stranger] == [a, stranger];
  }

  /** Reports of registered synchronizers, in some order, with repetitions. */
  predicate Reports(syncers: seq<Synchronizer>, ops: seq<Op>) {
    forall op :: op in ops ==> op.Preroll? && op.s in syncers
  }

  /** Reports of registered synchronizers bring a batch sooner or later. */
  ghost predicate CanOpen(c: Clock) {
    exists ops, s :: Reports(c.syncers, ops) && s in c.syncers && Notified(DoAll(c, ops), Preroll(s)) != []
  }

  lemma {:induction false} StaysFull(c: Clock, ops: seq<Op>)
    requires |c.prerolled| >= |c.syncers| && Reports(c.syncers, ops)
    ensures |DoAll(c, ops).prerolled| >= |DoAll(c, ops).syncers| && DoAll(c, ops).syncers == c.syncers
  {
    if ops != [] {
      StaysFull(c, ops[..|ops| - 1]);
    }
  }

  lemma MissingReporter(c: Clock) returns (s: Synchronizer)
    requires Distinct(c.syncers) && Distinct(c.prerolled) && |c.prerolled| < |c.syncers|
    ensures s in c.syncers && s !in c.prerolled
  {
    DistinctSize(c.syncers);
    DistinctSize(c.prerolled);
    if Elems(c.syncers) <= Elems(c.prerolled) {
      SubsetSize(Elems(c.syncers), Elems(c.prerolled));
      assert false;
    }
    var x :| x in Elems(c.syncers) && x !in Elems(c.prerolled);
    s := x;
  }

  /** The reports of those still missing, one after the other, up to the one that brings the batch. */
  lemma {:induction false} Opens(c: Clock, done: seq<Op>) returns (ops: seq<Op>, s: Synchronizer)
    requires Reports(c.syncers, done)
    requires
      var d := DoAll(c, done);
      d.shouldPreroll && d.syncers == c.syncers && Distinct(d.syncers) && Distinct(d.prerolled) && |d.prerolled| < |d.syncers|
    ensures Reports(c.syncers, ops) && s in c.syncers && Notified(DoAll(c, ops), Preroll(s)) != []
    decreases |c.syncers| - |DoAll(c, done).prerolled|
  {
    var d := DoAll(c, done);
    s := MissingReporter(d);
    if |d.prerolled| + 1 == |d.syncers| {
      ops := done;
    } else {
      var more := done + [Preroll(s)];
      assert more[..|more| - 1] == done;
      DistinctAppend(d.prerolled, s);
      assert DoAll(c, more) == d.(prerolled := d.prerolled + [s]);
      ops, s := Opens(c, more);
    }
  }

  /**
   The registered synchronizers can still bring a batch if and only if fewer have
   been recorded as reporters than are registered.
   */
  lemma OpensExact(c: Clock)
    requires c.shouldPreroll && Distinct(c.syncers) && Distinct(c.prerolled)
    ensures CanOpen(c) <==> |c.prerolled| < |c.syncers|
  {
    if |c.prerolled| < |c.syncers| {
      var ops, s := Opens(c, []);
    } else {
      forall ops, s | Reports(c.syncers, ops) && s in c.syncers
        ensures Notified(DoAll(c, ops), Preroll(s)) == []
      {
        StaysFull(c, ops);
      }
    }
  }

  /** Removing the one still missing leaves a round in which everyone registered has reported and nobody is ever notified. */
  lemma RemovalBlocksBarrier(a: Synchronizer, b: Synchronizer)
    requires a != b
    ensures
      var c := Removed(Prerolled(Added(Added(InitialClock(), a), b), a).0, b);
      c.syncers == [a] && c.prerolled == [a] && Prerolled(c, a) == (c, []) && !CanOpen(c)
  {
    hide CanOpen;
    assert SyncerIndex([a, b], b) == 1;
    var c := Removed(Prerolled(Added(Added(InitialClock(), a), b), a).0, b);
    assert c == InitialClock().(syncers := [a], prerolled := [a]);
    OpensExact(c);
  }
}
