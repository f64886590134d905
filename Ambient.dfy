/**
 * Animation.java: the ambient-animation scheduler. Each track ("Frame" in
 * the source) cycles through a stretch of the content pack's frames; every
 * call to getFrame visits the tracks in index order, and a track whose
 * alarm has run out either is blocked by a track it excludes or stamps its
 * current frame onto the picture and moves on by its policy. A shared
 * bitmask records which tracks are mid-cycle. The clock and the random
 * generator are inputs: `now` is passed to getFrame, and the n-th call to
 * `Random.nextInt` returns the n-th value of a fixed stream `rng`, reduced
 * into the requested range.
 */
module AmbientAnimation {
  import opened Wrappers
  import opened JavaText
  import opened Catalog

  /** The comm-screen frame rate of the original game, 1000 / 40 ms. */
  const FRAME_RATE: int := 1000 / 40
  /** next_frame_delay before any track has offered a value. */
  const NO_ALARM: int := 0x7FFF_FFFF
  /** The bound every rate draws with: rand.nextInt(0x7FFFFFFF). */
  const DRAW_BOUND: int := 0x7FFF_FFFF

  const RANDOM_ANIM: bv8 := 1
  const CIRCULAR_ANIM: bv8 := 2
  const YOYO_ANIM: bv8 := 4
  /** COLORXFORM_ANIM is PAUSE_TALKING, bit 4. */
  const COLORXFORM_ANIM: bv8 := 0x10

  datatype Direction = Up | Down | NoDir

  /** How a track moves after a stamp, chosen from its flags; the flags are
      checked in this order, so a track with several flags takes the first. */
  datatype Policy = ColorXform | Yoyo | Circular | Shuffle | Still

  function PolicyOf(flags: bv8): (p: Policy)
    ensures p == ColorXform <==> flags & COLORXFORM_ANIM != 0
    ensures p == Yoyo <==> flags & COLORXFORM_ANIM == 0 && flags & YOYO_ANIM != 0
    ensures p == Circular <==> flags & (COLORXFORM_ANIM | YOYO_ANIM) == 0 && flags & CIRCULAR_ANIM != 0
    ensures p == Shuffle <==> flags & (COLORXFORM_ANIM | YOYO_ANIM | CIRCULAR_ANIM) == 0 && flags & RANDOM_ANIM != 0
    ensures p == Still <==> flags & (COLORXFORM_ANIM | YOYO_ANIM | CIRCULAR_ANIM | RANDOM_ANIM) == 0
  {
    if COLORXFORM_ANIM == flags & COLORXFORM_ANIM then ColorXform
    else if YOYO_ANIM == flags & YOYO_ANIM then Yoyo
    else if CIRCULAR_ANIM == flags & CIRCULAR_ANIM then Circular
    else if RANDOM_ANIM == flags & RANDOM_ANIM then Shuffle
    else Still
  }

  // ---------------------------------------------------------------------
  // Descriptors

  /** The eight fields of Animation.Frame read from an integer array. */
  datatype Descriptor = Descriptor(
    startIndex: int, numFrames: int, animFlags: bv8,
    baseFrameRate: int, randomFrameRate: int,
    baseRestartRate: int, randomRestartRate: int,
    blockMask: bv32)

  predicate IsShort(x: int) { -0x8000 <= x < 0x8000 }
  predicate IsByte(x: int) { -0x80 <= x < 0x80 }

  /** An integer array the Frame(int[]) constructor takes without a narrowing
      cast changing a value. */
  predicate IsDescriptorArray(values: seq<int>) {
    && |values| >= 8
    && IsShort(values[0]) && IsByte(values[1]) && IsByte(values[2])
    && IsShort(values[3]) && IsShort(values[4]) && IsShort(values[5]) && IsShort(values[6])
    && IsInt32(values[7])
  }

  /** Frame(int[] i): fields 0 to 7 in order; the flag byte and the block
      mask keep their two's-complement bits. */
  function DescriptorOf(values: seq<int>): (d: Descriptor)
    requires IsDescriptorArray(values)
    ensures d.startIndex == values[0] && d.numFrames == values[1]
    ensures d.baseFrameRate == values[3] && d.randomFrameRate == values[4]
    ensures d.baseRestartRate == values[5] && d.randomRestartRate == values[6]
    ensures d.animFlags == (values[2] % 0x100) as bv8 && d.blockMask == (values[7] % 0x1_0000_0000) as bv32
  {
    var flags := values[2] % 0x100;
    var mask := values[7] % 0x1_0000_0000;
    Descriptor(values[0], values[1], flags as bv8,
      values[3], values[4], values[5], values[6], mask as bv32)
  }

  /** What the scheduler needs of a descriptor to run without an exception:
      its frames exist in the content pack (content.frame.get), nextInt gets
      a positive bound, no rate divides by zero, and CurIndex stays a short. */
  predicate WellFormed(d: Descriptor, frameCount: int) {
    && 0 <= d.startIndex && 1 <= d.numFrames < 0x80
    && d.startIndex + d.numFrames <= frameCount
    && d.startIndex + d.numFrames < 0x8000
    && IsShort(d.baseFrameRate) && IsShort(d.randomFrameRate)
    && IsShort(d.baseRestartRate) && IsShort(d.randomRestartRate)
    && d.randomFrameRate != -1 && d.randomRestartRate != -1
  }

  // ---------------------------------------------------------------------
  // Random draws and rates

  /** The k-th call to `rand.nextInt(bound)`. */
  function Draw(rng: nat -> nat, k: nat, bound: int): (r: int)
    requires bound > 0
    ensures 0 <= r < bound
  {
    rng(k) % bound
  }

  /** Java's `%` for a non-negative dividend: the sign of the divisor does
      not matter. */
  function JavaRem(a: int, b: int): (r: int)
    requires a >= 0 && b != 0
    ensures 0 <= r < Abs(b)
  {
    a % Abs(b)
  }

  function Abs(x: int): int { if x < 0 then -x else x }

  /** `1 + base + rand.nextInt(0x7FFFFFFF) % (span + 1)`, the shared shape of
      randomFrameRate and randomRestartRate. */
  function Rate(base: int, span: int, draw: int): (r: int)
    requires span != -1 && draw >= 0
    ensures span >= 0 ==> 1 + base <= r <= 1 + base + span
    ensures span == 0 ==> r == 1 + base
    ensures span < -1 ==> 1 + base <= r <= base - span - 1
  {
    1 + base + JavaRem(draw, span + 1)
  }

  function FrameRate(d: Descriptor, draw: int): int
    requires d.randomFrameRate != -1 && draw >= 0
  {
    Rate(d.baseFrameRate, d.randomFrameRate, draw)
  }

  function RestartRate(d: Descriptor, draw: int): int
    requires d.randomRestartRate != -1 && draw >= 0
  {
    Rate(d.baseRestartRate, d.randomRestartRate, draw)
  }

  /** Whenever a descriptor's base rates are non-negative, every rate it
      draws is at least 1. */
  lemma RatesPositive(d: Descriptor, draw: int)
    requires d.randomFrameRate != -1 && d.randomRestartRate != -1 && draw >= 0
    requires d.baseFrameRate >= 0 && d.baseRestartRate >= 0
    ensures FrameRate(d, draw) >= 1 && RestartRate(d, draw) >= 1
  {
  }

  // ---------------------------------------------------------------------
  // Tracks

  /** The mutable part of an Animation.Frame next to its descriptor. */
  datatype Track = Track(desc: Descriptor, dir: Direction, curIndex: int, alarm: int)

  /** The last frame index of a track. */
  function Last(d: Descriptor): int { d.startIndex + d.numFrames - 1 }

  predicate ValidTrack(t: Track, frameCount: int) {
    && WellFormed(t.desc, frameCount)
    && t.desc.startIndex <= t.curIndex <= Last(t.desc)
  }

  /** Frame(int[] i) after the fields are read: direction up, at the first
      frame, with a restart-rate alarm drawn from the generator. */
  function NewTrack(d: Descriptor, draw: int): Track
    requires d.randomRestartRate != -1 && draw >= 0
  {
    Track(d, Up, d.startIndex, RestartRate(d, draw))
  }

  /** A fresh track is valid, starts at its first frame going up, and waits
      between 1 + BaseRestartRate and 1 + BaseRestartRate + RandomRestartRate
      ticks. */
  lemma NewTrackSpec(d: Descriptor, frameCount: int, draw: int)
    requires WellFormed(d, frameCount) && draw >= 0
    ensures var t := NewTrack(d, draw);
      && ValidTrack(t, frameCount) && t.curIndex == d.startIndex && t.dir == Up
      && (d.randomRestartRate >= 0 ==>
            1 + d.baseRestartRate <= t.alarm <= 1 + d.baseRestartRate + d.randomRestartRate)
  {
  }

  /** The position part of a track, and whether the last move wrapped round
      (ending a cycle: the track then pauses for a restart rate and gives up
      its active bit). */
  datatype Position = Position(index: int, dir: Direction, wrapped: bool)

  /** One Yoyo move: up until past the last frame, where the direction turns
      and the last frame is kept; down until below the first frame, where the
      direction turns, the first frame is kept and the cycle ends. */
  function YoyoNext(first: int, last: int, p: Position): Position
  {
    if p.dir == Up then
      if p.index + 1 > last then Position(last, Down, false) else Position(p.index + 1, Up, false)
    else if p.dir == Down then
      if p.index - 1 < first then Position(first, Up, true) else Position(p.index - 1, Down, false)
    else Position(p.index, p.dir, false)
  }

  /** One Circular move: up until past the last frame, which wraps to the
      first and ends the cycle. */
  function CircularNext(first: int, last: int, p: Position): Position
  {
    if p.index + 1 > last then Position(first, p.dir, true) else Position(p.index + 1, p.dir, false)
  }

  function YoyoAfter(first: int, last: int, p: Position, k: nat): Position
  {
    if k == 0 then p else YoyoNext(first, last, YoyoAfter(first, last, p, k - 1))
  }

  function CircularAfter(first: int, last: int, p: Position, k: nat): Position
  {
    if k == 0 then p else CircularNext(first, last, CircularAfter(first, last, p, k - 1))
  }

  lemma {:induction false} YoyoRising(first: int, n: nat, k: nat)
    requires n >= 1 && k < n
    ensures YoyoAfter(first, first + n - 1, Position(first, Up, false), k) == Position(first + k, Up, false)
  {
    if k > 0 {
      YoyoRising(first, n, k - 1);
    }
  }

  lemma {:induction false} YoyoFalling(first: int, n: nat, k: nat)
    requires n >= 1 && n <= k < 2 * n
    ensures YoyoAfter(first, first + n - 1, Position(first, Up, false), k) == Position(first + 2 * n - 1 - k, Down, false)
  {
    if k == n {
      YoyoRising(first, n, n - 1);
    } else {
      YoyoFalling(first, n, k - 1);
    }
  }

  /** A Yoyo track started at its first frame going up visits
      first, first+1, ..., last, last, ..., first (2n stamps for n frames),
      turning at each end, and only the move below the first frame wraps:
      after 2n moves it is back at the first frame going up. */
  lemma YoyoCycle(first: int, n: nat, k: nat)
    requires n >= 1 && k <= 2 * n
    ensures var p := YoyoAfter(first, first + n - 1, Position(first, Up, false), k);
      && (k < n ==> p == Position(first + k, Up, false))
      && (n <= k < 2 * n ==> p == Position(first + 2 * n - 1 - k, Down, false))
      && (k == 2 * n ==> p == Position(first, Up, true))
  {
    if k < n {
      YoyoRising(first, n, k);
    } else if k < 2 * n {
      YoyoFalling(first, n, k);
    } else {
      YoyoFalling(first, n, k - 1);
    }
  }

  lemma {:induction false} CircularRising(first: int, n: nat, k: nat, d: Direction)
    requires n >= 1 && k < n
    ensures CircularAfter(first, first + n - 1, Position(first, d, false), k) == Position(first + k, d, false)
  {
    if k > 0 {
      CircularRising(first, n, k - 1, d);
    }
  }

  /** A Circular track visits first, ..., last and after n moves wraps back
      to the first frame, ending the cycle. */
  lemma CircularCycle(first: int, n: nat, k: nat, d: Direction)
    requires n >= 1 && k <= n
    ensures var p := CircularAfter(first, first + n - 1, Position(first, d, false), k);
      && (k < n ==> p == Position(first + k, d, false))
      && (k == n ==> p == Position(first, d, true))
  {
    if k < n {
      CircularRising(first, n, k, d);
    } else {
      CircularRising(first, n, n - 1, d);
    }
  }

  // ---------------------------------------------------------------------
  // One call to getFrame, as a function of the state

  /** Track i owns bit `1 << i` (Java's shift uses the low five bits of i). */
  function ActiveBit(i: nat): bv32 { (1 as bv32) << (i % 32) }

  /** `if (x < next_frame_delay) next_frame_delay = x`. */
  function Lower(delay: int, x: int): (r: int)
    ensures r <= delay && r <= x && (r == delay || r == x)
  {
    if x < delay then x else delay
  }

  /** The closing clamp: too short, or nothing offered, means FRAME_RATE. */
  function Clamp(delay: int): (r: int)
    ensures r >= FRAME_RATE
    ensures r == FRAME_RATE || (r == delay && FRAME_RATE <= delay && delay != NO_ALARM)
    ensures FRAME_RATE <= delay && delay != NO_ALARM ==> r == delay
  {
    if delay < FRAME_RATE || delay == NO_ALARM then FRAME_RATE else delay
  }

  /** Everything getFrame reads and writes: the tracks, ActiveMask, how many
      random values have been drawn, the frames stamped so far (the picture,
      as the sequence of content-frame indices drawn onto it) and
      next_frame_delay. */
  datatype Scene = Scene(tracks: seq<Track>, active: bv32, drawn: nat, stamps: seq<int>, delay: int)

  predicate ValidScene(s: Scene, frameCount: int) {
    forall k :: 0 <= k < |s.tracks| ==> ValidTrack(s.tracks[k], frameCount)
  }

  /** What a ready track does after its stamp, given the alarm already set to
      the frame rate and its bit already set: the policy's move, and the
      mask and the draw count after it. */
  datatype Moved = Moved(track: Track, active: bv32, drawn: nat)

  /** Whether the move after a stamp ends the track's cycle, which gives up
      its active bit: always for ColorXform and Random, on the wrapping move
      for Yoyo and Circular, never for a track with no policy flag. */
  predicate ClosesCycle(t: Track) {
    var p := Position(t.curIndex, t.dir, false);
    match PolicyOf(t.desc.animFlags)
    case ColorXform => true
    case Yoyo => YoyoNext(t.desc.startIndex, Last(t.desc), p).wrapped
    case Circular => CircularNext(t.desc.startIndex, Last(t.desc), p).wrapped
    case Shuffle => true
    case Still => false
  }

  function Advance(t: Track, frameCount: int, bit: bv32, active: bv32, rng: nat -> nat, drawn: nat): (m: Moved)
    requires ValidTrack(t, frameCount)
    ensures ValidTrack(m.track, frameCount) && m.track.desc == t.desc
    ensures m.active == if ClosesCycle(t) then active & !bit else active
    ensures m.drawn == drawn || m.drawn == drawn + 1
  {
    var d := t.desc;
    var p := Position(t.curIndex, t.dir, false);
    match PolicyOf(d.animFlags)
    case ColorXform => Moved(t.(alarm := 0), active & !bit, drawn)
    case Yoyo =>
      var q := YoyoNext(d.startIndex, Last(d), p);
      if q.wrapped then
        Moved(Track(d, q.dir, q.index, RestartRate(d, Draw(rng, drawn, DRAW_BOUND))), active & !bit, drawn + 1)
      else Moved(t.(dir := q.dir, curIndex := q.index), active, drawn)
    case Circular =>
      var q := CircularNext(d.startIndex, Last(d), p);
      if q.wrapped then
        Moved(t.(curIndex := q.index, alarm := RestartRate(d, Draw(rng, drawn, DRAW_BOUND))), active & !bit, drawn + 1)
      else Moved(t.(curIndex := q.index), active, drawn)
    case Shuffle =>
      Moved(t.(curIndex := d.startIndex + Draw(rng, drawn, d.numFrames)), active & !bit, drawn + 1)
    case Still => Moved(t, active, drawn)
  }

  /** The outcome of one track's turn: the track afterwards, ActiveMask and
      the draw count afterwards, the frame it stamped if any, and the value
      it offered to next_frame_delay if any. */
  datatype Turn = Turn(track: Track, active: bv32, drawn: nat, stamp: Option<int>, offer: Option<int>)

  /** The body of the loop of getFrame for a track holding bit `bit`. */
  function TakeTurn(t: Track, frameCount: int, rng: nat -> nat, elapsed: int, bit: bv32, active: bv32, drawn: nat): (u: Turn)
    requires ValidTrack(t, frameCount)
    ensures ValidTrack(u.track, frameCount) && u.track.desc == t.desc
  {
    if t.alarm > elapsed then
      var alarm := t.alarm - elapsed;
      Turn(t.(alarm := alarm), active, drawn, None, Some(alarm))
    else if active & t.desc.blockMask != 0 then
      Turn(t.(alarm := RestartRate(t.desc, Draw(rng, drawn, DRAW_BOUND))), active, drawn + 1, None, None)
    else
      var rate := FrameRate(t.desc, Draw(rng, drawn, DRAW_BOUND));
      var m := Advance(t.(alarm := rate), frameCount, bit, active | bit, rng, drawn + 1);
      Turn(m.track, m.active, m.drawn, Some(t.curIndex), Some(rate))
  }

  /** Track i's turn in the loop of getFrame, applied to the whole state. */
  function StepTrack(frameCount: int, rng: nat -> nat, elapsed: int, s: Scene, i: nat): (r: Scene)
    requires i < |s.tracks| && ValidScene(s, frameCount)
    ensures ValidScene(r, frameCount) && |r.tracks| == |s.tracks|
  {
    var u := TakeTurn(s.tracks[i], frameCount, rng, elapsed, ActiveBit(i), s.active, s.drawn);
    Scene(s.tracks[i := u.track], u.active, u.drawn,
      s.stamps + (if u.stamp.Some? then [u.stamp.value] else []),
      if u.offer.Some? then Lower(s.delay, u.offer.value) else s.delay)
  }

  /** The first n turns of the loop. */
  function Run(frameCount: int, rng: nat -> nat, elapsed: int, s: Scene, n: nat): (r: Scene)
    requires n <= |s.tracks| && ValidScene(s, frameCount)
    ensures ValidScene(r, frameCount) && |r.tracks| == |s.tracks|
  {
    if n == 0 then s else StepTrack(frameCount, rng, elapsed, Run(frameCount, rng, elapsed, s, n - 1), n - 1)
  }

  /** The whole of getFrame: the delay starts at NO_ALARM, every track takes
      its turn, and the result is clamped. */
  function Tick(frameCount: int, rng: nat -> nat, elapsed: int, s: Scene): (r: Scene)
    requires ValidScene(s, frameCount)
    ensures ValidScene(r, frameCount) && |r.tracks| == |s.tracks|
  {
    var r := Run(frameCount, rng, elapsed, s.(delay := NO_ALARM), |s.tracks|);
    r.(delay := Clamp(r.delay))
  }

  // ---------------------------------------------------------------------
  // What one turn does

  /** A track whose alarm has not run out only counts down: its alarm drops
      by exactly the elapsed time and stays positive, and it offers that
      alarm as the next delay; its frame, its direction, ActiveMask and the
      picture are untouched and nothing is drawn from the generator. */
  lemma WaitingTurn(t: Track, frameCount: int, rng: nat -> nat, elapsed: int, bit: bv32, active: bv32, drawn: nat)
    requires ValidTrack(t, frameCount) && t.alarm > elapsed
    ensures var u := TakeTurn(t, frameCount, rng, elapsed, bit, active, drawn);
      && u.track == t.(alarm := t.alarm - elapsed) && u.track.alarm > 0
      && u.active == active && u.stamp.None? && u.drawn == drawn && u.offer == Some(u.track.alarm)
  {
  }

  /** A track that is due but excludes a track now active does not stamp:
      it waits a fresh restart rate, offers nothing, and its frame, its
      direction and ActiveMask are untouched. */
  lemma BlockedTurn(t: Track, frameCount: int, rng: nat -> nat, elapsed: int, bit: bv32, active: bv32, drawn: nat)
    requires ValidTrack(t, frameCount) && t.alarm <= elapsed && active & t.desc.blockMask != 0
    ensures var u := TakeTurn(t, frameCount, rng, elapsed, bit, active, drawn);
      && u.track == t.(alarm := RestartRate(t.desc, Draw(rng, drawn, DRAW_BOUND)))
      && u.active == active && u.stamp.None? && u.offer.None? && u.drawn == drawn + 1
  {
  }

  lemma ClearOwnBit(a: bv32, b: bv32)
    ensures (a | b) & !b == a & !b
  {
  }

  /** A track stamps exactly when it is due and no track it excludes is
      active; it then stamps its current frame and offers the frame rate it
      drew. */
  lemma ReadyTurn(t: Track, frameCount: int, rng: nat -> nat, elapsed: int, bit: bv32, active: bv32, drawn: nat)
    requires ValidTrack(t, frameCount)
    ensures var u := TakeTurn(t, frameCount, rng, elapsed, bit, active, drawn);
      && (u.stamp.Some? <==> t.alarm <= elapsed && active & t.desc.blockMask == 0)
      && (u.stamp.Some? ==> u.stamp == Some(t.curIndex))
      && (u.stamp.Some? ==> u.offer == Some(FrameRate(t.desc, Draw(rng, drawn, DRAW_BOUND))))
  {
    var u := TakeTurn(t, frameCount, rng, elapsed, bit, active, drawn);
    if t.alarm > elapsed {
      WaitingTurn(t, frameCount, rng, elapsed, bit, active, drawn);
    } else if active & t.desc.blockMask != 0 {
      BlockedTurn(t, frameCount, rng, elapsed, bit, active, drawn);
    } else {
      assert u.stamp == Some(t.curIndex);
    }
  }

  /** Advance under the Yoyo policy, case by case. */
  lemma AdvanceYoyo(t: Track, frameCount: int, bit: bv32, active: bv32, rng: nat -> nat, drawn: nat)
    requires ValidTrack(t, frameCount) && PolicyOf(t.desc.animFlags) == Yoyo
    ensures var m := Advance(t, frameCount, bit, active, rng, drawn);
      var d := t.desc;
      var last := d.startIndex + d.numFrames - 1;
      if t.dir == Up then
        if t.curIndex + 1 > last then m == Moved(t.(dir := Down, curIndex := last), active, drawn)
        else m == Moved(t.(curIndex := t.curIndex + 1), active, drawn)
      else if t.dir == Down then
        if t.curIndex - 1 < d.startIndex then
          m == Moved(t.(dir := Up, curIndex := d.startIndex, alarm := RestartRate(d, Draw(rng, drawn, DRAW_BOUND))), active & !bit, drawn + 1)
        else m == Moved(t.(curIndex := t.curIndex - 1), active, drawn)
      else m == Moved(t, active, drawn)
  {
  }

  /** The move after a stamp, given the mask with the track's bit set,
      leaves the bit set unless the move ends the cycle. */
  lemma AdvanceMask(t: Track, frameCount: int, bit: bv32, active: bv32, rng: nat -> nat, drawn: nat)
    requires ValidTrack(t, frameCount)
    ensures var m := Advance(t, frameCount, bit, active | bit, rng, drawn);
      && (ClosesCycle(t) ==> m.active == active & !bit)
      && (!ClosesCycle(t) ==> m.active == active | bit)
  {
    ClearOwnBit(active, bit);
  }

  /** The mask a ready turn leaves is the one its move leaves, and whether
      the move ends the cycle does not depend on the alarm. */
  lemma ReadyMask(t: Track, frameCount: int, rng: nat -> nat, elapsed: int, bit: bv32, active: bv32, drawn: nat)
    requires ValidTrack(t, frameCount) && t.alarm <= elapsed && active & t.desc.blockMask == 0
    ensures var rate := FrameRate(t.desc, Draw(rng, drawn, DRAW_BOUND));
      && TakeTurn(t, frameCount, rng, elapsed, bit, active, drawn).active
         == Advance(t.(alarm := rate), frameCount, bit, active | bit, rng, drawn + 1).active
      && ClosesCycle(t.(alarm := rate)) == ClosesCycle(t)
  {
  }

  /** After a stamp the track's bit is clear exactly when the track's move
      ends its cycle. */
  lemma TurnMask(t: Track, frameCount: int, rng: nat -> nat, elapsed: int, bit: bv32, active: bv32, drawn: nat)
    requires ValidTrack(t, frameCount) && t.alarm <= elapsed && active & t.desc.blockMask == 0
    ensures var u := TakeTurn(t, frameCount, rng, elapsed, bit, active, drawn);
      && (ClosesCycle(t) ==> u.active == active & !bit)
      && (!ClosesCycle(t) ==> u.active == active | bit)
  {
    var rate := FrameRate(t.desc, Draw(rng, drawn, DRAW_BOUND));
    ReadyMask(t, frameCount, rng, elapsed, bit, active, drawn);
    AdvanceMask(t.(alarm := rate), frameCount, bit, active, rng, drawn + 1);
  }

  /** A turn leaves ActiveMask as it was, with the track's bit set, or with
      the track's bit cleared. */
  lemma TurnActive(t: Track, frameCount: int, rng: nat -> nat, elapsed: int, bit: bv32, active: bv32, drawn: nat)
    requires ValidTrack(t, frameCount)
    ensures var x := TakeTurn(t, frameCount, rng, elapsed, bit, active, drawn).active;
      x == active || x == active | bit || x == active & !bit
  {
    if t.alarm > elapsed {
      WaitingTurn(t, frameCount, rng, elapsed, bit, active, drawn);
    } else if active & t.desc.blockMask != 0 {
      BlockedTurn(t, frameCount, rng, elapsed, bit, active, drawn);
    } else {
      TurnMask(t, frameCount, rng, elapsed, bit, active, drawn);
    }
  }

  /** A turn changes no bit of ActiveMask but the track's own. */
  lemma TurnOwnBit(t: Track, frameCount: int, rng: nat -> nat, elapsed: int, bit: bv32, active: bv32, drawn: nat)
    requires ValidTrack(t, frameCount)
    ensures TakeTurn(t, frameCount, rng, elapsed, bit, active, drawn).active & !bit == active & !bit
  {
    TurnActive(t, frameCount, rng, elapsed, bit, active, drawn);
    OwnBitOnly(active, bit, TakeTurn(t, frameCount, rng, elapsed, bit, active, drawn).active);
  }

  lemma OwnBitOnly(a: bv32, b: bv32, x: bv32)
    requires x == a || x == a | b || x == a & !b
    ensures x & !b == a & !b
  {
  }

  /** What each policy does to a track that stamps: the move is the
      policy's, and a move that ends the cycle sets a restart-rate alarm
      (drawn right after the frame rate) except for ColorXform, which sets
      the alarm to 0. */
  lemma ReadyMove(t: Track, frameCount: int, rng: nat -> nat, elapsed: int, bit: bv32, active: bv32, drawn: nat)
    requires ValidTrack(t, frameCount) && t.alarm <= elapsed && active & t.desc.blockMask == 0
    ensures var u := TakeTurn(t, frameCount, rng, elapsed, bit, active, drawn);
      var d := t.desc;
      var p := Position(t.curIndex, t.dir, false);
      var rate := FrameRate(d, Draw(rng, drawn, DRAW_BOUND));
      var restart := RestartRate(d, Draw(rng, drawn + 1, DRAW_BOUND));
      && (PolicyOf(d.animFlags) == ColorXform ==>
            u.track == t.(alarm := 0))
      && (PolicyOf(d.animFlags) == Yoyo ==>
            && Position(u.track.curIndex, u.track.dir, ClosesCycle(t)) == YoyoNext(d.startIndex, Last(d), p)
            && u.track.alarm == if ClosesCycle(t) then restart else rate)
      && (PolicyOf(d.animFlags) == Circular ==>
            && Position(u.track.curIndex, u.track.dir, ClosesCycle(t)) == CircularNext(d.startIndex, Last(d), p)
            && u.track.alarm == if ClosesCycle(t) then restart else rate)
      && (PolicyOf(d.animFlags) == Shuffle ==>
            u.track == t.(curIndex := d.startIndex + Draw(rng, drawn + 1, d.numFrames), alarm := rate))
      && (PolicyOf(d.animFlags) == Still ==>
            u.track == t.(alarm := rate))
  {
    var rate := FrameRate(t.desc, Draw(rng, drawn, DRAW_BOUND));
    assert ClosesCycle(t.(alarm := rate)) == ClosesCycle(t);
  }

  /** A ready turn, spelled out: the frame rate is drawn first and the move
      starts from the mask with the track's bit set. */
  lemma ReadyTurnIs(t: Track, frameCount: int, rng: nat -> nat, elapsed: int, bit: bv32, active: bv32, drawn: nat)
    requires ValidTrack(t, frameCount) && t.alarm <= elapsed && active & t.desc.blockMask == 0
    ensures var rate := FrameRate(t.desc, Draw(rng, drawn, DRAW_BOUND));
      var m := Advance(t.(alarm := rate), frameCount, bit, active | bit, rng, drawn + 1);
      TakeTurn(t, frameCount, rng, elapsed, bit, active, drawn) == Turn(m.track, m.active, m.drawn, Some(t.curIndex), Some(rate))
  {
  }

  /** Track i's turn applied to the whole state when the track stamps: the
      move starts from the track with its frame-rate alarm `g`, the mask `a`
      with the track's bit set, and the draw count `d` after the frame
      rate. */
  lemma StampStep(frameCount: int, rng: nat -> nat, elapsed: int, s: Scene, i: nat, bit: bv32, g: Track, a: bv32, d: nat)
    requires i < |s.tracks| && ValidScene(s, frameCount) && bit == ActiveBit(i)
    requires s.tracks[i].alarm <= elapsed && s.active & s.tracks[i].desc.blockMask == 0
    requires g == s.tracks[i].(alarm := FrameRate(s.tracks[i].desc, Draw(rng, s.drawn, DRAW_BOUND)))
    requires a == s.active | bit && d == s.drawn + 1
    ensures ValidTrack(g, frameCount)
    ensures var m := Advance(g, frameCount, bit, a, rng, d);
      StepTrack(frameCount, rng, elapsed, s, i)
        == Scene(s.tracks[i := m.track], m.active, m.drawn, s.stamps + [s.tracks[i].curIndex], Lower(s.delay, g.alarm))
  {
    ReadyStep(frameCount, rng, elapsed, s, i);
    ReadyScene(frameCount, rng, elapsed, s, i, bit);
  }

  lemma ReadyStep(frameCount: int, rng: nat -> nat, elapsed: int, s: Scene, i: nat)
    requires i < |s.tracks| && ValidScene(s, frameCount)
    requires s.tracks[i].alarm <= elapsed && s.active & s.tracks[i].desc.blockMask == 0
    ensures var t := s.tracks[i];
      var u := TakeTurn(t, frameCount, rng, elapsed, ActiveBit(i), s.active, s.drawn);
      StepTrack(frameCount, rng, elapsed, s, i)
        == Scene(s.tracks[i := u.track], u.active, u.drawn, s.stamps + [t.curIndex], Lower(s.delay, u.offer.value))
  {
    ReadyTurn(s.tracks[i], frameCount, rng, elapsed, ActiveBit(i), s.active, s.drawn);
  }

  lemma ReadyScene(frameCount: int, rng: nat -> nat, elapsed: int, s: Scene, i: nat, bit: bv32)
    requires i < |s.tracks| && ValidScene(s, frameCount)
    requires s.tracks[i].alarm <= elapsed && s.active & s.tracks[i].desc.blockMask == 0
    ensures var t := s.tracks[i];
      var rate := FrameRate(t.desc, Draw(rng, s.drawn, DRAW_BOUND));
      var m := Advance(t.(alarm := rate), frameCount, bit, s.active | bit, rng, s.drawn + 1);
      var u := TakeTurn(t, frameCount, rng, elapsed, bit, s.active, s.drawn);
      Scene(s.tracks[i := u.track], u.active, u.drawn, s.stamps + [t.curIndex], Lower(s.delay, u.offer.value))
        == Scene(s.tracks[i := m.track], m.active, m.drawn, s.stamps + [t.curIndex], Lower(s.delay, rate))
  {
    hide *;
    TrackOfScene(s, frameCount, i);
    ReadyTurnIs(s.tracks[i], frameCount, rng, elapsed, bit, s.active, s.drawn);
  }

  /** With non-negative base rates no alarm goes negative. */
  lemma TurnAlarm(t: Track, frameCount: int, rng: nat -> nat, elapsed: int, bit: bv32, active: bv32, drawn: nat)
    requires ValidTrack(t, frameCount) && t.desc.baseFrameRate >= 0 && t.desc.baseRestartRate >= 0
    ensures TakeTurn(t, frameCount, rng, elapsed, bit, active, drawn).track.alarm >= 0
  {
    RatesPositive(t.desc, Draw(rng, drawn, DRAW_BOUND));
    RatesPositive(t.desc, Draw(rng, drawn + 1, DRAW_BOUND));
    if t.alarm <= elapsed && active & t.desc.blockMask == 0 {
      ReadyMove(t, frameCount, rng, elapsed, bit, active, drawn);
    }
  }

  lemma OutsideOwnBit(x: bv32, a: bv32, bit: bv32, m: bv32)
    requires x & !bit == a & !bit && m & bit == 0
    ensures x & m == a & m
  {
  }

  // ---------------------------------------------------------------------
  // What one call does

  /** Track k's turn in the loop, taken from the state the first k turns
      leave. */
  function TurnAt(frameCount: int, rng: nat -> nat, elapsed: int, s: Scene, k: nat): Turn
    requires k < |s.tracks| && ValidScene(s, frameCount)
  {
    var b := Run(frameCount, rng, elapsed, s, k);
    TakeTurn(b.tracks[k], frameCount, rng, elapsed, ActiveBit(k), b.active, b.drawn)
  }

  /** The first n turns replace track k (k < n) by the result of its own
      turn and leave the others alone; so each track takes exactly one turn
      per call, starting from the state it had before the call, however large
      the elapsed time. */
  lemma {:induction false} RunTracks(frameCount: int, rng: nat -> nat, elapsed: int, s: Scene, n: nat)
    requires n <= |s.tracks| && ValidScene(s, frameCount)
    ensures forall k :: n <= k < |s.tracks| ==> Run(frameCount, rng, elapsed, s, n).tracks[k] == s.tracks[k]
    ensures forall k :: 0 <= k < n ==> Run(frameCount, rng, elapsed, s, n).tracks[k] == TurnAt(frameCount, rng, elapsed, s, k).track
  {
    hide *;
    if n == 0 {
      RunZero(frameCount, rng, elapsed, s);
    } else {
      RunTracks(frameCount, rng, elapsed, s, n - 1);
      RunUnfold(frameCount, rng, elapsed, s, n);
      StepParts(frameCount, rng, elapsed, Run(frameCount, rng, elapsed, s, n - 1), n - 1);
    }
  }

  /** Track k's turn starts from the track as it was before the call. */
  lemma TurnStartsFresh(frameCount: int, rng: nat -> nat, elapsed: int, s: Scene, k: nat)
    requires k < |s.tracks| && ValidScene(s, frameCount)
    ensures var b := Run(frameCount, rng, elapsed, s, k);
      TurnAt(frameCount, rng, elapsed, s, k)
        == TakeTurn(s.tracks[k], frameCount, rng, elapsed, ActiveBit(k), b.active, b.drawn)
  {
    RunTracks(frameCount, rng, elapsed, s, k);
  }

  /** The delay after n turns is the least of the starting delay and the
      values offered so far. */
  lemma {:induction false} RunDelay(frameCount: int, rng: nat -> nat, elapsed: int, s: Scene, n: nat)
    requires n <= |s.tracks| && ValidScene(s, frameCount)
    ensures var r := Run(frameCount, rng, elapsed, s, n);
      && r.delay <= s.delay
      && (forall k :: 0 <= k < n && TurnAt(frameCount, rng, elapsed, s, k).offer.Some? ==>
            r.delay <= TurnAt(frameCount, rng, elapsed, s, k).offer.value)
      && (r.delay == s.delay || exists k :: 0 <= k < n && TurnAt(frameCount, rng, elapsed, s, k).offer == Some(r.delay))
  {
    hide *;
    if n == 0 {
      RunZero(frameCount, rng, elapsed, s);
    } else {
      RunDelay(frameCount, rng, elapsed, s, n - 1);
      var b := Run(frameCount, rng, elapsed, s, n - 1);
      var offers := seq(n, k requires 0 <= k < n => TurnAt(frameCount, rng, elapsed, s, k).offer);
      RunUnfold(frameCount, rng, elapsed, s, n);
      StepParts(frameCount, rng, elapsed, b, n - 1);
      assert forall k :: 0 <= k < n ==> offers[k] == TurnAt(frameCount, rng, elapsed, s, k).offer;
      DelayFold(s.delay, b.delay, Run(frameCount, rng, elapsed, s, n).delay, offers);
    }
  }

  lemma TrackOfScene(s: Scene, frameCount: int, k: nat)
    requires ValidScene(s, frameCount) && k < |s.tracks|
    ensures ValidTrack(s.tracks[k], frameCount)
  {
  }

  lemma RunZero(frameCount: int, rng: nat -> nat, elapsed: int, s: Scene)
    requires ValidScene(s, frameCount)
    ensures Run(frameCount, rng, elapsed, s, 0) == s
  {
  }

  /** Run and TurnAt for the n-th turn, one level down. */
  lemma RunUnfold(frameCount: int, rng: nat -> nat, elapsed: int, s: Scene, n: nat)
    requires 0 < n <= |s.tracks| && ValidScene(s, frameCount)
    ensures var b := Run(frameCount, rng, elapsed, s, n - 1);
      && Run(frameCount, rng, elapsed, s, n) == StepTrack(frameCount, rng, elapsed, b, n - 1)
      && TurnAt(frameCount, rng, elapsed, s, n - 1)
         == TakeTurn(b.tracks[n - 1], frameCount, rng, elapsed, ActiveBit(n - 1), b.active, b.drawn)
  {
  }

  /** The delay bounds of RunDelay carried over one more offer. */
  lemma DelayFold(start: int, before: int, after: int, offers: seq<Option<int>>)
    requires |offers| >= 1
    requires before <= start
    requires forall k :: 0 <= k < |offers| - 1 && offers[k].Some? ==> before <= offers[k].value
    requires before == start || exists k :: 0 <= k < |offers| - 1 && offers[k] == Some(before)
    requires var last := offers[|offers| - 1];
      after == if last.Some? then Lower(before, last.value) else before
    ensures after <= start
    ensures forall k :: 0 <= k < |offers| && offers[k].Some? ==> after <= offers[k].value
    ensures after == start || exists k :: 0 <= k < |offers| && offers[k] == Some(after)
  {
    var last := offers[|offers| - 1];
    if after != start && last != Some(after) {
      var k :| 0 <= k < |offers| - 1 && offers[k] == Some(before);
    }
  }

  /** One turn, field by field: the track's own entry, ActiveMask and the
      draw count come from its Turn, and the delay drops to its offer. */
  lemma StepParts(frameCount: int, rng: nat -> nat, elapsed: int, b: Scene, i: nat)
    requires i < |b.tracks| && ValidScene(b, frameCount)
    ensures var u := TakeTurn(b.tracks[i], frameCount, rng, elapsed, ActiveBit(i), b.active, b.drawn);
      var r := StepTrack(frameCount, rng, elapsed, b, i);
      && r.tracks == b.tracks[i := u.track] && r.active == u.active && r.drawn == u.drawn
      && r.delay == if u.offer.Some? then Lower(b.delay, u.offer.value) else b.delay
  {
  }

  /** The picture only grows: the first n turns append at most n stamps,
      each a frame of the content pack. */
  lemma {:induction false} RunStamps(frameCount: int, rng: nat -> nat, elapsed: int, s: Scene, n: nat)
    requires n <= |s.tracks| && ValidScene(s, frameCount)
    ensures var r := Run(frameCount, rng, elapsed, s, n);
      && |s.stamps| <= |r.stamps| <= |s.stamps| + n
      && r.stamps[..|s.stamps|] == s.stamps
      && forall j :: |s.stamps| <= j < |r.stamps| ==> 0 <= r.stamps[j] < frameCount
  {
    hide *;
    if n == 0 {
      RunZero(frameCount, rng, elapsed, s);
    } else {
      RunStamps(frameCount, rng, elapsed, s, n - 1);
      var b := Run(frameCount, rng, elapsed, s, n - 1);
      RunUnfold(frameCount, rng, elapsed, s, n);
      StepStamps(frameCount, rng, elapsed, b, n - 1);
      StampsGrow(s.stamps, b.stamps, Run(frameCount, rng, elapsed, s, n).stamps, frameCount, n);
    }
  }

  lemma StampsGrow(a: seq<int>, b: seq<int>, c: seq<int>, frameCount: int, n: nat)
    requires n >= 1
    requires |a| <= |b| <= |a| + n - 1 && b[..|a|] == a
    requires forall j :: |a| <= j < |b| ==> 0 <= b[j] < frameCount
    requires |b| <= |c| <= |b| + 1 && c[..|b|] == b
    requires forall j :: |b| <= j < |c| ==> 0 <= c[j] < frameCount
    ensures |a| <= |c| <= |a| + n && c[..|a|] == a
    ensures forall j :: |a| <= j < |c| ==> 0 <= c[j] < frameCount
  {
    assert forall j :: 0 <= j < |b| ==> c[j] == b[j];
  }

  /** One turn appends at most one stamp, a frame of the content pack. */
  lemma StepStamps(frameCount: int, rng: nat -> nat, elapsed: int, b: Scene, i: nat)
    requires i < |b.tracks| && ValidScene(b, frameCount)
    ensures var r := StepTrack(frameCount, rng, elapsed, b, i);
      && |b.stamps| <= |r.stamps| <= |b.stamps| + 1
      && r.stamps[..|b.stamps|] == b.stamps
      && forall j :: |b.stamps| <= j < |r.stamps| ==> 0 <= r.stamps[j] < frameCount
  {
    TurnStamp(b.tracks[i], frameCount, rng, elapsed, ActiveBit(i), b.active, b.drawn);
    var r := StepTrack(frameCount, rng, elapsed, b, i);
    assert r.stamps[..|b.stamps|] == b.stamps;
  }

  /** A turn stamps, if at all, a frame of the content pack. */
  lemma TurnStamp(t: Track, frameCount: int, rng: nat -> nat, elapsed: int, bit: bv32, active: bv32, drawn: nat)
    requires ValidTrack(t, frameCount)
    ensures var u := TakeTurn(t, frameCount, rng, elapsed, bit, active, drawn);
      u.stamp.Some? ==> 0 <= u.stamp.value < frameCount
  {
    ReadyTurn(t, frameCount, rng, elapsed, bit, active, drawn);
  }

  /** The first n turns change no bit of ActiveMask that none of those
      tracks owns. */
  lemma {:induction false} RunMask(frameCount: int, rng: nat -> nat, elapsed: int, s: Scene, n: nat, m: bv32)
    requires n <= |s.tracks| && ValidScene(s, frameCount)
    requires forall k :: 0 <= k < n ==> m & ActiveBit(k) == 0
    ensures Run(frameCount, rng, elapsed, s, n).active & m == s.active & m
  {
    hide *;
    if n == 0 {
      RunZero(frameCount, rng, elapsed, s);
    } else {
      RunMask(frameCount, rng, elapsed, s, n - 1, m);
      var b := Run(frameCount, rng, elapsed, s, n - 1);
      RunUnfold(frameCount, rng, elapsed, s, n);
      StepParts(frameCount, rng, elapsed, b, n - 1);
      TrackOfScene(b, frameCount, n - 1);
      TurnOwnBit(b.tracks[n - 1], frameCount, rng, elapsed, ActiveBit(n - 1), b.active, b.drawn);
      OutsideOwnBit(Run(frameCount, rng, elapsed, s, n).active, b.active, ActiveBit(n - 1), m);
    }
  }

  /** Every track keeps its frame inside its own stretch of the content
      pack, and with non-negative base rates no alarm goes negative. */
  lemma {:induction false} RunAlarms(frameCount: int, rng: nat -> nat, elapsed: int, s: Scene, n: nat)
    requires n <= |s.tracks| && ValidScene(s, frameCount)
    requires forall k :: 0 <= k < |s.tracks| ==> s.tracks[k].desc.baseFrameRate >= 0 && s.tracks[k].desc.baseRestartRate >= 0
    requires forall k :: 0 <= k < |s.tracks| ==> s.tracks[k].alarm >= 0
    ensures var r := Run(frameCount, rng, elapsed, s, n);
      forall k :: 0 <= k < |r.tracks| ==> r.tracks[k].desc == s.tracks[k].desc && r.tracks[k].alarm >= 0
  {
    hide *;
    if n == 0 {
      RunZero(frameCount, rng, elapsed, s);
    } else {
      RunAlarms(frameCount, rng, elapsed, s, n - 1);
      var b := Run(frameCount, rng, elapsed, s, n - 1);
      RunUnfold(frameCount, rng, elapsed, s, n);
      StepParts(frameCount, rng, elapsed, b, n - 1);
      TrackOfScene(b, frameCount, n - 1);
      TurnAlarm(b.tracks[n - 1], frameCount, rng, elapsed, ActiveBit(n - 1), b.active, b.drawn);
    }
  }

  /** next_frame_delay after getFrame: at least FRAME_RATE; FRAME_RATE when
      no track offered a value (every track blocked, say); otherwise no more
      than any value offered that is itself at least FRAME_RATE, and either
      FRAME_RATE or one of the values offered. */
  lemma TickDelay(frameCount: int, rng: nat -> nat, elapsed: int, s: Scene)
    requires ValidScene(s, frameCount)
    ensures var r := Tick(frameCount, rng, elapsed, s);
      var s0 := s.(delay := NO_ALARM);
      && r.delay >= FRAME_RATE
      && ((forall k :: 0 <= k < |s.tracks| ==> TurnAt(frameCount, rng, elapsed, s0, k).offer.None?) ==> r.delay == FRAME_RATE)
      && (forall k :: 0 <= k < |s.tracks| && TurnAt(frameCount, rng, elapsed, s0, k).offer.Some?
            && TurnAt(frameCount, rng, elapsed, s0, k).offer.value >= FRAME_RATE
            ==> r.delay <= TurnAt(frameCount, rng, elapsed, s0, k).offer.value)
      && (r.delay == FRAME_RATE || exists k :: 0 <= k < |s.tracks| && TurnAt(frameCount, rng, elapsed, s0, k).offer == Some(r.delay))
  {
    RunDelay(frameCount, rng, elapsed, s.(delay := NO_ALARM), |s.tracks|);
  }

  /** The offers of one getFrame call, track by track. */
  function Offers(frameCount: int, rng: nat -> nat, elapsed: int, s: Scene): (r: seq<Option<int>>)
    requires ValidScene(s, frameCount)
    ensures |r| == |s.tracks|
    ensures forall k :: 0 <= k < |s.tracks| ==> r[k] == TurnAt(frameCount, rng, elapsed, s.(delay := NO_ALARM), k).offer
  {
    seq(|s.tracks|, k requires 0 <= k < |s.tracks| => TurnAt(frameCount, rng, elapsed, s.(delay := NO_ALARM), k).offer)
  }

  /** next_frame_delay after getFrame exactly: FRAME_RATE as soon as one
      track offered less than FRAME_RATE, and otherwise the least value
      offered (capped at NO_ALARM) after the closing clamp. */
  lemma TickLeastOffer(frameCount: int, rng: nat -> nat, elapsed: int, s: Scene)
    requires ValidScene(s, frameCount)
    ensures var r := Tick(frameCount, rng, elapsed, s);
      var offers := Offers(frameCount, rng, elapsed, s);
      && ((exists k :: 0 <= k < |offers| && offers[k].Some? && offers[k].value < FRAME_RATE) ==> r.delay == FRAME_RATE)
      && (forall k :: 0 <= k < |offers| && IsLeast(offers, k) ==> r.delay == Clamp(Lower(NO_ALARM, offers[k].value)))
  {
    var m := Run(frameCount, rng, elapsed, s.(delay := NO_ALARM), |s.tracks|).delay;
    RunOffers(frameCount, rng, elapsed, s);
    LeastOffer(m, NO_ALARM, Offers(frameCount, rng, elapsed, s));
  }

  /** RunDelay over the whole loop, read through Offers. */
  lemma RunOffers(frameCount: int, rng: nat -> nat, elapsed: int, s: Scene)
    requires ValidScene(s, frameCount)
    ensures var m := Run(frameCount, rng, elapsed, s.(delay := NO_ALARM), |s.tracks|).delay;
      var offers := Offers(frameCount, rng, elapsed, s);
      && m <= NO_ALARM
      && (forall k :: 0 <= k < |offers| && offers[k].Some? ==> m <= offers[k].value)
      && (m == NO_ALARM || exists k :: 0 <= k < |offers| && offers[k] == Some(m))
  {
    var s0 := s.(delay := NO_ALARM);
    var m := Run(frameCount, rng, elapsed, s0, |s.tracks|).delay;
    var offers := Offers(frameCount, rng, elapsed, s);
    RunDelay(frameCount, rng, elapsed, s0, |s.tracks|);
    if m != NO_ALARM {
      var k :| 0 <= k < |s.tracks| && TurnAt(frameCount, rng, elapsed, s0, k).offer == Some(m);
      assert offers[k] == Some(m);
    }
  }

  /** Offer k is a value, and no offer is smaller. */
  predicate IsLeast(offers: seq<Option<int>>, k: nat)
    requires k < |offers|
  {
    offers[k].Some? && forall j :: 0 <= j < |offers| && offers[j].Some? ==> offers[k].value <= offers[j].value
  }

  /** The running minimum of a start value and some offers equals the least
      offer taken below the start. */
  lemma LeastOffer(m: int, start: int, offers: seq<Option<int>>)
    requires m <= start
    requires forall k :: 0 <= k < |offers| && offers[k].Some? ==> m <= offers[k].value
    requires m == start || exists k :: 0 <= k < |offers| && offers[k] == Some(m)
    ensures forall k :: 0 <= k < |offers| && IsLeast(offers, k) ==> m == Lower(start, offers[k].value)
  {
  }

  // ---------------------------------------------------------------------
  // The Animation object

  /** The tracks Animation's constructor builds from the descriptor arrays,
      in order; the k-th Frame constructor makes the k-th draw. */
  function InitialTracks(descriptors: seq<seq<int>>, rng: nat -> nat): (r: seq<Track>)
    requires forall k :: 0 <= k < |descriptors| ==> IsDescriptorArray(descriptors[k])
    requires forall k :: 0 <= k < |descriptors| ==> DescriptorOf(descriptors[k]).randomRestartRate != -1
    ensures |r| == |descriptors|
    ensures forall k :: 0 <= k < |r| ==> r[k] == NewTrack(DescriptorOf(descriptors[k]), Draw(rng, k, DRAW_BOUND))
  {
    seq(|descriptors|, k requires 0 <= k < |descriptors| => NewTrack(DescriptorOf(descriptors[k]), Draw(rng, k, DRAW_BOUND)))
  }

  /** `boolean first = true; for (String res : ...) { if (first) {...} else ... }`:
      the first name of the race's lookup table names the content, every
      later one a track descriptor, in table order. */
  method SplitTable<T>(table: seq<T>) returns (head: Option<T>, rest: seq<T>)
    ensures table == [] ==> head == None && rest == []
    ensures table != [] ==> head == Some(table[0]) && rest == table[1..]
  {
    head, rest := None, [];
    var first := true;
    for i := 0 to |table|
      invariant first <==> i == 0
      invariant i > 0 ==> head == Some(table[0]) && rest == table[1..i]
      invariant i == 0 ==> head == None && rest == []
    {
      if first {
        head := Some(table[i]);
        first := false;
      } else {
        rest := rest + [table[i]];
      }
    }
  }

  class Animation {
    /** content.frame: the frames of the selected content pack. */
    const content: seq<Sprite>
    /** The stream behind `rand`. */
    const rng: nat -> nat
    /** this.frame, one track per descriptor. */
    const tracks: array<Track>
    var activeMask: bv32
    var lastTime: int
    var nextFrameDelay: int
    /** How many values `rand` has handed out. */
    var drawn: nat
    /** The picture: frame 0 of the content pack with these frames stamped
        over it in order. */
    var stamps: seq<int>

    ghost predicate Valid()
      reads this, tracks
    {
      |content| >= 1 && ValidScene(State(), |content|)
    }

    function State(): Scene
      reads this, tracks
    {
      Scene(tracks[..], activeMask, drawn, stamps, nextFrameDelay)
    }

    /** Animation(alien_race, c) once the lookup table is split: `content`
        is the content pack's frames, `descriptors` the integer arrays of the
        tracks, `now` the clock when the object is created. */
    constructor(content: seq<Sprite>, descriptors: seq<seq<int>>, rng: nat -> nat, now: int)
      requires |content| >= 1
      requires forall k :: 0 <= k < |descriptors| ==> IsDescriptorArray(descriptors[k])
      requires forall k :: 0 <= k < |descriptors| ==> DescriptorOf(descriptors[k]).randomRestartRate != -1
      ensures this.content == content && this.rng == rng && fresh(tracks)
      ensures State() == Scene(InitialTracks(descriptors, rng), 0, |descriptors|, [], 0)
      ensures lastTime == now
      ensures Valid() <==> forall k :: 0 <= k < |descriptors| ==> WellFormed(DescriptorOf(descriptors[k]), |content|)
    {
      this.content := content;
      this.rng := rng;
      this.activeMask := 0;
      this.lastTime := now;
      this.nextFrameDelay := 0;
      this.stamps := [];
      var frames := new Track[|descriptors|](_ => Track(Descriptor(0, 1, 0, 0, 0, 0, 0, 0), Up, 0, 0));
      for k := 0 to |descriptors|
        invariant forall j :: 0 <= j < k ==> frames[j] == NewTrack(DescriptorOf(descriptors[j]), Draw(rng, j, DRAW_BOUND))
      {
        var d := DescriptorOf(descriptors[k]);
        frames[k] := NewTrack(d, Draw(rng, k, DRAW_BOUND));
      }
      this.tracks := frames;
      this.drawn := |descriptors|;
      new;
      assert tracks[..] == InitialTracks(descriptors, rng);
      forall k | 0 <= k < |descriptors|
        ensures ValidTrack(tracks[k], |content|) <==> WellFormed(DescriptorOf(descriptors[k]), |content|)
      {
        if WellFormed(DescriptorOf(descriptors[k]), |content|) {
          NewTrackSpec(DescriptorOf(descriptors[k]), |content|, Draw(rng, k, DRAW_BOUND));
        }
      }
    }

    /** `rand.nextInt(bound)`. */
    method NextInt(bound: int) returns (r: int)
      requires bound > 0
      modifies this`drawn
      ensures r == Draw(rng, old(drawn), bound) && drawn == old(drawn) + 1
    {
      r := Draw(rng, drawn, bound);
      drawn := drawn + 1;
    }

    /** Frame.randomFrameRate(). */
    method RandomFrameRate(d: Descriptor) returns (r: int)
      requires d.randomFrameRate != -1
      modifies this`drawn
      ensures r == FrameRate(d, Draw(rng, old(drawn), DRAW_BOUND)) && drawn == old(drawn) + 1
    {
      var x := NextInt(DRAW_BOUND);
      r := 1 + d.baseFrameRate + JavaRem(x, d.randomFrameRate + 1);
    }

    /** Frame.randomRestartRate(). */
    method RandomRestartRate(d: Descriptor) returns (r: int)
      requires d.randomRestartRate != -1
      modifies this`drawn
      ensures r == RestartRate(d, Draw(rng, old(drawn), DRAW_BOUND)) && drawn == old(drawn) + 1
    {
      var x := NextInt(DRAW_BOUND);
      r := 1 + d.baseRestartRate + JavaRem(x, d.randomRestartRate + 1);
    }

    /** The policy branch of getFrame for a track that has just stamped. */
    method Move(f: Track, bit: bv32) returns (g: Track)
      requires ValidTrack(f, |content|)
      modifies this`activeMask, this`drawn
      ensures var m := Advance(f, |content|, bit, old(activeMask), rng, old(drawn));
        g == m.track && activeMask == m.active && drawn == m.drawn
    {
      if COLORXFORM_ANIM == f.desc.animFlags & COLORXFORM_ANIM {
        activeMask := activeMask & !bit;
        g := f.(alarm := 0);
      } else if YOYO_ANIM == f.desc.animFlags & YOYO_ANIM {
        g := MoveYoyo(f, bit);
      } else if CIRCULAR_ANIM == f.desc.animFlags & CIRCULAR_ANIM {
        g := MoveCircular(f, bit);
      } else if RANDOM_ANIM == f.desc.animFlags & RANDOM_ANIM {
        var x := NextInt(f.desc.numFrames);
        g := f.(curIndex := f.desc.startIndex + x);
        activeMask := activeMask & !bit;
      } else {
        g := f;
      }
    }

    /** The YOYO_ANIM branch of Move. */
    method MoveYoyo(f: Track, bit: bv32) returns (g: Track)
      requires ValidTrack(f, |content|) && PolicyOf(f.desc.animFlags) == Yoyo
      modifies this`activeMask, this`drawn
      ensures var m := Advance(f, |content|, bit, old(activeMask), rng, old(drawn));
        g == m.track && activeMask == m.active && drawn == m.drawn
    {
      AdvanceYoyo(f, |content|, bit, activeMask, rng, drawn);
      g := f;
      var numFrames := f.desc.numFrames - 1;
      if g.dir == Up {
        g := g.(curIndex := g.curIndex + 1);
        if g.curIndex > g.desc.startIndex + numFrames {
          g := g.(dir := Down, curIndex := g.desc.startIndex + numFrames);
        }
      } else if g.dir == Down {
        g := g.(curIndex := g.curIndex - 1);
        if g.curIndex < g.desc.startIndex {
          var alarm := RandomRestartRate(g.desc);
          g := g.(dir := Up, curIndex := g.desc.startIndex, alarm := alarm);
          activeMask := activeMask & !bit;
        }
      }
    }

    /** The CIRCULAR_ANIM branch of Move. */
    method MoveCircular(f: Track, bit: bv32) returns (g: Track)
      requires ValidTrack(f, |content|) && PolicyOf(f.desc.animFlags) == Circular
      modifies this`activeMask, this`drawn
      ensures var m := Advance(f, |content|, bit, old(activeMask), rng, old(drawn));
        g == m.track && activeMask == m.active && drawn == m.drawn
    {
      var numFrames := f.desc.numFrames - 1;
      g := f.(curIndex := f.curIndex + 1);
      if g.curIndex > g.desc.startIndex + numFrames {
        var alarm := RandomRestartRate(g.desc);
        g := g.(curIndex := g.desc.startIndex, alarm := alarm);
        activeMask := activeMask & !bit;
      }
    }

    /** The body of getFrame's loop for track i; each branch that ends in
        `continue` in the loop is a method of its own here. */
    method TakeTurnAt(i: nat, elapsed: int)
      requires Valid() && i < tracks.Length
      modifies tracks, this`activeMask, this`drawn, this`stamps, this`nextFrameDelay
      ensures State() == StepTrack(|content|, rng, elapsed, old(State()), i)
    {
      if tracks[i].alarm > elapsed {
        CountDown(i, elapsed);
      } else if activeMask & tracks[i].desc.blockMask != 0 {
        Restart(i, elapsed);
      } else {
        Stamp(i, elapsed);
      }
    }

    /** `f.Alarm -= ElapsedTicks` and the offer to next_frame_delay. */
    method CountDown(i: nat, elapsed: int)
      requires Valid() && i < tracks.Length && tracks[i].alarm > elapsed
      modifies tracks, this`nextFrameDelay
      ensures State() == StepTrack(|content|, rng, elapsed, old(State()), i)
    {
      var f := tracks[i];
      WaitingTurn(f, |content|, rng, elapsed, ActiveBit(i), activeMask, drawn);
      f := f.(alarm := f.alarm - elapsed);
      tracks[i] := f;
      if f.alarm < nextFrameDelay {
        nextFrameDelay := f.alarm;
      }
    }

    /** A blocked track: `f.Alarm = f.randomRestartRate()`. */
    method Restart(i: nat, elapsed: int)
      requires Valid() && i < tracks.Length && tracks[i].alarm <= elapsed
      requires activeMask & tracks[i].desc.blockMask != 0
      modifies tracks, this`drawn
      ensures State() == StepTrack(|content|, rng, elapsed, old(State()), i)
    {
      var f := tracks[i];
      BlockedTurn(f, |content|, rng, elapsed, ActiveBit(i), activeMask, drawn);
      var alarm := RandomRestartRate(f.desc);
      tracks[i] := f.(alarm := alarm);
    }

    /** A track that is due and not blocked: set its bit, stamp its frame,
        draw its frame rate and move it. */
    method Stamp(i: nat, elapsed: int)
      requires Valid() && i < tracks.Length && tracks[i].alarm <= elapsed
      requires activeMask & tracks[i].desc.blockMask == 0
      modifies tracks, this`activeMask, this`drawn, this`stamps, this`nextFrameDelay
      ensures State() == StepTrack(|content|, rng, elapsed, old(State()), i)
    {
      var f := tracks[i];
      ghost var s := State();
      var bit := ActiveBit(i);
      activeMask := activeMask | bit;
      f := StampFrame(f);
      StampStep(|content|, rng, elapsed, s, i, bit, f, activeMask, drawn);
      f := Move(f, bit);
      tracks[i] := f;
    }

    /** DrawStamp and the frame-rate alarm of a track that is due and not
        blocked. */
    method StampFrame(f: Track) returns (g: Track)
      requires f.desc.randomFrameRate != -1
      modifies this`stamps, this`drawn, this`nextFrameDelay
      ensures g == f.(alarm := FrameRate(f.desc, Draw(rng, old(drawn), DRAW_BOUND)))
      ensures stamps == old(stamps) + [f.curIndex] && drawn == old(drawn) + 1
      ensures nextFrameDelay == Lower(old(nextFrameDelay), g.alarm)
    {
      stamps := stamps + [f.curIndex];
      var alarm := RandomFrameRate(f.desc);
      g := f.(alarm := alarm);
      if g.alarm < nextFrameDelay {
        nextFrameDelay := g.alarm;
      }
    }

    /** getFrame(): one pass over the tracks in index order, then the clamp
        of next_frame_delay; it returns the picture. */
    method GetFrame(now: int) returns (picture: seq<int>)
      requires Valid() && now >= lastTime
      modifies this, tracks
      ensures Valid()
      ensures State() == Tick(|content|, rng, now - old(lastTime), old(State()))
      ensures lastTime == now && picture == stamps
    {
      var elapsed := now - lastTime;
      ghost var s0 := State().(delay := NO_ALARM);
      nextFrameDelay := NO_ALARM;
      lastTime := now;
      for i := 0 to tracks.Length
        invariant Valid() && State() == Run(|content|, rng, elapsed, s0, i)
        invariant lastTime == now
      {
        TakeTurnAt(i, elapsed);
      }
      ghost var r := State();
      if nextFrameDelay < FRAME_RATE || nextFrameDelay == NO_ALARM {
        nextFrameDelay := FRAME_RATE;
      }
      assert State() == r.(delay := Clamp(r.delay));
      picture := stamps;
    }
  }
}
