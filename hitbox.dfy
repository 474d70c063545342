/** One activation target of the first puzzle: a circle whose collision state is
    set by a square hit test and cleared lazily, by the draw sweep, once its
    duration has passed. */
module Hitboxes {
  import opened Options
  import opened Geometry
  import opened Movement

  /** Everything about a hitbox that its logic reads or writes. */
  datatype HitboxState = HitboxState(
    visible: bool,
    collidable: bool,
    pos: Point,
    collisionTime: Option<int>,
    duration: int,
    collided: bool)

  /** A freshly built hitbox: visible, not collidable, never hit. */
  function NewHitbox(pos: Point, duration: int): HitboxState
  {
    HitboxState(true, false, pos, None, duration, false)
  }

  /** The hit test of `check_collision`: both flags set and the player's point
      in the closed collision square. */
  predicate Touches(s: HitboxState, p: Point)
  {
    s.visible && s.collidable && InSquare(p, s.pos)
  }

  /** The timeout test of `draw`. The last tick is tested for truthiness, so a hit
      recorded at tick 0 never times out; the comparison is strict. */
  predicate Expired(s: HitboxState, now: int)
  {
    s.visible && s.collisionTime.Some? && s.collisionTime.value != 0 &&
    now - s.collisionTime.value > s.duration
  }

  /** The timeout part of `draw(now)`. */
  function Sweep(s: HitboxState, now: int): HitboxState
  {
    if Expired(s, now) then s.(collisionTime := None, collided := false) else s
  }

  /** The state a hit leaves: the tick is overwritten with `now`, the colour update
      runs the draw sweep at the same tick, then the collided flag is set. */
  function AfterHit(s: HitboxState, now: int): HitboxState
  {
    Sweep(s.(collisionTime := Some(now)), now).(collided := true)
  }

  /** The draw sweep applied at each tick of `times`, in order. */
  function SweepMany(s: HitboxState, times: seq<int>): HitboxState
    decreases |times|
  {
    if |times| == 0 then s else SweepMany(Sweep(s, times[0]), times[1..])
  }

  /** A last tick is recorded exactly while the hitbox counts as collided. */
  predicate Consistent(s: HitboxState)
  {
    s.collided <==> s.collisionTime.Some?
  }

  /** Every hit refreshes the tick, also on a hitbox that is already collided; for a
      non-negative duration the sweep inside the hit changes nothing. */
  lemma HitRecordsNow(s: HitboxState, now: int)
    requires s.duration >= 0
    ensures AfterHit(s, now) == s.(collisionTime := Some(now), collided := true)
  {
  }

  /** The timeout is strict: at most `duration` ticks after a hit at a non-zero tick
      a visible hitbox is left as it is, one tick more clears both timer fields. */
  lemma TimeoutIsStrict(s: HitboxState, now: int)
    requires s.visible && s.collisionTime.Some? && s.collisionTime.value != 0
    ensures now - s.collisionTime.value <= s.duration ==> Sweep(s, now) == s
    ensures now - s.collisionTime.value > s.duration ==>
      Sweep(s, now) == s.(collisionTime := None, collided := false)
  {
  }

  /** The sweep never touches anything but the two timer fields, and only clears them. */
  lemma SweepOnlyClears(s: HitboxState, now: int)
    ensures Sweep(s, now).(collisionTime := s.collisionTime, collided := s.collided) == s
    ensures Sweep(s, now) == s || (Sweep(s, now).collisionTime == None && !Sweep(s, now).collided)
    ensures Sweep(Sweep(s, now), now) == Sweep(s, now)
  {
  }

  /** A hitbox that is hidden, was never hit, or was hit at tick 0 is never changed
      by later sweeps, at any ticks: the last case is the truthiness quirk of `draw`,
      which keeps such a hitbox collided until it is hit again. */
  lemma {:induction false} NeverExpires(s: HitboxState, times: seq<int>)
    requires !s.visible || s.collisionTime == None || s.collisionTime == Some(0)
    ensures SweepMany(s, times) == s
    decreases |times|
  {
    if |times| > 0 {
      assert Sweep(s, times[0]) == s;
      NeverExpires(s, times[1..]);
    }
  }

  /** After a hit at non-zero tick `t`, a visible hitbox swept at the ticks `times`
      (in any order) is still collided exactly when none of them is more than
      `duration` after `t`; otherwise it has gone back to the never-hit timer state. */
  lemma {:induction false} SweepsAfterHit(s: HitboxState, t: int, times: seq<int>)
    requires s.visible && s.collisionTime == Some(t) && t != 0 && s.collided
    ensures SweepMany(s, times).collided <==>
      forall i :: 0 <= i < |times| ==> times[i] - t <= s.duration
    ensures SweepMany(s, times) == s ||
      SweepMany(s, times) == s.(collisionTime := None, collided := false)
    decreases |times|
  {
    if |times| > 0 {
      if times[0] - t > s.duration {
        var cleared := s.(collisionTime := None, collided := false);
        assert Sweep(s, times[0]) == cleared;
        NeverExpires(cleared, times[1..]);
      } else {
        assert Sweep(s, times[0]) == s;
        SweepsAfterHit(s, t, times[1..]);
        assert forall i :: 1 <= i < |times| ==> times[i] == times[1..][i - 1];
      }
    }
  }

  /** Unless the duration is negative, every operation keeps the tick recorded
      exactly while the hitbox is collided. */
  lemma ConsistencyKept(s: HitboxState, now: int, b: bool)
    ensures Consistent(NewHitbox(s.pos, s.duration))
    ensures Consistent(s) ==> Consistent(Sweep(s, now))
    ensures Consistent(s) ==> Consistent(s.(collidable := b)) && Consistent(s.(visible := b))
    ensures s.duration >= 0 ==> Consistent(AfterHit(s, now))
  {
  }

  /** With a negative duration a hit at a non-zero tick clears its own tick during
      the colour update and still sets the collided flag, leaving a hitbox that no
      later sweep clears. */
  lemma NegativeDurationSticks(s: HitboxState, now: int, times: seq<int>)
    requires s.visible && s.duration < 0 && now != 0
    ensures AfterHit(s, now).collided && AfterHit(s, now).collisionTime == None
    ensures SweepMany(AfterHit(s, now), times) == AfterHit(s, now)
  {
    NeverExpires(AfterHit(s, now), times);
  }

  class PuzzleHitbox {
    var visibility: bool
    var collidability: bool
    const position: Point
    var collisionTime: Option<int>
    /** Difficulty multiplier times difficulty, in milliseconds. */
    const collisionDuration: int
    var isCurrentlyCollided: bool

    function View(): HitboxState
      reads this
    {
      HitboxState(visibility, collidability, position, collisionTime,
                  collisionDuration, isCurrentlyCollided)
    }

    constructor (pos: Point, duration: int)
      ensures View() == NewHitbox(pos, duration)
    {
      visibility := true;
      collidability := false;
      position := pos;
      collisionTime := None;
      collisionDuration := duration;
      isCurrentlyCollided := false;
    }

    /** `check_collision` at tick `now`: a hit records the tick, runs the colour
        update (whose draw applies the sweep) and marks the hitbox collided. */
    method CheckCollision(player: Player, now: int) returns (hit: bool)
      modifies this
      ensures hit == Touches(old(View()), player.position)
      ensures View() == if hit then AfterHit(old(View()), now) else old(View())
    {
      if visibility && collidability && InSquare(player.position, position) {
        collisionTime := Some(now);
        Draw(now);
        isCurrentlyCollided := true;
        hit := true;
      } else {
        hit := false;
      }
    }

    /** The logic of `draw(now)`: the lazy timeout; the circles drawn are left out. */
    method Draw(now: int)
      modifies this
      ensures View() == Sweep(old(View()), now)
    {
      if visibility && collisionTime.Some? && collisionTime.value != 0 &&
         now - collisionTime.value > collisionDuration {
        collisionTime := None;
        isCurrentlyCollided := false;
      }
    }

    method SetVisibility(visibility: bool)
      modifies this
      ensures View() == old(View()).(visible := visibility)
    {
      this.visibility := visibility;
    }

    method SetCollidability(collidability: bool)
      modifies this
      ensures View() == old(View()).(collidable := collidability)
    {
      this.collidability := collidability;
    }
  }
}
