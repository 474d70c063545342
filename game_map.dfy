/** The scene of the first puzzle (`GameMapPuzzle1`): it owns the player and the
    hitbox set, runs one collision scan and one draw sweep per frame, and reports
    completion upward. */
module PuzzleScene {
  import opened Options
  import opened Geometry
  import opened Movement
  import opened Hitboxes
  import opened Placement
  import opened HitboxSet

  /** What one frame reads from outside: the player's point and the tick. */
  datatype FrameInput = FrameInput(player: Point, now: int)

  /** `draw_hitboxes` on states: the collision scan, then (when the set is visible)
      the timeout sweep of every hitbox, at one tick. */
  function Frame(ss: seq<HitboxState>, p: Point, now: int, visible: bool): (r: seq<HitboxState>)
    ensures |r| == |ss|
  {
    var scanned := Scan(ss, p, now);
    if visible then SweepAll(scanned, now) else scanned
  }

  /** The frames of `inputs`, in order. */
  function Frames(ss: seq<HitboxState>, inputs: seq<FrameInput>, visible: bool): (r: seq<HitboxState>)
    ensures |r| == |ss|
    decreases |inputs|
  {
    if |inputs| == 0 then ss
    else Frames(Frame(ss, inputs[0].player, inputs[0].now, visible), inputs[1..], visible)
  }

  function Ticks(inputs: seq<FrameInput>): seq<int>
  {
    seq(|inputs|, i requires 0 <= i < |inputs| => inputs[i].now)
  }

  /** The two lists hold the same hitboxes apart from their timer fields. */
  predicate SameLayout(a: seq<HitboxState>, b: seq<HitboxState>)
  {
    |a| == |b| &&
    forall i :: 0 <= i < |a| ==>
      a[i].visible == b[i].visible && a[i].collidable == b[i].collidable &&
      a[i].pos == b[i].pos && a[i].duration == b[i].duration
  }

  /** A frame changes only timer fields, so what can be hit and where stays put. */
  lemma {:induction false} FrameKeepsLayout(ss: seq<HitboxState>, p: Point, now: int, visible: bool)
    ensures SameLayout(Frame(ss, p, now, visible), ss)
  {
    ScanEffect(ss, p, now);
  }

  /** The hitbox a frame hits always ends the frame collided; with a non-negative
      duration its tick is the frame's tick. */
  lemma {:induction false} FrameOnHit(ss: seq<HitboxState>, p: Point, now: int, visible: bool, k: nat)
    requires FirstHit(ss, p) == Some(k)
    ensures Frame(ss, p, now, visible)[k].collided
    ensures ss[k].duration >= 0 ==>
      Frame(ss, p, now, visible)[k] == ss[k].(collisionTime := Some(now), collided := true)
  {
    ScanEffect(ss, p, now);
  }

  /** After a frame the puzzle is solved exactly when every hitbox is the one the
      frame hit, or was collided before and has not timed out at this tick. A
      single timed-out hitbox therefore keeps the puzzle unsolved. */
  lemma {:induction false} SolvedAfterFrame(ss: seq<HitboxState>, p: Point, now: int)
    ensures Solved(Frame(ss, p, now, true)) <==>
      forall i :: 0 <= i < |ss| ==>
        FirstHit(ss, p) == Some(i) || (ss[i].collided && !Expired(ss[i], now))
  {
    ScanEffect(ss, p, now);
    var r := Frame(ss, p, now, true);
    forall i | 0 <= i < |ss|
      ensures r[i].collided <==> FirstHit(ss, p) == Some(i) || (ss[i].collided && !Expired(ss[i], now))
    {
      if FirstHit(ss, p) == Some(i) {
        FrameOnHit(ss, p, now, true, i);
      } else {
        assert r[i] == Sweep(ss[i], now);
      }
    }
  }

  lemma {:induction false} FramesSplit(ss: seq<HitboxState>, a: seq<FrameInput>, b: seq<FrameInput>, visible: bool)
    ensures Frames(ss, a + b, visible) == Frames(Frames(ss, a, visible), b, visible)
    decreases |a|
  {
    if |a| == 0 {
      assert a + b == b;
    } else {
      assert (a + b)[0] == a[0] && (a + b)[1..] == a[1..] + b;
      FramesSplit(Frame(ss, a[0].player, a[0].now, visible), a[1..], b, visible);
    }
  }

  /** A hitbox that no frame's point touches only sees the timeout sweeps. */
  lemma {:induction false} FramesMiss(ss: seq<HitboxState>, inputs: seq<FrameInput>, i: nat)
    requires i < |ss|
    requires forall j :: 0 <= j < |inputs| ==> !Touches(ss[i], inputs[j].player)
    ensures Frames(ss, inputs, true)[i] == SweepMany(ss[i], Ticks(inputs))
    decreases |inputs|
  {
    if |inputs| > 0 {
      var next := Frame(ss, inputs[0].player, inputs[0].now, true);
      ScanEffect(ss, inputs[0].player, inputs[0].now);
      assert next[i] == Sweep(ss[i], inputs[0].now);
      assert forall j :: 0 <= j < |inputs[1..]| ==> inputs[1..][j] == inputs[j + 1];
      FramesMiss(next, inputs[1..], i);
      assert Ticks(inputs)[0] == inputs[0].now && Ticks(inputs)[1..] == Ticks(inputs[1..]);
    }
  }

  /** Frames never change the layout. */
  lemma {:induction false} FramesKeepLayout(ss: seq<HitboxState>, inputs: seq<FrameInput>, visible: bool)
    ensures SameLayout(Frames(ss, inputs, visible), ss)
    decreases |inputs|
  {
    if |inputs| > 0 {
      var next := Frame(ss, inputs[0].player, inputs[0].now, visible);
      FrameKeepsLayout(ss, inputs[0].player, inputs[0].now, visible);
      FramesKeepLayout(next, inputs[1..], visible);
    }
  }

  /** Standing in hitbox `k` keeps it active for as long as the contact lasts,
      however long that is: every frame refreshes its tick. */
  lemma {:induction false} HeldContactKeepsActive(ss: seq<HitboxState>, k: nat, inputs: seq<FrameInput>, visible: bool)
    requires k < |ss| && Spaced(Centres(ss), MinDistance)
    requires ss[k].visible && ss[k].collidable && ss[k].duration >= 0
    requires |inputs| > 0 && forall j :: 0 <= j < |inputs| ==> InSquare(inputs[j].player, ss[k].pos)
    ensures Frames(ss, inputs, visible)[k] ==
      ss[k].(collisionTime := Some(inputs[|inputs| - 1].now), collided := true)
    decreases |inputs|
  {
    var p := inputs[0].player;
    var next := Frame(ss, p, inputs[0].now, visible);
    SpacedHitIsUnique(ss, p);
    FrameOnHit(ss, p, inputs[0].now, visible, k);
    if |inputs| > 1 {
      FrameKeepsLayout(ss, p, inputs[0].now, visible);
      assert Centres(next) == Centres(ss);
      HeldContactKeepsActive(next, k, inputs[1..], visible);
    }
  }

  /** The tour that solves the puzzle: frame `i` puts the player in hitbox `i`, at
      non-decreasing ticks. Afterwards the puzzle is solved exactly when no hitbox
      was touched more than its duration before the last frame; a hitbox touched
      at tick 0 counts as never timing out. */
  lemma {:induction false} TourSolves(ss: seq<HitboxState>, inputs: seq<FrameInput>)
    requires |inputs| == |ss| > 0 && Spaced(Centres(ss), MinDistance)
    requires forall i :: 0 <= i < |ss| ==> ss[i].visible && ss[i].collidable && ss[i].duration >= 0
    requires forall i :: 0 <= i < |ss| ==> InSquare(inputs[i].player, ss[i].pos)
    requires forall i, j :: 0 <= i < j < |inputs| ==> inputs[i].now <= inputs[j].now
    ensures Solved(Frames(ss, inputs, true)) <==>
      forall i :: 0 <= i < |ss| ==>
        inputs[i].now == 0 || inputs[|ss| - 1].now - inputs[i].now <= ss[i].duration
  {
    var n := |ss|;
    var last := inputs[n - 1].now;
    forall i | 0 <= i < n
      ensures Frames(ss, inputs, true)[i].collided <==>
        (inputs[i].now == 0 || last - inputs[i].now <= ss[i].duration)
    {
      TourTarget(ss, inputs, i);
    }
  }

  lemma {:induction false} TourTarget(ss: seq<HitboxState>, inputs: seq<FrameInput>, i: nat)
    requires |inputs| == |ss| > 0 && Spaced(Centres(ss), MinDistance)
    requires forall i :: 0 <= i < |ss| ==> ss[i].visible && ss[i].collidable && ss[i].duration >= 0
    requires forall i :: 0 <= i < |ss| ==> InSquare(inputs[i].player, ss[i].pos)
    requires forall i, j :: 0 <= i < j < |inputs| ==> inputs[i].now <= inputs[j].now
    requires i < |ss|
    ensures Frames(ss, inputs, true)[i].collided <==>
      (inputs[i].now == 0 || inputs[|ss| - 1].now - inputs[i].now <= ss[i].duration)
  {
    var h := TourHit(ss, inputs, i);
    TailTicks(inputs, i);
    SweepsFromTick(h, inputs[i].now, Ticks(inputs[i + 1..]), inputs[|ss| - 1].now);
  }

  /** On such a tour hitbox `i` is hit at frame `i`, giving `h`, and then only swept. */
  lemma {:induction false} TourHit(ss: seq<HitboxState>, inputs: seq<FrameInput>, i: nat)
    returns (h: HitboxState)
    requires |inputs| == |ss| && Spaced(Centres(ss), MinDistance)
    requires forall i :: 0 <= i < |ss| ==> ss[i].visible && ss[i].collidable && ss[i].duration >= 0
    requires forall i :: 0 <= i < |ss| ==> InSquare(inputs[i].player, ss[i].pos)
    requires i < |ss|
    ensures h.visible && h.collisionTime == Some(inputs[i].now) && h.collided
    ensures h.duration == ss[i].duration
    ensures Frames(ss, inputs, true)[i] == SweepMany(h, Ticks(inputs[i + 1..]))
  {
    var t := inputs[i].now;
    var before, rest := inputs[..i], inputs[i + 1..];
    assert inputs == before + [inputs[i]] + rest;
    FramesSplit(ss, before + [inputs[i]], rest, true);
    FramesSplit(ss, before, [inputs[i]], true);
    var s := Frames(ss, before, true);
    FramesKeepLayout(ss, before, true);
    assert Centres(s) == Centres(ss);
    assert Frames(s, [inputs[i]], true) == Frame(s, inputs[i].player, t, true);
    LaterFramesMiss(ss, inputs, i);
    assert forall j :: 0 <= j < |rest| ==> rest[j] == inputs[i + 1 + j];
    TouchThenSweeps(s, i, inputs[i].player, t, rest);
    h := s[i].(collisionTime := Some(t), collided := true);
  }

  /** The ticks after frame `i` of a non-decreasing run lie between its tick and
      the last one, and end with the last one. */
  lemma {:induction false} TailTicks(inputs: seq<FrameInput>, i: nat)
    requires i < |inputs|
    requires forall a, b :: 0 <= a < b < |inputs| ==> inputs[a].now <= inputs[b].now
    ensures var ticks := Ticks(inputs[i + 1..]);
      (forall j :: 0 <= j < |ticks| ==> inputs[i].now <= ticks[j] <= inputs[|inputs| - 1].now) &&
      (|ticks| == 0 ==> inputs[|inputs| - 1].now == inputs[i].now) &&
      (|ticks| > 0 ==> ticks[|ticks| - 1] == inputs[|inputs| - 1].now)
  {
    var ticks := Ticks(inputs[i + 1..]);
    forall j | 0 <= j < |ticks| ensures inputs[i].now <= ticks[j] <= inputs[|inputs| - 1].now {
      assert ticks[j] == inputs[i + 1 + j].now;
    }
  }

  /** The points of the frames after frame `i` lie in other hitboxes, so not in hitbox `i`. */
  lemma {:induction false} LaterFramesMiss(ss: seq<HitboxState>, inputs: seq<FrameInput>, i: nat)
    requires |inputs| == |ss| && Spaced(Centres(ss), MinDistance) && i < |ss|
    requires forall i :: 0 <= i < |ss| ==> InSquare(inputs[i].player, ss[i].pos)
    ensures forall j :: i < j < |inputs| ==> !InSquare(inputs[j].player, ss[i].pos)
  {
    forall j | i < j < |inputs| ensures !InSquare(inputs[j].player, ss[i].pos) {
      assert Centres(ss)[i] == ss[i].pos && Centres(ss)[j] == ss[j].pos;
      if InSquare(inputs[j].player, ss[i].pos) {
        SharedPointMeansClose(inputs[j].player, ss[i].pos, ss[j].pos);
      }
    }
  }

  /** A frame that touches hitbox `i`, followed by frames whose points stay out of it. */
  lemma {:induction false} TouchThenSweeps(s: seq<HitboxState>, i: nat, p: Point, t: int, rest: seq<FrameInput>)
    requires i < |s| && Spaced(Centres(s), MinDistance)
    requires Touches(s[i], p) && s[i].duration >= 0
    requires forall j :: 0 <= j < |rest| ==> !InSquare(rest[j].player, s[i].pos)
    ensures Frames(Frame(s, p, t, true), rest, true)[i] ==
      SweepMany(s[i].(collisionTime := Some(t), collided := true), Ticks(rest))
  {
    SpacedHitIsUnique(s, p);
    FrameOnHit(s, p, t, true, i);
    var hit := Frame(s, p, t, true);
    FrameKeepsLayout(s, p, t, true);
    FramesMiss(hit, rest, i);
  }

  /** Sweeps at the ticks `ticks`, all between `t` and `last`, the last one being
      `last`, leave a hitbox hit at `t` collided exactly when `t` is 0 or `last`
      is within its duration of `t`. */
  lemma {:induction false} SweepsFromTick(h: HitboxState, t: int, ticks: seq<int>, last: int)
    requires h.visible && h.collisionTime == Some(t) && h.collided && h.duration >= 0
    requires forall j :: 0 <= j < |ticks| ==> t <= ticks[j] <= last
    requires |ticks| == 0 ==> last == t
    requires |ticks| > 0 ==> ticks[|ticks| - 1] == last
    ensures SweepMany(h, ticks).collided <==> (t == 0 || last - t <= h.duration)
  {
    if t == 0 {
      NeverExpires(h, ticks);
    } else {
      SweepsAfterHit(h, t, ticks);
    }
  }

  /** A five-target scenario: hitboxes 200 units apart on a row, touched 500 ms
      apart. Touched from tick 1000 with a 2000 ms duration, the first is at
      exactly 2000 ms when the last is touched; the strict timeout keeps it. */
  lemma {:induction false} ScenarioBoundaryStillSolved()
    ensures var ss := Row(2000);
      Solved(Frames(ss, Tour(1000), true))
  {
    RowFacts(2000);
    TourSolves(Row(2000), Tour(1000));
  }

  /** The same tour with a 1999 ms duration: the first hitbox has timed out. */
  lemma {:induction false} ScenarioTimedOut()
    ensures !Solved(Frames(Row(1999), Tour(1000), true))
  {
    RowFacts(1999);
    TourSolves(Row(1999), Tour(1000));
    assert !(Tour(1000)[4].now - Tour(1000)[0].now <= Row(1999)[0].duration);
  }

  /** Started at tick 0 with a 1999 ms duration, the puzzle is still solved: the
      first hitbox's tick 0 is falsy, so it never times out. */
  lemma {:induction false} ScenarioTickZeroQuirk()
    ensures Solved(Frames(Row(1999), Tour(0), true))
  {
    RowFacts(1999);
    TourSolves(Row(1999), Tour(0));
  }

  /** Five collidable hitboxes at (100 + 200 i, 100). */
  function Row(duration: int): seq<HitboxState>
  {
    seq(5, i requires 0 <= i < 5 =>
      HitboxState(true, true, Point(100 + 200 * i, 100), None, duration, false))
  }

  /** Frame i stands on hitbox i at tick start + 500 i. */
  function Tour(start: int): seq<FrameInput>
  {
    seq(5, i requires 0 <= i < 5 => FrameInput(Point(100 + 200 * i, 100), start + 500 * i))
  }

  lemma {:induction false} RowFacts(duration: int)
    requires duration >= 0
    ensures Spaced(Centres(Row(duration)), MinDistance)
  {
    var c := Centres(Row(duration));
    forall i, j | 0 <= i < j < |c| ensures Dist2(c[i], c[j]) >= MinDistance * MinDistance {
      var d := 200 * (i - j);
      assert c[i].x - c[j].x == d && c[i].y == c[j].y;
      assert d * d >= 40000;
    }
  }

  class GameMap {
    var visibility: bool
    const player: Player
    const generator: HitboxGenerator

    ghost predicate Valid()
      reads this, generator
    {
      generator.Valid()
    }

    /** Builds the hitbox set (laid out from `cands`) and runs one frame. */
    constructor (player: Player, numHitboxes: nat, duration: int, fittsOk: (Point, Point) -> bool,
                 cands: seq<Point>, now: int)
      ensures Valid() && visibility && this.player == player && fresh(generator)
      ensures !generator.collidability && generator.visibility
      ensures generator.Positions() == Place([], numHitboxes, cands, MinDistance, fittsOk)
      ensures generator.States() == FreshStates(generator.Positions(), duration)
      ensures generator.numHitboxes == numHitboxes && generator.collisionDuration == duration
      ensures generator.fittsOk == fittsOk
      ensures forall i :: 0 <= i < |generator.hitboxes| ==> fresh(generator.hitboxes[i])
    {
      visibility := true;
      this.player := player;
      generator := new HitboxGenerator(numHitboxes, duration, fittsOk, cands, now);
      new;
      ghost var fresh0 := generator.States();
      FreshStatesIdle(generator.Positions(), duration, player.position, now);
      assert Frame(fresh0, player.position, now, true) == fresh0;
      DrawHitboxes(now);
    }

    /** `draw_hitboxes`: one frame at tick `now`. */
    method DrawHitboxes(now: int)
      requires Valid()
      modifies generator.hitboxes
      ensures Valid()
      ensures generator.States() ==
        Frame(old(generator.States()), player.position, now, generator.visibility)
    {
      var _ := generator.CheckCollision(player, now);
      generator.Draw(now);
    }

    /** `all_hitboxes_collided`. */
    function AllHitboxesCollided(): (r: bool)
      reads this, generator, generator.hitboxes
      ensures r <==> Solved(generator.States())
    {
      generator.CheckAllCollided()
    }

    method SetVisibility(visibility: bool)
      modifies this
      ensures this.visibility == visibility
    {
      this.visibility := visibility;
    }
  }
}
