/** The hitbox set of the first puzzle (`PuzzleHitboxGenerator1`): an ordered list
    of hitboxes with a first-hit collision scan, the timeout sweep, a completion
    query, a collidability broadcast and the placement loop. */
module HitboxSet {
  import opened Options
  import opened Geometry
  import opened Movement
  import opened Hitboxes
  import opened Placement

  /** The index of the first hitbox, in list order, that the player point hits. */
  function FirstHit(ss: seq<HitboxState>, p: Point): (r: Option<nat>)
    ensures r.None? <==> forall i :: 0 <= i < |ss| ==> !Touches(ss[i], p)
    ensures r.Some? ==> r.value < |ss| && Touches(ss[r.value], p) &&
                        forall i :: 0 <= i < r.value ==> !Touches(ss[i], p)
    decreases |ss|
  {
    if |ss| == 0 then None
    else if Touches(ss[0], p) then Some(0)
    else match FirstHit(ss[1..], p)
      case None => None
      case Some(k) => Some(k + 1)
  }

  /** The states after one collision scan: only the first hit hitbox changes. Its
      own hit is followed by the generator's colour update, which sweeps it again. */
  function Scan(ss: seq<HitboxState>, p: Point, now: int): (r: seq<HitboxState>)
    ensures |r| == |ss|
  {
    match FirstHit(ss, p)
    case None => ss
    case Some(k) => ss[k := Sweep(AfterHit(ss[k], now), now)]
  }

  /** The timeout sweep over every hitbox. */
  function SweepAll(ss: seq<HitboxState>, now: int): seq<HitboxState>
  {
    seq(|ss|, i requires 0 <= i < |ss| => Sweep(ss[i], now))
  }

  function WithCollidability(ss: seq<HitboxState>, b: bool): seq<HitboxState>
  {
    seq(|ss|, i requires 0 <= i < |ss| => ss[i].(collidable := b))
  }

  /** Puzzle completion: every hitbox collided at once (vacuous for an empty set). */
  predicate Solved(ss: seq<HitboxState>)
  {
    forall i :: 0 <= i < |ss| ==> ss[i].collided
  }

  function Centres(ss: seq<HitboxState>): seq<Point>
  {
    seq(|ss|, i requires 0 <= i < |ss| => ss[i].pos)
  }

  /** The states of hitboxes just built at the centres `ps`. */
  function FreshStates(ps: seq<Point>, duration: int): seq<HitboxState>
  {
    seq(|ps|, i requires 0 <= i < |ps| => NewHitbox(ps[i], duration))
  }

  /** With centres placed at least `MinDistance` apart no point lies in two
      collision squares, so a hitbox the player touches is the one the first-hit
      scan picks: the short-circuit never skips a second hit. */
  lemma SpacedHitIsUnique(ss: seq<HitboxState>, p: Point)
    requires Spaced(Centres(ss), MinDistance)
    ensures forall i :: 0 <= i < |ss| && Touches(ss[i], p) ==> FirstHit(ss, p) == Some(i)
  {
    forall i | 0 <= i < |ss| && Touches(ss[i], p) ensures FirstHit(ss, p) == Some(i) {
      var k := FirstHit(ss, p).value;
      if k != i {
        assert i > k;
        assert Centres(ss)[k] == ss[k].pos && Centres(ss)[i] == ss[i].pos;
        SharedPointMeansClose(p, ss[k].pos, ss[i].pos);
      }
    }
  }

  /** The scan changes no hitbox other than the first one hit, and that one ends
      collided with the scan's tick when its duration is not negative. */
  lemma ScanEffect(ss: seq<HitboxState>, p: Point, now: int)
    ensures |Scan(ss, p, now)| == |ss|
    ensures FirstHit(ss, p).None? ==> Scan(ss, p, now) == ss
    ensures FirstHit(ss, p).Some? ==>
      var k := FirstHit(ss, p).value;
      (forall i :: 0 <= i < |ss| && i != k ==> Scan(ss, p, now)[i] == ss[i]) &&
      (ss[k].duration >= 0 ==>
        Scan(ss, p, now)[k] == ss[k].(collisionTime := Some(now), collided := true))
  {
  }

  /** Turning collidability off makes every scan a miss and changes nothing;
      turning it on lets exactly the visible hitboxes around the point be hit. */
  lemma BroadcastGates(ss: seq<HitboxState>, p: Point, b: bool, now: int)
    ensures !b ==> FirstHit(WithCollidability(ss, b), p).None? &&
                   Scan(WithCollidability(ss, b), p, now) == WithCollidability(ss, b)
    ensures forall i :: 0 <= i < |ss| ==>
      (Touches(WithCollidability(ss, b)[i], p) <==> b && ss[i].visible && InSquare(p, ss[i].pos))
  {
  }

  /** Hitboxes just built are not collidable, not collided and have no tick, so
      no scan hits them, no sweep changes them and, unless there are none, the
      puzzle is not solved. */
  lemma FreshStatesIdle(ps: seq<Point>, duration: int, p: Point, now: int)
    ensures FirstHit(FreshStates(ps, duration), p).None?
    ensures SweepAll(FreshStates(ps, duration), now) == FreshStates(ps, duration)
    ensures Solved(FreshStates(ps, duration)) <==> |ps| == 0
    ensures Centres(FreshStates(ps, duration)) == ps
  {
    if |ps| > 0 {
      assert !FreshStates(ps, duration)[0].collided;
    }
  }

  /** The layouts that construction and reset build are spaced at `MinDistance`, so
      the results about spaced hitboxes apply to them. */
  lemma BuiltLayoutSpaced(count: nat, cands: seq<Point>, duration: int,
                          fittsOk: (Point, Point) -> bool)
    ensures Spaced(Centres(FreshStates(Place([], count, cands, MinDistance, fittsOk), duration)),
                   MinDistance)
  {
    var ps := Place([], count, cands, MinDistance, fittsOk);
    PlaceKeepsSpacing([], count, cands, MinDistance, fittsOk);
    FreshStatesIdle(ps, duration, Point(0, 0), 0);
  }

  class HitboxGenerator {
    var visibility: bool
    var collidability: bool
    var hitboxes: seq<PuzzleHitbox>
    const numHitboxes: nat
    /** The duration every hitbox gets from the settings. */
    const collisionDuration: int
    /** The Fitts test: true when the movement time from the first centre to the
        second is within the configured maximum. */
    const fittsOk: (Point, Point) -> bool

    /** No hitbox object appears twice in the list. */
    ghost predicate Valid()
      reads this
    {
      forall i, j :: 0 <= i < j < |hitboxes| ==> hitboxes[i] != hitboxes[j]
    }

    function Positions(): (ps: seq<Point>)
      reads this
      ensures |ps| == |hitboxes|
      ensures forall i :: 0 <= i < |hitboxes| ==> ps[i] == hitboxes[i].position
    {
      var hs := hitboxes;
      seq(|hs|, i requires 0 <= i < |hs| => hs[i].position)
    }

    function States(): (ss: seq<HitboxState>)
      reads this, hitboxes
      ensures |ss| == |hitboxes|
      ensures forall i :: 0 <= i < |hitboxes| ==> ss[i] == hitboxes[i].View()
    {
      var hs := hitboxes;
      seq(|hs|, i requires 0 <= i < |hs| reads hs => hs[i].View())
    }

    /** The constructor lays out the hitboxes and draws them twice; on hitboxes
        that were never hit the draws change nothing. */
    constructor (numHitboxes: nat, duration: int, fittsOk: (Point, Point) -> bool,
                 cands: seq<Point>, now: int)
      ensures Valid() && visibility && !collidability
      ensures this.numHitboxes == numHitboxes && collisionDuration == duration
      ensures this.fittsOk == fittsOk
      ensures Positions() == Place([], numHitboxes, cands, MinDistance, fittsOk)
      ensures States() == FreshStates(Positions(), duration)
      ensures forall i :: 0 <= i < |hitboxes| ==> fresh(hitboxes[i])
    {
      visibility := true;
      collidability := false;
      hitboxes := [];
      this.numHitboxes := numHitboxes;
      collisionDuration := duration;
      this.fittsOk := fittsOk;
      new;
      ghost var added := CreateHitboxes(cands);
      assert States() == FreshStates(Positions(), duration);
      FreshStatesIdle(Positions(), duration, Point(0, 0), now);
      Draw(now);
      Draw(now);
    }

    /** `check_collision`: scan in list order and stop at the first hit, which then
        gets the colour update (a draw sweep at the same tick). */
    method CheckCollision(player: Player, now: int) returns (hit: bool)
      requires Valid()
      modifies hitboxes
      ensures hit == FirstHit(old(States()), player.position).Some?
      ensures States() == Scan(old(States()), player.position, now)
    {
      ghost var ss := States();
      var i := 0;
      while i < |hitboxes|
        invariant 0 <= i <= |hitboxes|
        invariant States() == ss
        invariant forall j :: 0 <= j < i ==> !Touches(ss[j], player.position)
      {
        var h := hitboxes[i];
        assert forall j :: 0 <= j < |hitboxes| && j != i ==> hitboxes[j] != h;
        var touched := h.CheckCollision(player, now);
        if touched {
          h.Draw(now);
          assert FirstHit(ss, player.position) == Some(i);
          assert States() == ss[i := Sweep(AfterHit(ss[i], now), now)];
          return true;
        }
        assert States() == ss;
        i := i + 1;
      }
      return false;
    }

    /** `draw`: when the set is visible, the timeout sweep of every hitbox in order. */
    method Draw(now: int)
      requires Valid()
      modifies hitboxes
      ensures States() == if visibility then SweepAll(old(States()), now) else old(States())
    {
      if visibility {
        ghost var ss := States();
        var i := 0;
        while i < |hitboxes|
          invariant 0 <= i <= |hitboxes|
          invariant forall j :: 0 <= j < i ==> hitboxes[j].View() == Sweep(ss[j], now)
          invariant forall j :: i <= j < |hitboxes| ==> hitboxes[j].View() == ss[j]
        {
          hitboxes[i].Draw(now);
          i := i + 1;
        }
      }
    }

    /** `set_collidability`: the set's flag and every current hitbox's flag. */
    method SetCollidability(collidability: bool)
      requires Valid()
      modifies this, hitboxes
      ensures Valid() && hitboxes == old(hitboxes)
      ensures this.collidability == collidability && visibility == old(visibility)
      ensures States() == WithCollidability(old(States()), collidability)
    {
      this.collidability := collidability;
      ghost var ss := States();
      var i := 0;
      while i < |hitboxes|
        invariant 0 <= i <= |hitboxes|
        invariant hitboxes == old(hitboxes) && this.collidability == collidability
        invariant visibility == old(visibility)
        invariant forall j :: 0 <= j < i ==> hitboxes[j].View() == ss[j].(collidable := collidability)
        invariant forall j :: i <= j < |hitboxes| ==> hitboxes[j].View() == ss[j]
      {
        hitboxes[i].SetCollidability(collidability);
        i := i + 1;
      }
    }

    method SetVisibility(visibility: bool)
      modifies this
      ensures this.visibility == visibility && collidability == old(collidability)
      ensures hitboxes == old(hitboxes)
    {
      this.visibility := visibility;
    }

    /** `check_all_collided`: a query with no side effects. */
    function CheckAllCollided(): (r: bool)
      reads this, hitboxes
      ensures r <==> forall i :: 0 <= i < |hitboxes| ==> hitboxes[i].isCurrentlyCollided
    {
      Solved(States())
    }

    /** `hitbox_overlap(c, minDistance)`: true iff no current hitbox centre is
        closer than `minDistance` to `c` (squared distances compared). */
    method HitboxOverlap(c: Point, minDistance: nat) returns (ok: bool)
      ensures ok == FarFromAll(Positions(), c, minDistance)
    {
      var i := 0;
      while i < |hitboxes|
        invariant 0 <= i <= |hitboxes|
        invariant forall j :: 0 <= j < i ==> Dist2(hitboxes[j].position, c) >= minDistance * minDistance
      {
        var dx := hitboxes[i].position.x - c.x;
        var dy := hitboxes[i].position.y - c.y;
        if dx * dx + dy * dy < minDistance * minDistance {
          return false;
        }
        i := i + 1;
      }
      return true;
    }

    /** `create_hitboxes`: for each of `numHitboxes` slots, take candidates until one
        passes the spacing and Fitts tests; the accepted one is appended as a new
        hitbox. When the candidates run out the loop stops. */
    method CreateHitboxes(cands: seq<Point>) returns (ghost added: seq<PuzzleHitbox>)
      requires Valid()
      modifies this
      ensures Valid()
      ensures visibility == old(visibility) && collidability == old(collidability)
      ensures Positions() == Place(old(Positions()), numHitboxes, cands, MinDistance, fittsOk)
      ensures hitboxes == old(hitboxes) + added
      ensures forall j :: 0 <= j < |added| ==> FreshHitbox(added[j])
    {
      ghost var goal := Place(Positions(), numHitboxes, cands, MinDistance, fittsOk);
      added := [];
      var i := 0;
      var k := 0;
      while i < numHitboxes
        invariant 0 <= i <= numHitboxes && 0 <= k <= |cands|
        invariant Valid()
        invariant visibility == old(visibility) && collidability == old(collidability)
        invariant hitboxes == old(hitboxes) + added
        invariant forall j :: 0 <= j < |added| ==> FreshHitbox(added[j])
        invariant Place(Positions(), numHitboxes - i, cands[k..], MinDistance, fittsOk) == goal
      {
        var accepted;
        ghost var more;
        accepted, k, more := PlaceNext(cands, k, numHitboxes - i);
        added := added + more;
        if !accepted {
          break;
        }
        i := i + 1;
      }
    }

    /** A hitbox allocated by the current call, still as it was built. */
    twostate predicate FreshHitbox(new h: PuzzleHitbox)
      reads this, h
    {
      fresh(h) && h.View() == NewHitbox(h.position, collisionDuration)
    }

    /** The `while True` loop of `create_hitboxes`: from candidate `k0` on, take
        candidates until one is accepted or none is left; `k` is the first
        candidate not taken. `remaining`, the number of hitboxes still wanted,
        only serves the contract. */
    method PlaceNext(cands: seq<Point>, k0: nat, ghost remaining: nat)
      returns (accepted: bool, k: nat, ghost added: seq<PuzzleHitbox>)
      requires Valid() && k0 <= |cands| && remaining > 0
      modifies this
      ensures Valid()
      ensures visibility == old(visibility) && collidability == old(collidability)
      ensures k0 <= k <= |cands| && (!accepted ==> k == |cands|)
      ensures Place(Positions(), remaining - (if accepted then 1 else 0), cands[k..], MinDistance, fittsOk) ==
              Place(old(Positions()), remaining, cands[k0..], MinDistance, fittsOk)
      ensures hitboxes == old(hitboxes) + added
      ensures forall j :: 0 <= j < |added| ==> FreshHitbox(added[j])
    {
      ghost var goal := Place(Positions(), remaining, cands[k0..], MinDistance, fittsOk);
      added := [];
      accepted := false;
      k := k0;
      while k < |cands|
        invariant k0 <= k <= |cands|
        invariant visibility == old(visibility) && collidability == old(collidability)
        invariant hitboxes == old(hitboxes) && added == []
        invariant Place(Positions(), remaining, cands[k..], MinDistance, fittsOk) == goal
      {
        PlaceStep(Positions(), remaining, cands, k, MinDistance, fittsOk);
        accepted, added := TryCandidate(cands[k]);
        k := k + 1;
        if accepted {
          return;
        }
      }
    }

    /** One pass of the `while True` body of `create_hitboxes` on candidate `c`:
        the Fitts test against the last hitbox, the spacing test against all of
        them, and, when both pass, a new hitbox appended at `c`. */
    method TryCandidate(c: Point) returns (accepted: bool, ghost added: seq<PuzzleHitbox>)
      requires Valid()
      modifies this
      ensures Valid()
      ensures visibility == old(visibility) && collidability == old(collidability)
      ensures accepted == Accepts(old(Positions()), c, MinDistance, fittsOk)
      ensures Positions() == if accepted then old(Positions()) + [c] else old(Positions())
      ensures hitboxes == old(hitboxes) + added && (!accepted ==> added == [])
      ensures forall j :: 0 <= j < |added| ==> FreshHitbox(added[j])
    {
      added := [];
      var fittsPasses := true;
      if |hitboxes| > 0 && !fittsOk(hitboxes[|hitboxes| - 1].position, c) {
        fittsPasses := false;
      }
      var overlapPassing := HitboxOverlap(c, MinDistance);
      accepted := overlapPassing && fittsPasses;
      if accepted {
        var h := new PuzzleHitbox(c, collisionDuration);
        hitboxes := hitboxes + [h];
        added := [h];
        assert Positions() == old(Positions()) + [c];
      }
    }

    /** `reset_hitboxes`: a new list laid out from nothing, then drawn. The new
        hitboxes are not collidable whatever the set's own flag says. */
    method ResetHitboxes(cands: seq<Point>, now: int)
      modifies this
      ensures Valid()
      ensures visibility == old(visibility) && collidability == old(collidability)
      ensures Positions() == Place([], numHitboxes, cands, MinDistance, fittsOk)
      ensures States() == FreshStates(Positions(), collisionDuration)
      ensures forall i :: 0 <= i < |hitboxes| ==> fresh(hitboxes[i])
    {
      hitboxes := [];
      ghost var added := CreateHitboxes(cands);
      FreshStatesIdle(Positions(), collisionDuration, Point(0, 0), now);
      Draw(now);
    }
  }
}
