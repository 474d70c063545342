/** The rejection-sampling layout of `create_hitboxes`: candidates are taken in
    order and kept when they are far enough from every hitbox already placed and
    pass the Fitts test against the last one. */
module Placement {
  import opened Geometry

  /** `hitbox_overlap(c, minDistance)`: true when NO placed centre is closer than
      `minDistance` to `c`. */
  predicate FarFromAll(placed: seq<Point>, c: Point, minDistance: nat)
  {
    forall i :: 0 <= i < |placed| ==> Dist2(placed[i], c) >= minDistance * minDistance
  }

  /** The acceptance test of one candidate. `fittsOk(prev, c)` stands for
      "the Fitts movement time from `prev` to `c` is within the configured maximum". */
  predicate Accepts(placed: seq<Point>, c: Point, minDistance: nat, fittsOk: (Point, Point) -> bool)
  {
    (|placed| == 0 || fittsOk(placed[|placed| - 1], c)) && FarFromAll(placed, c, minDistance)
  }

  /** The positions after trying to place `remaining` more hitboxes, each by
      consuming candidates until one is accepted. It stops early only when the
      candidates run out, where the source would go on sampling. */
  function Place(placed: seq<Point>, remaining: nat, cands: seq<Point>,
                 minDistance: nat, fittsOk: (Point, Point) -> bool): (r: seq<Point>)
    ensures |placed| <= |r| <= |placed| + remaining
    ensures r[..|placed|] == placed
    decreases |cands|
  {
    if remaining == 0 || |cands| == 0 then placed
    else if Accepts(placed, cands[0], minDistance, fittsOk) then
      Place(placed + [cands[0]], remaining - 1, cands[1..], minDistance, fittsOk)
    else
      Place(placed, remaining, cands[1..], minDistance, fittsOk)
  }

  /** One candidate of the stream, read at position `k`. */
  lemma PlaceStep(placed: seq<Point>, remaining: nat, cands: seq<Point>, k: nat,
                  m: nat, fittsOk: (Point, Point) -> bool)
    requires remaining > 0 && k < |cands|
    ensures Place(placed, remaining, cands[k..], m, fittsOk) ==
      if Accepts(placed, cands[k], m, fittsOk)
      then Place(placed + [cands[k]], remaining - 1, cands[k + 1..], m, fittsOk)
      else Place(placed, remaining, cands[k + 1..], m, fittsOk)
  {
    assert cands[k..][0] == cands[k] && cands[k..][1..] == cands[k + 1..];
  }

  /** Every two centres are at least `minDistance` apart. */
  predicate Spaced(ps: seq<Point>, minDistance: nat)
  {
    forall i, j :: 0 <= i < j < |ps| ==> Dist2(ps[i], ps[j]) >= minDistance * minDistance
  }

  /** From index `from` on, each centre passes the Fitts test against its predecessor. */
  predicate FittsChain(ps: seq<Point>, from: nat, fittsOk: (Point, Point) -> bool)
  {
    forall i :: from <= i < |ps| && 0 < i ==> fittsOk(ps[i - 1], ps[i])
  }

  lemma {:induction false} PlaceKeepsSpacing(placed: seq<Point>, remaining: nat, cands: seq<Point>,
                                             m: nat, fittsOk: (Point, Point) -> bool)
    requires Spaced(placed, m)
    ensures Spaced(Place(placed, remaining, cands, m, fittsOk), m)
    decreases |cands|
  {
    if remaining == 0 || |cands| == 0 {
    } else if Accepts(placed, cands[0], m, fittsOk) {
      var next := placed + [cands[0]];
      forall i, j | 0 <= i < j < |next| ensures Dist2(next[i], next[j]) >= m * m {
        if j == |placed| {
          assert next[i] == placed[i];
        }
      }
      PlaceKeepsSpacing(next, remaining - 1, cands[1..], m, fittsOk);
    } else {
      PlaceKeepsSpacing(placed, remaining, cands[1..], m, fittsOk);
    }
  }

  lemma {:induction false} PlaceKeepsFitts(placed: seq<Point>, remaining: nat, cands: seq<Point>,
                                           m: nat, fittsOk: (Point, Point) -> bool)
    ensures FittsChain(Place(placed, remaining, cands, m, fittsOk), |placed|, fittsOk)
    decreases |cands|
  {
    if remaining == 0 || |cands| == 0 {
    } else if Accepts(placed, cands[0], m, fittsOk) {
      var next := placed + [cands[0]];
      var r := Place(next, remaining - 1, cands[1..], m, fittsOk);
      PlaceKeepsFitts(next, remaining - 1, cands[1..], m, fittsOk);
      if |placed| > 0 {
        assert r[..|next|] == next;
        assert r[|placed| - 1] == next[|placed| - 1] && r[|placed|] == next[|placed|];
      }
    } else {
      PlaceKeepsFitts(placed, remaining, cands[1..], m, fittsOk);
    }
  }

  /** From index `from` on, every centre is one of `cands`. */
  predicate DrawnFrom(ps: seq<Point>, from: nat, cands: seq<Point>)
  {
    forall i :: from <= i < |ps| ==> ps[i] in cands
  }

  /** Every centre added is one of the candidates. */
  lemma {:induction false} PlaceDrawsFromCandidates(placed: seq<Point>, remaining: nat, cands: seq<Point>,
                                                    m: nat, fittsOk: (Point, Point) -> bool)
    ensures DrawnFrom(Place(placed, remaining, cands, m, fittsOk), |placed|, cands)
    decreases |cands|
  {
    if remaining == 0 || |cands| == 0 {
    } else if Accepts(placed, cands[0], m, fittsOk) {
      var next := placed + [cands[0]];
      var r := Place(next, remaining - 1, cands[1..], m, fittsOk);
      assert r == Place(placed, remaining, cands, m, fittsOk);
      PlaceDrawsFromCandidates(next, remaining - 1, cands[1..], m, fittsOk);
      assert r[..|next|] == next;
      assert r[|placed|] == cands[0];
      InTail(cands, r, |next|);
    } else {
      var r := Place(placed, remaining, cands[1..], m, fittsOk);
      assert r == Place(placed, remaining, cands, m, fittsOk);
      PlaceDrawsFromCandidates(placed, remaining, cands[1..], m, fittsOk);
      InTail(cands, r, |placed|);
    }
  }

  lemma InTail(cands: seq<Point>, r: seq<Point>, from: nat)
    requires |cands| > 0
    requires DrawnFrom(r, from, cands[1..])
    ensures DrawnFrom(r, from, cands)
  {
    forall i | from <= i < |r| ensures r[i] in cands {
      var k :| 0 <= k < |cands[1..]| && cands[1..][k] == r[i];
      assert cands[k + 1] == r[i];
    }
  }

  /** Cutting the candidate stream loses nothing: placing from `a + b` is placing
      from `a` and then continuing, with what is still missing, from `b`. */
  lemma {:induction false} PlaceConcat(placed: seq<Point>, remaining: nat, a: seq<Point>, b: seq<Point>,
                                       m: nat, fittsOk: (Point, Point) -> bool)
    ensures var q := Place(placed, remaining, a, m, fittsOk);
      Place(placed, remaining, a + b, m, fittsOk) ==
      Place(q, remaining - (|q| - |placed|), b, m, fittsOk)
    decreases |a|
  {
    if |a| == 0 {
      assert a + b == b;
    } else if remaining == 0 {
    } else {
      assert (a + b)[0] == a[0] && (a + b)[1..] == a[1..] + b;
      if Accepts(placed, a[0], m, fittsOk) {
        PlaceConcat(placed + [a[0]], remaining - 1, a[1..], b, m, fittsOk);
      } else {
        PlaceConcat(placed, remaining, a[1..], b, m, fittsOk);
      }
    }
  }

  /** A layout built from nothing (construction and reset) has at most `count`
      centres (fewer only when the candidates run out), every pair at least
      `MinDistance` apart, every centre inside the sampling range, and each centre
      passing the Fitts test against its predecessor. */
  lemma FreshLayout(count: nat, cands: seq<Point>, width: int, height: int,
                    fittsOk: (Point, Point) -> bool)
    requires forall c :: c in cands ==> InBounds(c, width, height)
    ensures var r := Place([], count, cands, MinDistance, fittsOk);
      |r| <= count &&
      Spaced(r, MinDistance) &&
      FittsChain(r, 0, fittsOk) &&
      forall i :: 0 <= i < |r| ==> InBounds(r[i], width, height)
  {
    var r := Place([], count, cands, MinDistance, fittsOk);
    PlaceKeepsSpacing([], count, cands, MinDistance, fittsOk);
    PlaceKeepsFitts([], count, cands, MinDistance, fittsOk);
    PlaceDrawsFromCandidates([], count, cands, MinDistance, fittsOk);
  }
}
