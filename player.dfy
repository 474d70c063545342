/** The puzzle's player: an integer position moved one axis at a time by a
    fixed speed. Nothing clamps the position to the screen. */
module Movement {
  import opened Geometry

  /** The four commands `move` recognises. */
  predicate IsDirection(direction: string)
  {
    direction == "up" || direction == "down" || direction == "left" || direction == "right"
  }

  /** The command that undoes `direction`; other strings map to themselves. */
  function Opposite(direction: string): string
  {
    if direction == "up" then "down"
    else if direction == "down" then "up"
    else if direction == "left" then "right"
    else if direction == "right" then "left"
    else direction
  }

  /** Where one `move(direction)` takes position `p`. */
  function Moved(p: Point, speed: int, direction: string): Point
  {
    if direction == "up" then p.(y := p.y - speed)
    else if direction == "down" then p.(y := p.y + speed)
    else if direction == "left" then p.(x := p.x - speed)
    else if direction == "right" then p.(x := p.x + speed)
    else p
  }

  /** A known command changes exactly one coordinate by exactly `speed`
      (towards smaller values for "up" and "left"); any other string changes nothing. */
  lemma MoveIsOneAxisStep(p: Point, speed: int, direction: string)
    ensures var q := Moved(p, speed, direction);
      (direction == "up" ==> q.x == p.x && q.y == p.y - speed) &&
      (direction == "down" ==> q.x == p.x && q.y == p.y + speed) &&
      (direction == "left" ==> q.y == p.y && q.x == p.x - speed) &&
      (direction == "right" ==> q.y == p.y && q.x == p.x + speed) &&
      (!IsDirection(direction) ==> q == p)
    ensures IsDirection(direction) ==> Dist2(p, Moved(p, speed, direction)) == speed * speed
  {
  }

  /** Moving back in the opposite direction returns to the start: a move is undone
      by its opposite, so movement loses no position information. */
  lemma MoveUndone(p: Point, speed: int, direction: string)
    ensures Moved(Moved(p, speed, direction), speed, Opposite(direction)) == p
  {
  }

  /** Horizontal and vertical moves commute, so a diagonal made of two calls
      ends in the same place in either order. */
  lemma MovesCommute(p: Point, speed: int, d1: string, d2: string)
    requires d1 == "up" || d1 == "down"
    requires d2 == "left" || d2 == "right"
    ensures Moved(Moved(p, speed, d1), speed, d2) == Moved(Moved(p, speed, d2), speed, d1)
  {
  }

  class Player {
    var visibility: bool
    var position: Point
    /** Difficulty speed times the screen-size multiplier, fixed at construction. */
    const speed: int

    constructor (start: Point, speed: int)
      ensures position == start && this.speed == speed && visibility
    {
      visibility := true;
      position := start;
      this.speed := speed;
    }

    /** `move`: one axis step by `speed`; an unknown command is a no-op. */
    method Move(direction: string)
      modifies this
      ensures position == Moved(old(position), speed, direction)
      ensures visibility == old(visibility)
    {
      if direction == "up" {
        position := position.(y := position.y - speed);
      } else if direction == "down" {
        position := position.(y := position.y + speed);
      } else if direction == "left" {
        position := position.(x := position.x - speed);
      } else if direction == "right" {
        position := position.(x := position.x + speed);
      }
    }

    method SetVisibility(visibility: bool)
      modifies this
      ensures this.visibility == visibility && position == old(position)
    {
      this.visibility := visibility;
    }
  }
}
