/**
 * The snake as the game sees it: an ordered body of grid cells (head first),
 * a heading, and the cell it left behind on its last move, kept so that it can
 * grow back by one cell after eating.
 *
 * Only the operations the game calls are modelled, each with the contract the
 * game relies on. Grid coordinates grow to the right (x) and downwards (y), as
 * on the screen.
 */
module Snakes {
  import opened Options

  type Cell = (int, int)

  datatype Direction = Up | Down | Left | Right {

    /** The heading that undoes this one. */
    function Opposite(): (r: Direction)
      ensures r != this
    {
      match this
      case Up => Down
      case Down => Up
      case Left => Right
      case Right => Left
    }
  }

  /** Two cells that share an edge. */
  predicate Adjacent(a: Cell, b: Cell) {
    (a.0 == b.0 && (a.1 - b.1 == 1 || b.1 - a.1 == 1)) ||
    (a.1 == b.1 && (a.0 - b.0 == 1 || b.0 - a.0 == 1))
  }

  /** The cell one step from c in direction d. */
  function Step(c: Cell, d: Direction): (r: Cell)
    ensures Adjacent(c, r)
  {
    match d
    case Up => (c.0, c.1 - 1)
    case Down => (c.0, c.1 + 1)
    case Left => (c.0 - 1, c.1)
    case Right => (c.0 + 1, c.1)
  }

  /** No cell occurs twice. */
  predicate Distinct(cells: seq<Cell>) {
    forall i, j :: 0 <= i < j < |cells| ==> cells[i] != cells[j]
  }

  datatype Snake = Snake(body: seq<Cell>, direction: Direction, tail: Option<Cell>) {

    /**
     * The snake's own invariant: it has a head, no two segments share a cell,
     * and the head lies one step along the heading from the second segment.
     */
    predicate WellFormed() {
      |body| >= 1 && Distinct(body) &&
      (|body| >= 2 ==> body[0] == Step(body[1], direction))
    }

    /** The front segment. */
    function HeadPosition(): (head: Cell)
      requires |body| >= 1
      ensures head in body && head == body[0]
    {
      body[0]
    }

    /** The heading, which for a well-formed snake points from the second segment to the head. */
    function HeadDirection(): (d: Direction)
      ensures WellFormed() && |body| >= 2 ==> body[0] == Step(body[1], d)
    {
      direction
    }

    /** The heading after a move that asks for `dir`: the request if there is one. */
    function Heading(dir: Option<Direction>): Direction {
      if dir.Some? then dir.value else direction
    }

    /**
     * Where the head would go if the snake moved with request `dir`; the
     * snake itself is not changed (this is a function of a value). Without a
     * request, a well-formed snake keeps going in a straight line.
     */
    function NextHead(dir: Option<Direction>): (r: Cell)
      requires |body| >= 1
      ensures Adjacent(HeadPosition(), r)
      ensures dir.None? && WellFormed() && |body| >= 2 ==>
        r.0 - body[0].0 == body[0].0 - body[1].0 && r.1 - body[0].1 == body[0].1 - body[1].1
    {
      Step(body[0], Heading(dir))
    }

    /**
     * One slither: the head advances to NextHead(dir), the last segment is
     * dropped and remembered as `tail`; the length does not change.
     */
    function MoveForward(dir: Option<Direction>): (s: Snake)
      requires |body| >= 1
      ensures |s.body| == |body|
      ensures s.HeadPosition() == NextHead(dir)
      ensures s.body[1..] == body[..|body| - 1]
      ensures s.direction == Heading(dir)
      ensures s.tail == Some(body[|body| - 1])
    {
      Snake([NextHead(dir)] + body[..|body| - 1], Heading(dir), Some(body[|body| - 1]))
    }

    /** Grows the snake by one: the remembered tail cell is put back at the end. */
    function RestoreTail(): (s: Snake)
      requires tail.Some?
      ensures s.body == body + [tail.value]
      ensures |s.body| == |body| + 1
      ensures s.direction == direction
    {
      Snake(body + [tail.value], direction, tail)
    }

    /** Whether (x, y) is one of the body's cells (the whole body, despite the name). */
    function OverlapTail(x: int, y: int): (overlaps: bool)
      ensures overlaps <==> exists i :: 0 <= i < |body| && body[i] == (x, y)
    {
      (x, y) in body
    }
  }

  /**
   * The starting snake: three segments in a row, the head at (x, y) and the
   * other two trailing to its left, heading right, nothing left behind yet.
   */
  function NewSnake(x: int, y: int): (s: Snake)
    ensures s.WellFormed()
    ensures |s.body| == 3 && s.HeadPosition() == (x, y)
    ensures s.HeadDirection() == Right && s.tail == None
  {
    Snake([(x, y), (x - 1, y), (x - 2, y)], Right, None)
  }

  /** Stepping one way and then the opposite way comes back to the start. */
  lemma StepOpposite(c: Cell, d: Direction)
    ensures Step(Step(c, d), d.Opposite()) == c
  {
  }

  /**
   * Turning back on itself puts the head of a well-formed snake of two or
   * more segments onto its own second segment.
   */
  lemma ReversalHitsNeck(s: Snake)
    requires s.WellFormed() && |s.body| >= 2
    ensures s.NextHead(Some(s.direction.Opposite())) == s.body[1]
    ensures s.OverlapTail(s.NextHead(Some(s.direction.Opposite())).0,
                          s.NextHead(Some(s.direction.Opposite())).1)
  {
  }

  /**
   * A move into a free cell keeps the snake well-formed, and the cell it
   * leaves behind is no longer part of it.
   */
  lemma MoveForwardWellFormed(s: Snake, dir: Option<Direction>)
    requires s.WellFormed()
    requires s.NextHead(dir) !in s.body
    ensures s.MoveForward(dir).WellFormed()
    ensures s.MoveForward(dir).tail.Some?
    ensures s.MoveForward(dir).tail.value !in s.MoveForward(dir).body
  {
  }

  /**
   * Eating is a move followed by RestoreTail: the result is the old body with
   * the new head in front, one cell longer.
   */
  lemma GrowthKeepsOldBody(s: Snake, dir: Option<Direction>)
    requires |s.body| >= 1
    ensures s.MoveForward(dir).RestoreTail().body == [s.NextHead(dir)] + s.body
  {
  }

  /** Growing into a free cell keeps the snake well-formed. */
  lemma GrowthWellFormed(s: Snake, dir: Option<Direction>)
    requires s.WellFormed()
    requires s.NextHead(dir) !in s.body
    ensures s.MoveForward(dir).RestoreTail().WellFormed()
  {
  }
}
