/** The hull-painting robot of `day11.rs`: where it stands, which way it
    faces, the colours it has painted, the reaction to one (colour, turn) pair
    of machine outputs, and the text picture of the hull.  The robot's
    Intcode machine is not part of this model: a reaction takes the two
    outputs as parameters. */
module Paintbot {
  import opened Maybe
  import opened Integers

  /** Unit steps for orientations 0..3: up, right, down, left, clockwise
      from up with y growing down. */
  const Directions: seq<Point> := [(0, -1), (1, 0), (0, 1), (-1, 0)]

  datatype Bot = Bot(position: Point, orientation: nat, painted: map<Point, int>)

  /** Every bot reachable from `New` faces one of the four directions. */
  predicate Valid(b: Bot)
  {
    b.orientation < |Directions|
  }

  function Direction(b: Bot): Point
    requires Valid(b)
  {
    Directions[b.orientation]
  }

  /** A quarter turn clockwise and counter-clockwise of a step, on a grid
      whose y axis points down. */
  function Clockwise(d: Point): Point
  {
    (-d.1, d.0)
  }

  function CounterClockwise(d: Point): Point
  {
    (d.1, -d.0)
  }

  /** The robot of `from_program`, minus its machine. */
  function New(): Bot
  {
    Bot((0, 0), 0, map[])
  }

  /** The colour of a panel: what was painted there last, black (0) if it was
      never painted. */
  function Colour(painted: map<Point, int>, p: Point): int
  {
    if p in painted then painted[p] else 0
  }

  /** `camera_colour`: the colour of the panel under the robot. */
  function CameraColour(b: Bot): (c: int)
    ensures b.position !in b.painted ==> c == 0
    ensures b.position in b.painted ==> c == b.painted[b.position]
  {
    Colour(b.painted, b.position)
  }

  /** How many panels have been painted at least once. */
  function PaintedCount(b: Bot): nat
  {
    |b.painted.Keys|
  }

  /** A new robot stands on an unpainted hull, facing up. */
  lemma NewBot()
    ensures Valid(New()) && Direction(New()) == (0, -1)
    ensures PaintedCount(New()) == 0 && CameraColour(New()) == 0
  {
  }

  /** `turn_left`: three quarter turns clockwise are one counter-clockwise. */
  function TurnLeft(b: Bot): (r: Bot)
    ensures Valid(r)
    ensures r.position == b.position && r.painted == b.painted
  {
    b.(orientation := (b.orientation + 3) % 4)
  }

  /** `turn_right`: one quarter turn clockwise. */
  function TurnRight(b: Bot): (r: Bot)
    ensures Valid(r)
    ensures r.position == b.position && r.painted == b.painted
  {
    b.(orientation := (b.orientation + 1) % 4)
  }

  /** The facing direction rotates a quarter counter-clockwise on a left
      turn and a quarter clockwise on a right turn. */
  lemma TurnsRotate(b: Bot)
    requires Valid(b)
    ensures Direction(TurnLeft(b)) == CounterClockwise(Direction(b))
    ensures Direction(TurnRight(b)) == Clockwise(Direction(b))
  {
  }

  /** A left and a right turn cancel in either order. */
  lemma TurnsCancel(b: Bot)
    requires Valid(b)
    ensures TurnRight(TurnLeft(b)) == b
    ensures TurnLeft(TurnRight(b)) == b
  {
    var o := b.orientation;
    assert ((o + 3) % 4 + 1) % 4 == o;
    assert ((o + 1) % 4 + 3) % 4 == o;
  }

  /** Four right turns come back to the start. */
  lemma FourRightTurns(b: Bot)
    requires Valid(b)
    ensures TurnRight(TurnRight(TurnRight(TurnRight(b)))) == b
  {
    var o := b.orientation;
    var r2 := TurnRight(TurnRight(b));
    assert r2 == b.(orientation := (o + 2) % 4);
    assert ((o + 2) % 4 + 2) % 4 == o;
  }

  /** `move_forward`: one unit step in the facing direction. */
  function MoveForward(b: Bot): (r: Bot)
    requires Valid(b)
    ensures Valid(r) && r.orientation == b.orientation && r.painted == b.painted
    ensures r.position.0 - b.position.0 == Direction(b).0
    ensures r.position.1 - b.position.1 == Direction(b).1
    ensures Abs(r.position.0 - b.position.0) + Abs(r.position.1 - b.position.1) == 1
  {
    var d := Directions[b.orientation];
    b.(position := (b.position.0 + d.0, b.position.1 + d.1))
  }

  /** Turning around and moving again comes back to the panel left. */
  lemma TurnAroundReturns(b: Bot)
    requires Valid(b)
    ensures MoveForward(TurnRight(TurnRight(MoveForward(b)))).position == b.position
  {
    var m := MoveForward(b);
    TurnsRotate(m);
    TurnsRotate(TurnRight(m));
  }

  /** The `painted.insert` of `run`: the panel under the robot takes
      `colour`, every other panel keeps its colour. */
  function Paint(b: Bot, colour: int): (r: Bot)
    ensures r.position == b.position && r.orientation == b.orientation
    ensures CameraColour(r) == colour
    ensures forall p :: p != b.position ==> Colour(r.painted, p) == Colour(b.painted, p)
    ensures PaintedCount(r) == PaintedCount(b) + (if b.position in b.painted then 0 else 1)
  {
    var r := b.(painted := b.painted[b.position := colour]);
    assert r.painted.Keys == b.painted.Keys + {b.position};
    r
  }

  /** The reaction of `run` to an output `colour` followed by an output
      `turn`: paint the panel, turn left on 0 and right on 1, then step
      forward.  Any other turn is the source's panic and yields `None`. */
  function React(b: Bot, colour: int, turn: int): (r: Option<Bot>)
    requires Valid(b)
    ensures r.None? <==> turn != 0 && turn != 1
    ensures r.Some? ==> Valid(r.value) && r.value.painted == b.painted[b.position := colour]
    ensures r.Some? && turn == 0 ==> Direction(r.value) == CounterClockwise(Direction(b))
    ensures r.Some? && turn == 1 ==> Direction(r.value) == Clockwise(Direction(b))
    ensures r.Some? ==>
              r.value.position == (b.position.0 + Direction(r.value).0, b.position.1 + Direction(r.value).1)
  {
    var painted := Paint(b, colour);
    TurnsRotate(painted);
    if turn == 0 then Some(MoveForward(TurnLeft(painted)))
    else if turn == 1 then Some(MoveForward(TurnRight(painted)))
    else None
  }

  /** After a reaction the panel just left shows the colour painted on it,
      and at most one more panel counts as painted. */
  lemma ReactPaints(b: Bot, colour: int, turn: int)
    requires Valid(b) && (turn == 0 || turn == 1)
    ensures Colour(React(b, colour, turn).value.painted, b.position) == colour
    ensures PaintedCount(b) <= PaintedCount(React(b, colour, turn).value) <= PaintedCount(b) + 1
  {
    var p := Paint(b, colour);
    assert React(b, colour, turn).value.painted == p.painted;
  }

  /** A run of reactions, one per (colour, turn) pair of outputs, stopping at
      the first turn that is neither 0 nor 1. */
  function ReactAll(b: Bot, outputs: seq<(int, int)>): (r: Option<Bot>)
    requires Valid(b)
    ensures r.None? <==> exists k :: 0 <= k < |outputs| && outputs[k].1 != 0 && outputs[k].1 != 1
    ensures r.Some? ==> Valid(r.value)
    ensures r.Some? ==> PaintedCount(b) <= PaintedCount(r.value) <= PaintedCount(b) + |outputs|
    decreases |outputs|
  {
    if |outputs| == 0 then Some(b)
    else
      var (colour, turn) := outputs[0];
      match React(b, colour, turn)
      case None => None
      case Some(next) =>
        ReactPaints(b, colour, turn);
        var r := ReactAll(next, outputs[1..]);
        assert r.None? ==> exists k :: 0 <= k < |outputs| && outputs[k].1 != 0 && outputs[k].1 != 1 by {
          if r.None? {
            var k :| 0 <= k < |outputs[1..]| && outputs[1..][k].1 != 0 && outputs[1..][k].1 != 1;
            assert outputs[k + 1] == outputs[1..][k];
          }
        }
        assert r.Some? ==> forall k :: 0 <= k < |outputs| ==> outputs[k].1 == 0 || outputs[k].1 == 1 by {
          if r.Some? {
            forall k | 0 <= k < |outputs|
              ensures outputs[k].1 == 0 || outputs[k].1 == 1
            {
              if k > 0 {
                assert outputs[k] == outputs[1..][k - 1];
              }
            }
          }
        }
        r
  }

  // ---------------------------------------------------------------------------
  // The picture of the hull

  /** Colours that `render` can draw. */
  predicate Drawable(colour: int)
  {
    colour == 0 || colour == 1
  }

  /** The cell of `render`: black is '.', white is '#', any other colour is
      the source's panic. */
  function Glyph(colour: int): (r: Option<char>)
    ensures r.Some? <==> Drawable(colour)
    ensures r.Some? ==> r.value in {'.', '#'} && (r.value == '#' <==> colour == 1)
  {
    if colour == 0 then Some('.')
    else if colour == 1 then Some('#')
    else None
  }

  /** The colour a drawn cell stands for: the inverse of `Glyph`. */
  function ColourOf(c: char): int
  {
    if c == '#' then 1 else 0
  }

  lemma GlyphRoundTrip(colour: int, c: char)
    ensures Glyph(colour) == Some(c) ==> ColourOf(c) == colour
    ensures c in {'.', '#'} ==> Glyph(ColourOf(c)) == Some(c)
  {
  }

  /** The colour of the panel in column i, row j of the box whose top left
      panel is (x0, y0). */
  function Panel(painted: map<Point, int>, x0: int, y0: int, i: int, j: int): int
  {
    Colour(painted, (x0 + i, y0 + j))
  }

  /** The cells of row j of the box, `width` of them. */
  function Cells(painted: map<Point, int>, x0: int, width: nat, y0: int, j: int): (r: Option<string>)
    ensures r.Some? <==> forall i :: 0 <= i < width ==> Drawable(Panel(painted, x0, y0, i, j))
    ensures r.Some? ==> |r.value| == width
    ensures r.Some? ==> forall i :: 0 <= i < width ==> Glyph(Panel(painted, x0, y0, i, j)) == Some(r.value[i])
  {
    if width == 0 then Some("")
    else
      match (Cells(painted, x0, width - 1, y0, j), Glyph(Panel(painted, x0, y0, width - 1, j)))
      case (Some(front), Some(c)) =>
        var r := front + [c];
        assert forall i :: 0 <= i < width - 1 ==> r[i] == front[i];
        assert r[width - 1] == c;
        Some(r)
      case _ => None
  }

  /** `render` over the box of `width` columns from x0 and `height` rows from
      y0: each row is its cells followed by '\n'. */
  function Render(painted: map<Point, int>, x0: int, width: nat, y0: int, height: nat): (r: Option<string>)
    ensures r.Some? <==> forall j, i :: 0 <= j < height && 0 <= i < width ==> Drawable(Panel(painted, x0, y0, i, j))
    ensures r.Some? ==> |r.value| == height * (width + 1)
  {
    if height == 0 then Some("")
    else
      match (Render(painted, x0, width, y0, height - 1), Cells(painted, x0, width, y0, height - 1))
      case (Some(top), Some(row)) => Some(top + row + "\n")
      case _ => None
  }

  /** Reading the picture back: the character at row j, column i is the glyph
      of panel (x0 + i, y0 + j), and column `width` ends the row. */
  lemma {:induction false} RenderPixel(painted: map<Point, int>, x0: int, width: nat, y0: int, height: nat, j: nat, i: nat)
    requires Render(painted, x0, width, y0, height).Some?
    requires j < height && i <= width
    ensures j * (width + 1) + i < height * (width + 1)
    ensures var out := Render(painted, x0, width, y0, height).value;
            if i == width then out[j * (width + 1) + i] == '\n'
            else Glyph(Panel(painted, x0, y0, i, j)) == Some(out[j * (width + 1) + i])
    decreases height
  {
    var out := Render(painted, x0, width, y0, height).value;
    var top := Render(painted, x0, width, y0, height - 1).value;
    var row := Cells(painted, x0, width, y0, height - 1).value;
    assert out == top + row + "\n";
    RowOffset(j, height, width, i);
    if j < height - 1 {
      RenderPixel(painted, x0, width, y0, height - 1, j, i);
      assert out[j * (width + 1) + i] == top[j * (width + 1) + i];
    } else {
      assert |top| == j * (width + 1);
      if i < width {
        assert out[j * (width + 1) + i] == row[i];
      }
    }
  }

  /** Index arithmetic: cell (j, i) of a picture with `height` rows of
      `width` + 1 characters lies inside it, and before the last row when
      j is not the last row. */
  lemma RowOffset(j: nat, height: nat, width: nat, i: nat)
    requires j < height && i <= width
    ensures j * (width + 1) + i < height * (width + 1)
    ensures j < height - 1 ==> j * (width + 1) + i < (height - 1) * (width + 1)
  {
    assert (j + 1) * (width + 1) <= height * (width + 1);
    if j < height - 1 {
      assert (j + 1) * (width + 1) <= (height - 1) * (width + 1);
    }
  }

  /** A two-by-two picture with one white panel. */
  lemma RenderExample()
    ensures Render(map[(1, 0) := 1, (0, 1) := 0], 0, 2, 0, 2) == Some(".#\n..\n")
  {
    var m := map[(1, 0) := 1, (0, 1) := 0];
    assert Panel(m, 0, 0, 0, 0) == 0 && Panel(m, 0, 0, 1, 0) == 1;
    assert Panel(m, 0, 0, 0, 1) == 0 && Panel(m, 0, 0, 1, 1) == 0;
    assert Cells(m, 0, 2, 0, 0).Some? && Cells(m, 0, 2, 0, 1).Some?;
    assert Cells(m, 0, 2, 0, 0).value == ".#";
    assert Cells(m, 0, 2, 0, 1).value == "..";
    assert Render(m, 0, 2, 0, 0) == Some("");
    assert "" + ".#" + "\n" == ".#\n";
    assert Render(m, 0, 2, 0, 1) == Some(".#\n");
    assert ".#\n" + ".." + "\n" == ".#\n..\n";
  }
}
