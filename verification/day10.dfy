/** Line of sight on an asteroid map, from `day10.rs`: reading the map, the
    obstruction test that walks the lattice points between two asteroids in
    steps of (end - start) / gcd, the count of asteroids visible from one
    asteroid, and the best such count.  Points are (x, y) pairs with y
    growing downwards. */
module Asteroids {
  import opened Integers

  // ---------------------------------------------------------------------------
  // Greatest common divisor
  // ---------------------------------------------------------------------------

  /** `d` divides `n`; only 0 is a multiple of 0. */
  predicate Divides(d: nat, n: int)
  {
    if d == 0 then n == 0 else n % d == 0
  }

  lemma MulMod(d: nat, k: int)
    requires d > 0
    ensures (d * k) % d == 0
  {
    DivisionUnique(d * k, d, k, 0);
  }

  /** A common divisor of `m` and `n` divides `n + k * m`. */
  lemma DividesCombination(d: nat, m: int, n: int, k: int)
    requires Divides(d, m) && Divides(d, n)
    ensures Divides(d, n + k * m)
  {
    if d > 0 {
      var p, q := m / d, n / d;
      assert m == d * p && n == d * q;
      assert n + k * m == d * (q + k * p);
      MulMod(d, q + k * p);
    }
  }

  /** Euclid's algorithm; gcd(0, 0) = 0 as in the `num` crate. */
  function Gcd(a: nat, b: nat): (g: nat)
    ensures Divides(g, a) && Divides(g, b)
    ensures g == 0 <==> a == 0 && b == 0
    decreases b
  {
    if b == 0 then a
    else
      var g := Gcd(b, a % b);
      assert a == a % b + (a / b) * b;
      DividesCombination(g, b, a % b, a / b);
      g
  }

  /** Every common divisor divides the gcd, so the gcd is the greatest one. */
  lemma {:induction false} GcdGreatest(a: nat, b: nat, d: nat)
    requires Divides(d, a) && Divides(d, b)
    ensures Divides(d, Gcd(a, b))
    decreases b
  {
    if b > 0 {
      assert a % b == a + (-(a / b)) * b;
      DividesCombination(d, b, a, -(a / b));
      GcdGreatest(b, a % b, d);
    }
  }

  // ---------------------------------------------------------------------------
  // Reading the map (from_str)
  // ---------------------------------------------------------------------------

  /** Splits on '\n': one piece more than there are separators. */
  function Split(s: string): (pieces: seq<string>)
    ensures |pieces| >= 1
    ensures forall i :: 0 <= i < |pieces| ==> '\n' !in pieces[i]
  {
    if |s| == 0 then [""]
    else
      var rest := Split(s[1..]);
      if s[0] == '\n' then [""] + rest
      else [[s[0]] + rest[0]] + rest[1..]
  }

  function Join(pieces: seq<string>): string
  {
    if |pieces| == 0 then ""
    else if |pieces| == 1 then pieces[0]
    else pieces[0] + "\n" + Join(pieces[1..])
  }

  /** Splitting and joining back with '\n' recovers the text. */
  lemma {:induction false} JoinSplit(s: string)
    ensures Join(Split(s)) == s
  {
    if |s| > 0 {
      JoinSplit(s[1..]);
      var rest := Split(s[1..]);
      if s[0] == '\n' {
        assert s == "\n" + s[1..];
      } else if |rest| == 1 {
        assert s == [s[0]] + s[1..];
      } else {
        assert Join(rest) == rest[0] + "\n" + Join(rest[1..]);
        assert s == [s[0]] + s[1..];
      }
    }
  }

  /** A line without '\n' followed by a separator splits off as one piece. */
  lemma {:induction false} SplitLine(a: string, b: string)
    requires '\n' !in a
    ensures Split(a + "\n" + b) == [a] + Split(b)
  {
    if |a| == 0 {
      assert a + "\n" + b == "\n" + b;
    } else {
      assert (a + "\n" + b)[1..] == a[1..] + "\n" + b;
      SplitLine(a[1..], b);
      assert [a[0]] + a[1..] == a;
    }
  }

  /** Text without '\n' is a single piece. */
  lemma {:induction false} SplitNoNewline(a: string)
    requires '\n' !in a
    ensures Split(a) == [a]
  {
    if |a| > 0 {
      SplitNoNewline(a[1..]);
      assert [a[0]] + a[1..] == a;
    }
  }

  /** Joining lines that hold no '\n' and splitting again gives the lines. */
  lemma {:induction false} SplitJoin(lines: seq<string>)
    requires |lines| >= 1
    requires forall i :: 0 <= i < |lines| ==> '\n' !in lines[i]
    ensures Split(Join(lines)) == lines
  {
    if |lines| == 1 {
      SplitNoNewline(lines[0]);
    } else {
      SplitJoin(lines[1..]);
      SplitLine(lines[0], Join(lines[1..]));
      assert lines == [lines[0]] + lines[1..];
    }
  }

  /** One trailing '\r' removed, as `str::lines` does for "\r\n" endings. */
  function StripCR(line: string): string
  {
    if |line| > 0 && line[|line| - 1] == '\r' then line[..|line| - 1] else line
  }

  function StripCRs(pieces: seq<string>): (r: seq<string>)
    ensures |r| == |pieces|
  {
    if |pieces| == 0 then [] else [StripCR(pieces[0])] + StripCRs(pieces[1..])
  }

  /** Lines that do not end in '\r' are kept as they are. */
  lemma {:induction false} StripCRsKeeps(pieces: seq<string>)
    requires forall i :: 0 <= i < |pieces| ==> '\r' !in pieces[i]
    ensures StripCRs(pieces) == pieces
  {
    if |pieces| > 0 {
      StripCRsKeeps(pieces[1..]);
      assert pieces == [pieces[0]] + pieces[1..];
    }
  }

  /** Rust's `str::lines`: split on '\n', drop the empty piece after a final
      newline, strip one trailing '\r' from each line. */
  function Lines(s: string): seq<string>
  {
    var pieces := Split(s);
    StripCRs(if pieces[|pieces| - 1] == "" then pieces[..|pieces| - 1] else pieces)
  }

  /** Text whose last piece is not empty has no final newline to drop. */
  lemma LinesOfPieces(s: string, pieces: seq<string>)
    requires Split(s) == pieces && pieces[|pieces| - 1] != ""
    ensures Lines(s) == StripCRs(pieces)
  {
  }

  /** Lines free of '\n' and '\r', the last one non-empty, joined with
      '\n' are read back by `Lines` as they were. */
  lemma LinesOfJoin(lines: seq<string>)
    requires |lines| >= 1 && lines[|lines| - 1] != ""
    requires forall i :: 0 <= i < |lines| ==> '\n' !in lines[i] && '\r' !in lines[i]
    ensures Lines(Join(lines)) == lines
  {
    SplitJoin(lines);
    LinesOfPieces(Join(lines), lines);
    StripCRsKeeps(lines);
  }

  /** The asteroids of one line, at row `y`. */
  function RowPoints(line: string, y: int): (r: set<Point>)
    ensures forall p :: p in r <==> p.1 == y && 0 <= p.0 < |line| && line[p.0] == '#'
  {
    if |line| == 0 then {}
    else
      var last := |line| - 1;
      RowPoints(line[..last], y) + (if line[last] == '#' then {(last, y)} else {})
  }

  /** The asteroids of all lines, line `y` giving row `y`. */
  function GridPoints(lines: seq<string>): (r: set<Point>)
    ensures forall p :: p in r <==>
              0 <= p.1 < |lines| && 0 <= p.0 < |lines[p.1]| && lines[p.1][p.0] == '#'
  {
    if |lines| == 0 then {}
    else GridPoints(lines[..|lines| - 1]) + RowPoints(lines[|lines| - 1], |lines| - 1)
  }

  /** `Problem::from_str`: (x, y) is an asteroid exactly when character x of
      line y is '#'. */
  function FromStr(input: string): (r: set<Point>)
    ensures var lines := Lines(input);
            forall p :: p in r <==>
              0 <= p.1 < |lines| && 0 <= p.0 < |lines[p.1]| && lines[p.1][p.0] == '#'
  {
    GridPoints(Lines(input))
  }

  /** A map written as lines joined with '\n' is read back cell by cell:
      (x, y) is an asteroid exactly when line y has '#' at column x. */
  lemma FromStrOfLines(lines: seq<string>)
    requires |lines| >= 1 && lines[|lines| - 1] != ""
    requires forall i :: 0 <= i < |lines| ==> '\n' !in lines[i] && '\r' !in lines[i]
    ensures forall p :: p in FromStr(Join(lines)) <==>
              0 <= p.1 < |lines| && 0 <= p.0 < |lines[p.1]| && lines[p.1][p.0] == '#'
  {
    LinesOfJoin(lines);
  }

  // ---------------------------------------------------------------------------
  // Line of sight
  // ---------------------------------------------------------------------------

  /** `start + n * step`. */
  function Along(start: Point, step: Point, n: int): Point
  {
    (start.0 + n * step.0, start.1 + n * step.1)
  }

  /** The loop of `has_obstructor` from multiple `n` up to `g` (exclusive). */
  function ObstructedFrom(asteroids: set<Point>, start: Point, step: Point, n: int, g: int): (r: bool)
    ensures r <==> exists k :: n <= k < g && Along(start, step, k) in asteroids
    decreases g - n
  {
    if n >= g then false
    else Along(start, step, n) in asteroids || ObstructedFrom(asteroids, start, step, n + 1, g)
  }

  /** The number of lattice steps from `start` to `end`, and one step. */
  function StepCount(start: Point, end: Point): nat
  {
    Gcd(Abs(end.0 - start.0), Abs(end.1 - start.1))
  }

  function UnitStep(start: Point, end: Point): Point
    requires start != end
  {
    var g := StepCount(start, end);
    ((end.0 - start.0) / g, (end.1 - start.1) / g)
  }

  /** `end` is `StepCount` unit steps away from `start`. */
  lemma UnitStepReachesEnd(start: Point, end: Point)
    requires start != end
    ensures StepCount(start, end) > 0
    ensures Along(start, UnitStep(start, end), StepCount(start, end)) == end
  {
    var g := StepCount(start, end);
    var dx, dy := end.0 - start.0, end.1 - start.1;
    assert Divides(g, Abs(dx)) && Divides(g, Abs(dy));
    ExactQuotient(dx, g);
    ExactQuotient(dy, g);
  }

  lemma ExactQuotient(n: int, g: nat)
    requires g > 0 && Divides(g, Abs(n))
    ensures g * (n / g) == n
  {
    if n >= 0 {
      assert n == g * (n / g) + n % g;
    } else {
      var q := (-n) / g;
      assert -n == g * q;
      DivisionUnique(n, g, -q, 0);
    }
  }

  /** `has_obstructor`: some asteroid sits on one of the lattice points
      start + n * step with 1 <= n < gcd, strictly between `start` and `end`.
      The source divides by the gcd, so `start == end` would divide by zero. */
  function HasObstructor(asteroids: set<Point>, start: Point, end: Point): (r: bool)
    requires start != end
    ensures r <==> exists n :: 1 <= n < StepCount(start, end) && Along(start, UnitStep(start, end), n) in asteroids
  {
    ObstructedFrom(asteroids, start, UnitStep(start, end), 1, StepCount(start, end))
  }

  // ---------------------------------------------------------------------------
  // The multiples of the unit step are all the lattice points in between
  // ---------------------------------------------------------------------------

  /** `x` lies between `a` and `b`, in either order, ends included. */
  predicate Within(a: int, x: int, b: int)
  {
    a <= x <= b || b <= x <= a
  }

  /** `p` is a lattice point on the segment from `s` to `e`, other than the
      two ends: on the line through them, inside their bounding box. */
  predicate StrictlyBetween(s: Point, e: Point, p: Point)
  {
    && (p.0 - s.0) * (e.1 - s.1) == (p.1 - s.1) * (e.0 - s.0)
    && Within(s.0, p.0, e.0) && Within(s.1, p.1, e.1)
    && p != s && p != e
  }

  lemma {:induction false} MulStrict(c: int, x: int, y: int)
    requires c > 0 && x < y
    ensures c * x < c * y
  {
    MulLeft(c, x + 1, y);
  }

  /** A non-zero factor cancels. */
  lemma {:induction false} MulCancel(c: int, x: int, y: int)
    requires c != 0 && c * x == c * y
    ensures x == y
  {
    if c > 0 {
      if x < y { MulStrict(c, x, y); } else if y < x { MulStrict(c, y, x); }
    } else {
      assert (-c) * x == (-c) * y;
      if x < y { MulStrict(-c, x, y); } else if y < x { MulStrict(-c, y, x); }
    }
  }

  lemma {:induction false} AbsMul(x: int, y: int)
    ensures Abs(x * y) == Abs(x) * Abs(y)
  {
    if x < 0 && y >= 0 {
      assert x * y == -((-x) * y);
    } else if x >= 0 && y < 0 {
      assert x * y == -(x * (-y));
    } else if x < 0 && y < 0 {
      assert x * y == (-x) * (-y);
    }
  }

  /** Divisibility does not see the sign. */
  lemma {:induction false} DividesAbs(d: nat, n: int)
    ensures Divides(d, n) <==> Divides(d, Abs(n))
  {
    if d > 0 && n < 0 {
      if Divides(d, n) {
        var q := n / d;
        assert n == d * q;
        assert -n == d * (-q);
        MulMod(d, -q);
      }
      if Divides(d, -n) {
        var q := (-n) / d;
        assert -n == d * q;
        assert n == d * (-q);
        MulMod(d, -q);
      }
    }
  }

  /** Scaling both arguments scales the gcd. */
  lemma {:induction false} GcdScale(k: nat, a: nat, b: nat)
    ensures Gcd(k * a, k * b) == k * Gcd(a, b)
    decreases b
  {
    if k == 0 {
      assert k * a == 0 && k * b == 0;
    } else if b > 0 {
      var q, r := a / b, a % b;
      assert a == b * q + r;
      assert k * a == (k * b) * q + k * r;
      MulStrict(k, r, b);
      DivisionUnique(k * a, k * b, q, k * r);
      GcdScale(k, b, r);
      assert k * b != 0;
    }
  }

  lemma {:induction false} DividesMultiple(a: nat, x: int)
    ensures Divides(a, x * a)
  {
    if a > 0 {
      assert x * a == a * x;
      MulMod(a, x);
    }
  }

  /** Euclid's lemma: a divisor of `x * b` coprime to `b` divides `x`. */
  lemma {:induction false} CoprimeDivides(a: nat, b: nat, x: nat)
    requires Gcd(a, b) == 1 && Divides(a, x * b)
    ensures Divides(a, x)
  {
    var xa, xb := x * a, x * b;
    assert Gcd(xa, xb) == x by { GcdScale(x, a, b); }
    assert Divides(a, xa) by { DividesMultiple(a, x); }
    GcdGreatest(xa, xb, a);
  }

  /** The unit step is the offset divided by the gcd, and its coordinates are
      coprime. */
  lemma {:induction false} UnitStepCoprime(start: Point, end: Point)
    requires start != end
    ensures var g, u := StepCount(start, end), UnitStep(start, end);
            && g * u.0 == end.0 - start.0 && g * u.1 == end.1 - start.1
            && Gcd(Abs(u.0), Abs(u.1)) == 1
  {
    var g, u := StepCount(start, end), UnitStep(start, end);
    UnitStepReachesEnd(start, end);
    assert g * u.0 == end.0 - start.0 && g * u.1 == end.1 - start.1;
    AbsMul(g, u.0);
    AbsMul(g, u.1);
    GcdScale(g, Abs(u.0), Abs(u.1));
    MulCancel(g, Gcd(Abs(u.0), Abs(u.1)), 1);
  }

  /** A multiple `n * c` with `c != 0` lies between 0 and `g * c` exactly
      when `n` lies between 0 and `g`. */
  lemma {:induction false} ScaleWithin(n: int, c: int, g: nat)
    requires c != 0
    ensures Within(0, n * c, g * c) <==> 0 <= n <= g
  {
    if c > 0 {
      if n < 0 { MulStrict(c, n, 0); } else if n > g { MulStrict(c, g, n); }
      else { MulLeft(c, 0, n); MulLeft(c, n, g); }
      assert n * c == c * n && g * c == c * g;
    } else {
      var d := -c;
      assert n * c == -(d * n) && g * c == -(d * g);
      if n < 0 { MulStrict(d, n, 0); } else if n > g { MulStrict(d, g, n); }
      else { MulLeft(d, 0, n); MulLeft(d, n, g); }
    }
  }

  /** The multiples `n * (a, b)` with `0 < n < g` lie strictly between the
      origin and `g * (a, b)`: on their line and inside their box. */
  lemma {:induction false} MultipleBetween(a: int, b: int, g: nat, n: int)
    requires (a, b) != (0, 0) && 1 <= n < g
    ensures (n * a) * (g * b) == (n * b) * (g * a)
    ensures Within(0, n * a, g * a) && Within(0, n * b, g * b)
    ensures (n * a, n * b) != (0, 0) && (n * a, n * b) != (g * a, g * b)
  {
    assert (n * a) * (g * b) == (n * b) * (g * a);
    if a != 0 {
      ScaleWithin(n, a, g);
      if n * a == 0 { MulCancel(a, n, 0); }
      if n * a == g * a { MulCancel(a, n, g); }
    } else {
      assert n * a == 0 && g * a == 0;
    }
    if b != 0 {
      ScaleWithin(n, b, g);
      if n * b == 0 { MulCancel(b, n, 0); }
      if n * b == g * b { MulCancel(b, n, g); }
    } else {
      assert n * b == 0 && g * b == 0;
    }
  }

  /** An offset parallel to a step with coprime coordinates is a whole
      multiple of that step. */
  lemma {:induction false} Proportional(a: int, b: int, px: int, py: int) returns (n: int)
    requires Gcd(Abs(a), Abs(b)) == 1 && px * b == py * a
    ensures px == n * a && py == n * b
  {
    if a != 0 {
      assert Divides(Abs(a), Abs(px)) by {
        AbsMul(px, b);
        AbsMul(py, a);
        assert Abs(px) * Abs(b) == Abs(py) * Abs(a);
        DividesMultiple(Abs(a), Abs(py));
        CoprimeDivides(Abs(a), Abs(b), Abs(px));
      }
      DividesAbs(Abs(a), px);
      ExactQuotient(px, Abs(a));
      var k := px / Abs(a);
      n := if a > 0 then k else -k;
      assert n * a == px;
      assert a * py == a * (n * b);
      MulCancel(a, py, n * b);
    } else {
      assert Gcd(0, Abs(b)) == Abs(b);
      assert b == 1 || b == -1;
      n := py * b;
      assert n * b == py * (b * b);
    }
  }

  /** A multiple of a non-zero step that lies strictly between the origin and
      `g` steps is between 1 and `g - 1` steps. */
  lemma {:induction false} MultipleBounds(a: int, b: int, g: nat, n: int)
    requires (a, b) != (0, 0)
    requires Within(0, n * a, g * a) && Within(0, n * b, g * b)
    requires (n * a, n * b) != (0, 0) && (n * a, n * b) != (g * a, g * b)
    ensures 1 <= n < g
  {
    if a != 0 { ScaleWithin(n, a, g); } else { ScaleWithin(n, b, g); }
  }

  lemma {:induction false} CrossCancel(g: nat, a: int, b: int, px: int, py: int)
    requires g > 0 && px * (g * a) == py * (g * b)
    ensures px * a == py * b
  {
    assert g * (px * a) == g * (py * b);
    MulCancel(g, px * a, py * b);
  }

  /** Every point the walk of `has_obstructor` visits lies strictly between
      `start` and `end`. */
  lemma {:induction false} WalkIsBetween(start: Point, end: Point, n: int)
    requires start != end && 1 <= n < StepCount(start, end)
    ensures StrictlyBetween(start, end, Along(start, UnitStep(start, end), n))
  {
    var g, u := StepCount(start, end), UnitStep(start, end);
    UnitStepCoprime(start, end);
    MultipleBetween(u.0, u.1, g, n);
  }

  /** Every lattice point strictly between `start` and `end` is visited by
      the walk of `has_obstructor`: a multiple of the unit step, strictly
      between 0 and gcd times. */
  lemma {:induction false} BetweenIsWalk(start: Point, end: Point, p: Point) returns (n: int)
    requires start != end && StrictlyBetween(start, end, p)
    ensures 1 <= n < StepCount(start, end) && Along(start, UnitStep(start, end), n) == p
  {
    var g, u := StepCount(start, end), UnitStep(start, end);
    UnitStepCoprime(start, end);
    var px, py := p.0 - start.0, p.1 - start.1;
    CrossCancel(g, u.1, u.0, px, py);
    n := Proportional(u.0, u.1, px, py);
    MultipleBounds(u.0, u.1, g, n);
  }

  /** `has_obstructor` holds exactly when some asteroid is a lattice point
      strictly between `start` and `end`. */
  lemma HasObstructorIsBetween(asteroids: set<Point>, start: Point, end: Point)
    requires start != end
    ensures HasObstructor(asteroids, start, end) <==> exists p :: p in asteroids && StrictlyBetween(start, end, p)
  {
    if HasObstructor(asteroids, start, end) {
      var n :| 1 <= n < StepCount(start, end) && Along(start, UnitStep(start, end), n) in asteroids;
      WalkIsBetween(start, end, n);
    }
    if p :| p in asteroids && StrictlyBetween(start, end, p) {
      var n := BetweenIsWalk(start, end, p);
    }
  }

  /** Neighbouring lattice points cannot be obstructed. */
  lemma CoprimeUnobstructed(asteroids: set<Point>, start: Point, end: Point)
    requires start != end && StepCount(start, end) == 1
    ensures !HasObstructor(asteroids, start, end)
  {
  }

  /** The asteroids other than `start` with nothing in between. */
  function Visible(asteroids: set<Point>, start: Point): set<Point>
  {
    set e | e in asteroids && e != start && !HasObstructor(asteroids, start, e)
  }

  /** `unobstructed_views`: how many other asteroids `start` can see; never
      more than there are asteroids besides `start`. */
  function UnobstructedViews(asteroids: set<Point>, start: Point): (r: nat)
    ensures r <= |asteroids - {start}|
  {
    SubsetCardinality(Visible(asteroids, start), asteroids - {start});
    |Visible(asteroids, start)|
  }

  lemma SubsetCardinality<T>(a: set<T>, b: set<T>)
    requires a <= b
    ensures |a| <= |b|
  {
    assert b == a + (b - a);
  }

  /** `best_view_count`: the largest view count over all asteroids; the source
      unwraps the maximum, so the map must hold an asteroid. */
  method BestViewCount(asteroids: set<Point>) returns (best: nat)
    requires asteroids != {}
    ensures exists a :: a in asteroids && best == UnobstructedViews(asteroids, a)
    ensures forall a :: a in asteroids ==> UnobstructedViews(asteroids, a) <= best
  {
    var first :| first in asteroids;
    best := UnobstructedViews(asteroids, first);
    ghost var bestAt := first;
    var todo := asteroids - {first};
    while todo != {}
      invariant todo <= asteroids
      invariant bestAt in asteroids && best == UnobstructedViews(asteroids, bestAt)
      invariant forall a :: a in asteroids && a !in todo ==> UnobstructedViews(asteroids, a) <= best
      decreases |todo|
    {
      var candidate :| candidate in todo;
      var views := UnobstructedViews(asteroids, candidate);
      if views > best {
        best := views;
        bestAt := candidate;
      }
      todo := todo - {candidate};
    }
  }

  // ---------------------------------------------------------------------------
  // The worked example
  // ---------------------------------------------------------------------------

  const ExampleMap: string := ".#..#\n.....\n#####\n....#\n...##"

  const ExampleAsteroids: set<Point> :=
    {(1, 0), (4, 0), (0, 2), (1, 2), (2, 2), (3, 2), (4, 2), (4, 3), (3, 4), (4, 4)}

  lemma ExampleLines()
    ensures Lines(ExampleMap) == [".#..#", ".....", "#####", "....#", "...##"]
  {
    var lines := [".#..#", ".....", "#####", "....#", "...##"];
    assert Join(lines) == ExampleMap;
    LinesOfJoin(lines);
  }

  /** The asteroids of each row of the example grid. */
  lemma ExampleRow0()
    ensures RowPoints(".#..#", 0) == {(1, 0), (4, 0)}
  {
  }
  lemma ExampleRow1()
    ensures RowPoints(".....", 1) == {}
  {
  }
  lemma ExampleRow2()
    ensures RowPoints("#####", 2) == {(0, 2), (1, 2), (2, 2), (3, 2), (4, 2)}
  {
  }
  lemma ExampleRow3()
    ensures RowPoints("....#", 3) == {(4, 3)}
  {
  }
  lemma ExampleRow4()
    ensures RowPoints("...##", 4) == {(3, 4), (4, 4)}
  {
  }

  /** The asteroids of the example grid, read row by row. */
  lemma ExampleGrid()
    ensures GridPoints([".#..#", ".....", "#####", "....#", "...##"]) == ExampleAsteroids
  {
    ExampleRow0(); ExampleRow1(); ExampleRow2(); ExampleRow3(); ExampleRow4();
  }

  lemma ExampleFromStr()
    ensures FromStr(ExampleMap) == ExampleAsteroids
  {
    ExampleLines();
    ExampleGrid();
  }

  lemma ExampleObstructions()
    ensures HasObstructor(ExampleAsteroids, (3, 4), (0, 1))
    ensures !HasObstructor(ExampleAsteroids, (3, 4), (2, 2))
  {
    assert StepCount((3, 4), (0, 1)) == 3;
    assert UnitStep((3, 4), (0, 1)) == (-1, -1);
    assert Along((3, 4), (-1, -1), 2) == (1, 2);
    assert StepCount((3, 4), (2, 2)) == 1;
  }

  /** Seen from (3, 4): (2, 2) hides (1, 0), and nothing hides the rest. */
  lemma ExampleHidden()
    ensures HasObstructor(ExampleAsteroids, (3, 4), (1, 0))
  {
    assert StepCount((3, 4), (1, 0)) == 2;
    assert UnitStep((3, 4), (1, 0)) == (-1, -2);
    assert Along((3, 4), (-1, -2), 1) == (2, 2);
  }

  lemma ExampleInSight(e: Point)
    requires e in {(4, 0), (0, 2), (1, 2), (2, 2), (3, 2), (4, 2), (4, 3), (4, 4)}
    ensures !HasObstructor(ExampleAsteroids, (3, 4), e)
  {
    if e == (1, 2) {
      assert StepCount((3, 4), e) == 2;
      assert UnitStep((3, 4), e) == (-1, -1);
      assert Along((3, 4), (-1, -1), 1) == (2, 3);
    } else if e == (3, 2) {
      assert StepCount((3, 4), e) == 2;
      assert UnitStep((3, 4), e) == (0, -1);
      assert Along((3, 4), (0, -1), 1) == (3, 3);
    } else {
      assert StepCount((3, 4), e) == 1;
    }
  }

  /** The visible set is pinned down by naming what is in sight and what is hidden. */
  lemma VisibleExactly(asteroids: set<Point>, start: Point, seen: set<Point>)
    requires seen <= asteroids && start !in seen
    requires forall e :: e in seen ==> !HasObstructor(asteroids, start, e)
    requires forall e :: e in asteroids && e != start && e !in seen ==> HasObstructor(asteroids, start, e)
    ensures Visible(asteroids, start) == seen
  {
  }

  lemma ExampleVisibleFromBest()
    ensures Visible(ExampleAsteroids, (3, 4))
         == {(4, 0), (0, 2), (1, 2), (2, 2), (3, 2), (4, 2), (4, 3), (4, 4)}
  {
    var seen := {(4, 0), (0, 2), (1, 2), (2, 2), (3, 2), (4, 2), (4, 3), (4, 4)};
    ExampleHidden();
    forall e | e in seen
      ensures !HasObstructor(ExampleAsteroids, (3, 4), e)
    {
      ExampleInSight(e);
    }
    VisibleExactly(ExampleAsteroids, (3, 4), seen);
  }

  /** From (3, 4) eight asteroids are in view. */
  lemma ExampleViewsFromBest()
    ensures UnobstructedViews(ExampleAsteroids, (3, 4)) == 8
  {
    ExampleVisibleFromBest();
    ExampleSeenCount();
  }

  lemma ExampleSeenCount()
    ensures |{(4, 0), (0, 2), (1, 2), (2, 2), (3, 2), (4, 2), (4, 3), (4, 4)}| == 8
  {
  }

  /** An asteroid that hides another one from `start` leaves at most
      |asteroids| - 2 in view. */
  lemma HiddenLowersViews(asteroids: set<Point>, start: Point, hidden: Point)
    requires start in asteroids && hidden in asteroids && hidden != start
    requires HasObstructor(asteroids, start, hidden)
    ensures UnobstructedViews(asteroids, start) <= |asteroids| - 2
  {
    var others := asteroids - {start} - {hidden};
    assert Visible(asteroids, start) <= others;
    SubsetCardinality(Visible(asteroids, start), others);
  }

  /** For each asteroid of the example, one other asteroid it cannot see. */
  function ExampleHiddenFrom(s: Point): Point
  {
    match s
    case (1, 0) => (3, 4)
    case (4, 0) => (4, 3)
    case (0, 2) => (2, 2)
    case (1, 2) => (3, 2)
    case (2, 2) => (4, 2)
    case (3, 2) => (1, 2)
    case (4, 2) => (2, 2)
    case (4, 3) => (4, 0)
    case (3, 4) => (1, 0)
    case _ => (4, 2)
  }

  /** `start` cannot see `end` because the asteroid `p` lies strictly
      between them. */
  lemma HiddenBy(asteroids: set<Point>, start: Point, end: Point, p: Point)
    requires start != end && p in asteroids && StrictlyBetween(start, end, p)
    ensures HasObstructor(asteroids, start, end)
  {
    HasObstructorIsBetween(asteroids, start, end);
  }

  lemma ExampleHiddenFromIsHidden(s: Point)
    requires s in ExampleAsteroids
    ensures ExampleHiddenFrom(s) in ExampleAsteroids && ExampleHiddenFrom(s) != s
    ensures HasObstructor(ExampleAsteroids, s, ExampleHiddenFrom(s))
  {
    var a := ExampleAsteroids;
    if s == (1, 0) {
      HiddenBy(a, s, (3, 4), (2, 2));
    } else if s == (4, 0) {
      HiddenBy(a, s, (4, 3), (4, 2));
    } else if s == (0, 2) {
      HiddenBy(a, s, (2, 2), (1, 2));
    } else if s == (1, 2) {
      HiddenBy(a, s, (3, 2), (2, 2));
    } else if s == (2, 2) {
      HiddenBy(a, s, (4, 2), (3, 2));
    } else if s == (3, 2) {
      HiddenBy(a, s, (1, 2), (2, 2));
    } else if s == (4, 2) {
      HiddenBy(a, s, (2, 2), (3, 2));
    } else if s == (4, 3) {
      HiddenBy(a, s, (4, 0), (4, 2));
    } else if s == (3, 4) {
      HiddenBy(a, s, (1, 0), (2, 2));
    } else {
      HiddenBy(a, s, (4, 2), (4, 3));
    }
  }

  lemma ExampleAsteroidCount()
    ensures |ExampleAsteroids| == 10
  {
  }

  /** The example's best view count is 8: every asteroid misses at least one
      of the nine others, and (3, 4) sees the other eight. */
  lemma ExampleBestViews()
    ensures forall a :: a in ExampleAsteroids ==> UnobstructedViews(ExampleAsteroids, a) <= 8
    ensures (3, 4) in ExampleAsteroids && UnobstructedViews(ExampleAsteroids, (3, 4)) == 8
  {
    ExampleAsteroidCount();
    forall a | a in ExampleAsteroids
      ensures UnobstructedViews(ExampleAsteroids, a) <= 8
    {
      ExampleHiddenFromIsHidden(a);
      HiddenLowersViews(ExampleAsteroids, a, ExampleHiddenFrom(a));
    }
    ExampleViewsFromBest();
  }
}
