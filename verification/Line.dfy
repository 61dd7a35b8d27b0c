/** The all-octant line drawing loop of filesystem/demos/boid/gfx.c. Coordinates are
    unbounded integers; `ErrorBound` says when 32-bit arithmetic gives the same run. */
module Line {
  import opened Arithmetic

  datatype Point = Point(x: int, y: int)

  function Abs(x: int): nat { if x < 0 then -x else x }

  function Max(a: int, b: int): int { if a < b then b else a }

  /** `sx` and `sy` of the source. */
  function Sign(from: int, to: int): int { if from < to then 1 else -1 }

  // ---- The reference line

  /** k*d/n rounded to the nearest integer, halves up. */
  function Round(k: nat, d: nat, n: nat): nat
    requires n > 0
  {
    (2 * (k * d) + n) / (2 * n)
  }

  /** The number of steps of the line: the longer of its two extents. */
  function Steps(p: Point, q: Point): nat { Max(Abs(q.x - p.x), Abs(q.y - p.y)) }

  /** How far along an axis of extent `d` the line is after `k` of `n` steps. */
  function Along(k: nat, d: nat, n: nat): nat { if n == 0 then 0 else Round(k, d, n) }

  /** Point number `k` of the line from `p` to `q`. */
  function LinePoint(p: Point, q: Point, k: nat): Point {
    var n := Steps(p, q);
    Point(p.x + Sign(p.x, q.x) * Along(k, Abs(q.x - p.x), n),
          p.y + Sign(p.y, q.y) * Along(k, Abs(q.y - p.y), n))
  }

  // ---- The frame buffer

  predicate Inside(p: Point, w: int, h: int) { 0 <= p.x <= w && 0 <= p.y <= h }

  function Cell(p: Point, w: int): int { p.x + p.y * w }

  /** If point `k` of the line passes the bounds test of the loop, its cell is in the back buffer. */
  predicate Lands(size: nat, p: Point, q: Point, k: nat, w: int, h: int) {
    Inside(LinePoint(p, q, k), w, h) ==> 0 <= Cell(LinePoint(p, q, k), w) < size
  }

  ghost predicate Fits(size: nat, p: Point, q: Point, w: int, h: int) {
    forall k: nat :: k <= Steps(p, q) ==> Lands(size, p, q, k, w, h)
  }

  /** The buffer after the first `m` points of the line have been written. */
  ghost function Painted(buf: seq<int>, p: Point, q: Point, m: nat, w: int, h: int, color: int): (r: seq<int>)
    ensures |r| == |buf|
  {
    if m == 0 then buf
    else
      var before := Painted(buf, p, q, m - 1, w, h, color);
      var at := LinePoint(p, q, m - 1);
      if Inside(at, w, h) && 0 <= Cell(at, w) < |buf| then before[Cell(at, w) := color] else before
  }

  // ---- The loop

  /** What `err` holds after `k` steps. */
  function Error(p: Point, q: Point, k: nat): int {
    var a, b, n := Abs(q.x - p.x), Abs(q.y - p.y), Steps(p, q);
    a * (Along(k, b, n) + 1) - b * (Along(k, a, n) + 1)
  }

  method DrawLine(backbuf: array<int>, w: int, h: int, x1: int, y1: int, x2: int, y2: int, color: int)
    requires Inside(Point(x1, y1), w, h) ==> Fits(backbuf.Length, Point(x1, y1), Point(x2, y2), w, h)
    modifies backbuf
    ensures var p, q := Point(x1, y1), Point(x2, y2);
            backbuf[..] == if Inside(p, w, h) then Painted(old(backbuf[..]), p, q, Steps(p, q) + 1, w, h, color)
                           else old(backbuf[..])
  {
    hide Along, Fits, LinePoint, Error, Steps, Lands;
    if !(x1 >= 0 && x1 <= w && y1 >= 0 && y1 <= h) { return; }
    var dx, sx := Abs(x2 - x1), if x1 < x2 then 1 else -1;
    var dy, sy := -(Abs(y2 - y1) as int), if y1 < y2 then 1 else -1;
    var err := dx + dy;
    var x, y := x1, y1;
    ghost var p, q := Point(x1, y1), Point(x2, y2);
    ghost var n, k := Steps(p, q), 0;
    LineEnds(p, q);
    while true
      invariant 0 <= k <= n
      invariant Point(x, y) == LinePoint(p, q, k) && err == Error(p, q, k)
      invariant backbuf[..] == Painted(old(backbuf[..]), p, q, k, w, h, color)
      decreases n - k
    {
      if x >= 0 && x <= w && y >= 0 && y <= h {
        PointLands(backbuf.Length, p, q, k, w, h);
        backbuf[x + y * w] := color;
      }
      assert backbuf[..] == Painted(old(backbuf[..]), p, q, k + 1, w, h, color);
      ArrivesLast(p, q, k);
      if x == x2 && y == y2 { break; }
      LineStep(p, q, k);
      var e2 := 2 * err;
      if e2 >= dy { err := err + dy; x := x + sx; }
      if e2 <= dx { err := err + dx; y := y + sy; }
      k := k + 1;
    }
  }

  lemma PointLands(size: nat, p: Point, q: Point, k: nat, w: int, h: int)
    requires Fits(size, p, q, w, h) && k <= Steps(p, q) && Inside(LinePoint(p, q, k), w, h)
    ensures 0 <= Cell(LinePoint(p, q, k), w) < size
  {
    hide LinePoint, Cell, Inside;
    assert Lands(size, p, q, k, w, h);
  }

  // ---- Arithmetic of the rounding

  lemma RoundBounds(k: nat, d: nat, n: nat)
    requires n > 0
    ensures 0 - n <= 2 * (k * d) - 2 * (n * Round(k, d, n)) < n
  {
    var m := 2 * (k * d) + n;
    assert m == (2 * n) * (m / (2 * n)) + m % (2 * n);
    assert (2 * n) * (m / (2 * n)) == 2 * (n * (m / (2 * n)));
  }

  /** The rounding is the only integer within its half-open half-unit interval. */
  lemma RoundUnique(k: nat, d: nat, n: nat, j: int)
    requires n > 0
    requires 0 - n <= 2 * (k * d) - 2 * (n * j) < n
    ensures Round(k, d, n) == j
  {
    hide Round;
    RoundBounds(k, d, n);
    var e := j - Round(k, d, n);
    assert n * e == n * j - n * Round(k, d, n);
    if e != 0 { NoSmallMultiple(n, e); }
  }

  /** The major axis advances on every step. */
  lemma RoundFull(k: nat, n: nat)
    requires n > 0
    ensures Round(k, n, n) == k
  {
    assert n * k == k * n;
    RoundUnique(k, n, n, k);
  }

  /** From one step to the next the minor axis advances exactly when the error test of the
      loop says so, and by one. */
  lemma RoundNext(k: nat, d: nat, n: nat)
    requires n > 0 && d <= n
    ensures Round(k + 1, d, n) == Round(k, d, n) + (if n * (2 * Round(k, d, n) + 1) <= 2 * ((k + 1) * d) then 1 else 0)
  {
    hide Round;
    var j := Round(k, d, n);
    RoundBounds(k, d, n);
    assert (k + 1) * d == k * d + d;
    assert n * (2 * j + 1) == 2 * (n * j) + n;
    assert n * (j + 1) == n * j + n;
    if n * (2 * j + 1) <= 2 * ((k + 1) * d) {
      RoundUnique(k + 1, d, n, j + 1);
    } else {
      RoundUnique(k + 1, d, n, j);
    }
  }

  // ---- The line, step by step

  lemma AlongEnds(d: nat, n: nat)
    requires d <= n
    ensures Along(0, d, n) == 0 && Along(n, d, n) == d
  {
    if n > 0 {
      RoundUnique(0, d, n, 0);
      RoundUnique(n, d, n, d);
    }
  }

  /** The line starts at p and ends at q. */
  lemma LineEnds(p: Point, q: Point)
    ensures LinePoint(p, q, 0) == p && LinePoint(p, q, Steps(p, q)) == q
    ensures Error(p, q, 0) == Abs(q.x - p.x) - Abs(q.y - p.y)
  {
    AlongEnds(Abs(q.x - p.x), Steps(p, q));
    AlongEnds(Abs(q.y - p.y), Steps(p, q));
  }

  /** The loop's exit test holds at the last point and at no earlier one. */
  lemma ArrivesLast(p: Point, q: Point, k: nat)
    requires k <= Steps(p, q)
    ensures LinePoint(p, q, k) == q <==> k == Steps(p, q)
  {
    var n := Steps(p, q);
    LineEnds(p, q);
    if n > 0 { RoundFull(k, n); }
  }

  /** The two tests on twice the error move each axis exactly as the rounding does. */
  lemma LineStep(p: Point, q: Point, k: nat)
    requires k < Steps(p, q)
    ensures var at, next, e2 := LinePoint(p, q, k), LinePoint(p, q, k + 1), 2 * Error(p, q, k);
            var a, b := Abs(q.x - p.x), Abs(q.y - p.y);
            && next.x == at.x + (if e2 >= 0 - b then Sign(p.x, q.x) else 0)
            && next.y == at.y + (if e2 <= a then Sign(p.y, q.y) else 0)
            && Error(p, q, k + 1) == Error(p, q, k) - (if e2 >= 0 - b then b else 0) + (if e2 <= a then a else 0)
  {
    hide Round;
    var a, b, n := Abs(q.x - p.x), Abs(q.y - p.y), Steps(p, q);
    if a == n { MajorStep(n, b, k); } else { MajorStep(n, a, k); }
  }

  /** One step with major extent n and minor extent d. */
  lemma MajorStep(n: nat, d: nat, k: nat)
    requires d <= n && n > 0
    ensures var j := Round(k, d, n); var e := 2 * (n * (j + 1) - d * (k + 1));
            && Round(k, n, n) == k && Round(k + 1, n, n) == k + 1
            && Round(k + 1, d, n) == j + (if e <= n then 1 else 0)
            && e >= n - 2 * d && e <= 3 * n - 2 * d
            && n * (j + 2) == n * (j + 1) + n && d * (k + 2) == d * (k + 1) + d
  {
    hide Round;
    var j := Round(k, d, n);
    RoundFull(k, n);
    RoundFull(k + 1, n);
    RoundNext(k, d, n);
    RoundBounds(k, d, n);
    assert n * (2 * j + 1) == 2 * (n * j) + n by { Distribute(n, j, j + 1); Distribute(n, j, 1); }
    Distribute(n, j, 1);
    Distribute(n, j + 1, 1);
    Distribute(d, k, 1);
    Distribute(d, k + 1, 1);
  }

  // ---- Main results

  /** After k steps each axis is within half a pixel of the ideal line, which is at k*d/n. */
  lemma HalfPixel(p: Point, q: Point, k: nat)
    requires k <= Steps(p, q)
    ensures var n, at := Steps(p, q), LinePoint(p, q, k);
            && 2 * Abs(n * (at.x - p.x) - k * (q.x - p.x)) <= n
            && 2 * Abs(n * (at.y - p.y) - k * (q.y - p.y)) <= n
  {
    AxisWithinHalf(k, p.x, q.x, Steps(p, q));
    AxisWithinHalf(k, p.y, q.y, Steps(p, q));
  }

  lemma AxisWithinHalf(k: nat, from: int, to: int, n: nat)
    requires k <= n
    ensures 2 * Abs(n * (Sign(from, to) * Along(k, Abs(to - from), n)) - k * (to - from)) <= n
  {
    var d, s := Abs(to - from), Sign(from, to);
    if n > 0 {
      hide Round;
      RoundBounds(k, d, n);
      var j := Round(k, d, n);
      if s == 1 {
        assert to - from == d;
      } else {
        var e: int, i: int := d, j;
        assert to - from == -e && s * i == -i;
        assert k * (-e) == -(k * e) && n * (-i) == -(n * i);
      }
    }
  }

  /** Neighbours touch: neither axis moves by more than one, and one of them always moves. */
  lemma Connected(p: Point, q: Point, k: nat)
    requires k < Steps(p, q)
    ensures var at, next := LinePoint(p, q, k), LinePoint(p, q, k + 1);
            Abs(next.x - at.x) <= 1 && Abs(next.y - at.y) <= 1 && next != at
  {
    LineStep(p, q, k);
    NoRepeats(p, q, k, k + 1);
  }

  /** No point is visited twice. */
  lemma NoRepeats(p: Point, q: Point, i: nat, j: nat)
    requires i <= Steps(p, q) && j <= Steps(p, q)
    ensures LinePoint(p, q, i) == LinePoint(p, q, j) <==> i == j
  {
    var n := Steps(p, q);
    if n > 0 {
      hide Round;
      RoundFull(i, n);
      RoundFull(j, n);
    }
  }

  /** Every point lies in the box spanned by the two ends. */
  lemma NoOvershoot(p: Point, q: Point, k: nat)
    requires k <= Steps(p, q)
    ensures var at := LinePoint(p, q, k);
            && (p.x <= at.x <= q.x || q.x <= at.x <= p.x)
            && (p.y <= at.y <= q.y || q.y <= at.y <= p.y)
  {
    AlongInside(k, Abs(q.x - p.x), Steps(p, q));
    AlongInside(k, Abs(q.y - p.y), Steps(p, q));
  }

  lemma AlongInside(k: nat, d: nat, n: nat)
    requires k <= n && d <= n
    ensures Along(k, d, n) <= d
  {
    if n > 0 {
      hide Round;
      RoundBounds(k, d, n);
      var j := Round(k, d, n);
      NonNegative(d, n - k);
      Distribute(n, j, d);
      Distribute(d, n, k);
      if j > d { NoSmallMultiple(n, j - d); }
    }
  }

  /** The buffer differs from the old one exactly in the cells of the line's points that pass
      the bounds test, and those hold the colour. */
  lemma {:induction false} PaintedCells(buf: seq<int>, p: Point, q: Point, m: nat, w: int, h: int, color: int, c: nat)
    requires c < |buf|
    ensures Painted(buf, p, q, m, w, h, color)[c] == if Touched(p, q, m, w, h, c) then color else buf[c]
  {
    hide LinePoint, Cell;
    if m > 0 {
      PaintedCells(buf, p, q, m - 1, w, h, color, c);
      assert Touched(p, q, m, w, h, c) <==> Hits(p, q, m - 1, w, h, c) || Touched(p, q, m - 1, w, h, c) by {
        if Hits(p, q, m - 1, w, h, c) { assert Touched(p, q, m, w, h, c); }
      }
    }
  }

  ghost predicate Hits(p: Point, q: Point, k: nat, w: int, h: int, c: int) {
    Inside(LinePoint(p, q, k), w, h) && Cell(LinePoint(p, q, k), w) == c
  }

  ghost predicate Touched(p: Point, q: Point, m: nat, w: int, h: int, c: int) {
    exists k: nat :: k < m && Hits(p, q, k, w, h, c)
  }

  // ---- A buffer of one cell per pixel

  /** The bounds test lets these points through although a buffer of w*h cells does not hold them. */
  predicate Spills(p: Point, w: int, h: int) { p.y == h || (p.y == h - 1 && p.x == w) }

  /** The buffer lists the pixels row by row, from the top left one on. */
  lemma CellOrder(p: Point, w: int)
    ensures Cell(Point(0, 0), w) == 0
    ensures Cell(Point(p.x + 1, p.y), w) == Cell(p, w) + 1 && Cell(Point(p.x, p.y + 1), w) == Cell(p, w) + w
  {
    assert (p.y + 1) * w == p.y * w + w;
  }

  lemma CellInFrame(p: Point, w: nat, h: nat)
    requires w > 0 && h > 0 && Inside(p, w, h)
    ensures 0 <= Cell(p, w) < w * h <==> !Spills(p, w, h)
  {
    NonNegative(p.y, w);
    assert p.y * w + (h - p.y) * w == h * w == w * h;
    if p.y < h - 1 {
      NonNegative(h - p.y - 2, w);
      assert (h - p.y) * w == (h - p.y - 2) * w + 2 * w;
    }
  }

  /** A line fits into a buffer of w*h cells exactly when no point of it spills. */
  lemma FrameHoldsLine(p: Point, q: Point, w: nat, h: nat)
    requires w > 0 && h > 0
    ensures Fits(w * h, p, q, w, h) <==> forall k: nat :: k <= Steps(p, q) ==>
              !(Inside(LinePoint(p, q, k), w, h) && Spills(LinePoint(p, q, k), w, h))
  {
    hide LinePoint, Cell, Inside, Spills;
    forall k: nat | k <= Steps(p, q)
      ensures Lands(w * h, p, q, k, w, h) <==>
              !(Inside(LinePoint(p, q, k), w, h) && Spills(LinePoint(p, q, k), w, h))
    {
      if Inside(LinePoint(p, q, k), w, h) { CellInFrame(LinePoint(p, q, k), w, h); }
    }
  }

  predicate Within(p: Point, w: int, h: int) { 0 <= p.x < w && 0 <= p.y < h }

  /** Lines between pixels of the viewport fit. */
  lemma PixelLinesFit(p: Point, q: Point, w: nat, h: nat)
    requires Within(p, w, h) && Within(q, w, h)
    ensures Fits(w * h, p, q, w, h)
  {
    hide LinePoint;
    FrameHoldsLine(p, q, w, h);
    forall k: nat | k <= Steps(p, q) ensures !Spills(LinePoint(p, q, k), w, h) { NoOvershoot(p, q, k); }
  }

  /** A line that ends on the row below the viewport passes the bounds test there and does not fit. */
  lemma BottomLineSpills(p: Point, x: int, w: nat, h: nat)
    requires w > 0 && h > 0 && 0 <= x <= w
    ensures !Fits(w * h, p, Point(x, h), w, h)
  {
    hide LinePoint;
    FrameHoldsLine(p, Point(x, h), w, h);
    LineEnds(p, Point(x, h));
  }

  /** The ideal line passes exactly midway between two pixels. */
  predicate Tie(k: nat, d: nat, n: nat) { n > 0 && (2 * (k * d) + n) % (2 * n) == 0 }

  /** The same line drawn from its other end has the same point exactly when neither axis is
      at a tie there. */
  lemma Reversed(p: Point, q: Point, k: nat)
    requires k <= Steps(p, q)
    ensures var n := Steps(p, q);
            LinePoint(q, p, n - k) == LinePoint(p, q, k) <==>
            !Tie(k, Abs(q.x - p.x), n) && !Tie(k, Abs(q.y - p.y), n)
  {
    hide Tie, Along, Sign, Abs;
    StepsSymmetric(p, q);
    AxisReversed(k, p.x, q.x, Steps(p, q));
    AxisReversed(k, p.y, q.y, Steps(p, q));
  }

  /** A line with a tie, and the other pixel that its reverse takes there. */
  lemma TieExample()
    ensures LinePoint(Point(0, 0), Point(2, 1), 1) == Point(1, 1)
    ensures LinePoint(Point(2, 1), Point(0, 0), 1) == Point(1, 0)
  {
    hide Along;
    assert Along(1, 1, 2) == 1 && Along(1, 2, 2) == 1 by { TieStep(); }
  }

  lemma TieStep()
    ensures Along(1, 1, 2) == 1 && Along(1, 2, 2) == 1
  {
    hide Round;
    RoundUnique(1, 1, 2, 1);
    RoundFull(1, 2);
  }

  lemma StepsSymmetric(p: Point, q: Point)
    ensures Steps(p, q) == Steps(q, p)
    ensures Abs(q.x - p.x) == Abs(p.x - q.x) <= Steps(p, q) && Abs(q.y - p.y) == Abs(p.y - q.y) <= Steps(p, q)
  {
  }

  lemma AxisReversed(k: nat, from: int, to: int, n: nat)
    requires k <= n && Abs(to - from) <= n
    ensures to + Sign(to, from) * Along(n - k, Abs(to - from), n) == from + Sign(from, to) * Along(k, Abs(to - from), n)
       <==> !Tie(k, Abs(to - from), n)
  {
    hide Tie, Along;
    AlongReversed(k, Abs(to - from), n);
  }

  lemma AlongReversed(k: nat, d: nat, n: nat)
    requires k <= n && d <= n
    ensures Along(n - k, d, n) == d - Along(k, d, n) <==> !Tie(k, d, n)
    ensures d == 0 ==> Along(n - k, d, n) == Along(k, d, n) == 0 && !Tie(k, d, n)
  {
    if n > 0 {
      var j := Round(k, d, n);
      TieMeans(k, d, n);
      RoundBounds(k, d, n);
      hide Round, Tie;
      Distribute(d, n, k);
      Distribute(n, d, j);
      Distribute(n, d - j, 1);
      if Tie(k, d, n) {
        RoundUnique(n - k, d, n, d - j + 1);
      } else {
        RoundUnique(n - k, d, n, d - j);
      }
      if d == 0 { assert k * d == 0; RoundUnique(k, d, n, 0); }
    }
  }

  lemma TieMeans(k: nat, d: nat, n: nat)
    requires n > 0
    ensures Tie(k, d, n) <==> 2 * (k * d) - 2 * (n * Round(k, d, n)) == 0 - n
  {
    var m := 2 * (k * d) + n;
    assert m == (2 * n) * (m / (2 * n)) + m % (2 * n);
    assert (2 * n) * (m / (2 * n)) == 2 * (n * (m / (2 * n)));
  }

  /** Twice the error never leaves [-3n, 3n], so 32-bit arithmetic computes the same line
      whenever both extents are below 2^29. */
  lemma ErrorBound(p: Point, q: Point, k: nat)
    requires k <= Steps(p, q)
    ensures Abs(2 * Error(p, q, k)) <= 3 * Steps(p, q)
  {
    hide Round;
    var a, b, n := Abs(q.x - p.x), Abs(q.y - p.y), Steps(p, q);
    if n > 0 { if a == n { MajorStep(n, b, k); } else { MajorStep(n, a, k); } }
  }
}
