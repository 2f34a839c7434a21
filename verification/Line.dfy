/**
 * rd_line of user/desktop/render.c: Bresenham's line without clipping, as the
 * sequence of pixels it visits.
 */
module Line {

  datatype Point = Point(x: int, y: int)

  function Abs(n: int): nat
  {
    if n < 0 then -n else n
  }

  function Sign(n: int): int
  {
    if n < 0 then -1 else 1
  }

  function Max(a: int, b: int): int
  {
    if a < b then b else a
  }

  /** Twice the cross product of p and the direction, over the major extent: within half a pixel on the minor axis. */
  predicate NearLine(a: Point, b: Point, p: Point)
  {
    2 * Abs((p.y - a.y) * (b.x - a.x) - (p.x - a.x) * (b.y - a.y)) <= Max(Abs(b.x - a.x), Abs(b.y - a.y))
  }

  /** From p to q: one step along the major axis towards b, none or one along the other. */
  predicate Steps(a: Point, b: Point, p: Point, q: Point)
  {
    var dx, dy := b.x - a.x, b.y - a.y;
    && (q.x == p.x + Sign(dx) || (q.x == p.x && Abs(dx) < Abs(dy)))
    && (q.y == p.y + Sign(dy) || (q.y == p.y && Abs(dy) < Abs(dx)))
  }

  /** Every pixel is near the line, and each is one step from the last. */
  ghost predicate Drawn(a: Point, b: Point, points: seq<Point>)
  {
    && (forall k :: 0 <= k < |points| ==> NearLine(a, b, points[k]))
    && (forall k :: 0 <= k < |points| - 1 ==> Steps(a, b, points[k], points[k + 1]))
  }

  lemma DrawnNone(a: Point, b: Point)
    ensures Drawn(a, b, [])
  {
  }

  lemma DrawnSnoc(a: Point, b: Point, points: seq<Point>, p: Point)
    requires Drawn(a, b, points) && NearLine(a, b, p) && (points != [] ==> Steps(a, b, points[|points| - 1], p))
    ensures Drawn(a, b, points + [p])
  {
    hide NearLine, Steps;
  }

  /**
   * The visited pixels: exactly one per unit of the longer extent and one
   * more, from a to b, each a major-axis step from the last and each within
   * half a pixel of the true line. The loop has no bound of its own. peak is the
   * largest magnitude the error term and its double ever take: at most three times
   * the longer extent, and exactly twice the length of an axis-parallel line.
   */
  method DrawLine(a: Point, b: Point) returns (points: seq<Point>, ghost peak: nat)
    ensures peak <= 3 * Max(Abs(b.x - a.x), Abs(b.y - a.y))
    ensures peak >= 2 * Abs(Abs(b.x - a.x) - Abs(b.y - a.y))
    ensures a.x == b.x || a.y == b.y ==> peak == 2 * Max(Abs(b.x - a.x), Abs(b.y - a.y))
    ensures |points| == Max(Abs(b.x - a.x), Abs(b.y - a.y)) + 1
    ensures points[0] == a && points[|points| - 1] == b
    ensures Drawn(a, b, points)
  {
    hide Tracks, NearLine, Steps, Passed, Drawn, Peaks, Raised;
    var dx, dy := b.x - a.x, b.y - a.y;
    var adx: int, ady: int := Abs(dx), Abs(dy);
    var sx, sy := Sign(dx), Sign(dy);
    var err := adx - ady;
    var x, y := a.x, a.y;
    ghost var i: int, j: int, d: int := 0, 0, 0;
    points, peak := [], Abs(err);
    Start(a, b);
    DrawnNone(a, b);
    PeaksStart(adx, ady);
    while true
      invariant Peaks(adx, ady, points == [], err, peak)
      invariant Tracks(adx, ady, i, j, d, err, |points|) && i >= 0 && j >= 0 && Point(x, y) == Passed(a, b, i, j)
      invariant if points == [] then Point(x, y) == a
                else points[0] == a && Steps(a, b, points[|points| - 1], Point(x, y))
      invariant Drawn(a, b, points)
      decreases Max(adx, ady) - |points|
    {
      Visit(a, b, i, j, d, err, |points|);
      DrawnSnoc(a, b, points, Point(x, y));
      points := points + [Point(x, y)];
      if x == b.x && y == b.y {
        PeaksEnd(adx, ady, |points| == 1, err, |points| - 1, peak);
        break;
      }
      Iterate(a, b, i, j, d, err, |points| - 1);
      PeaksStep(adx, ady, i, j, d, |points| == 1, err, |points| - 1, peak);
      var e2 := err * 2;
      peak := Raised(peak, err, ady);
      if e2 > -ady {
        err := err - ady;
        x := x + sx;
        i, d := i + 1, d + ady;
      }
      if e2 < adx {
        err := err + adx;
        y := y + sy;
        j, d := j + 1, d - adx;
      }
    }
  }

  /** The point i steps in x and j steps in y from a towards b. */
  ghost function Passed(a: Point, b: Point, i: int, j: int): Point
  {
    Point(a.x + i * Sign(b.x - a.x), a.y + j * Sign(b.y - a.y))
  }

  ghost function Raised(peak: nat, err: int, ady: int): nat
  {
    Max(peak, Max(Abs(err * 2), Abs(err - ady)))
  }

  /** What is known of the peak: at first only err, later that the first iteration counted. */
  ghost predicate Peaks(adx: int, ady: int, first: bool, err: int, peak: nat)
  {
    && peak <= 3 * Max(adx, ady) && (adx == 0 || ady == 0 ==> peak <= 2 * Max(adx, ady))
    && if first then err == adx - ady else peak >= 2 * Abs(adx - ady)
  }

  lemma PeaksStart(adx: int, ady: int)
    requires adx >= 0 && ady >= 0
    ensures Peaks(adx, ady, true, adx - ady, Abs(adx - ady))
  {
  }

  lemma PeaksStep(adx: int, ady: int, i: int, j: int, d: int, first: bool, err: int, n: nat, peak: nat)
    requires adx >= 0 && ady >= 0 && i >= 0 && j >= 0 && Tracks(adx, ady, i, j, d, err, n)
             && Peaks(adx, ady, first, err, peak)
    ensures forall err' :: Peaks(adx, ady, false, err', Raised(peak, err, ady))
  {
    hide Tracks;
    ErrorBound(adx, ady, i, j, d, err, n);
  }

  /** At the end, of a single pixel or after the first iteration. */
  lemma PeaksEnd(adx: int, ady: int, first: bool, err: int, n: nat, peak: nat)
    requires adx >= 0 && ady >= 0 && Peaks(adx, ady, first, err, peak) && (first ==> n == 0) && n == Max(adx, ady)
    ensures peak <= 3 * Max(adx, ady) && peak >= 2 * Abs(adx - ady)
    ensures adx == 0 || ady == 0 ==> peak == 2 * Max(adx, ady)
  {
  }

  /** The error term stays within one and a half times the longer extent. */
  lemma ErrorBound(adx: int, ady: int, i: int, j: int, d: int, err: int, n: nat)
    requires adx >= 0 && ady >= 0 && i >= 0 && j >= 0 && Tracks(adx, ady, i, j, d, err, n)
    ensures Abs(err * 2) <= 3 * Max(adx, ady) && Abs(err - ady) <= 3 * Max(adx, ady)
    ensures adx == 0 || ady == 0 ==> Abs(err * 2) <= 2 * Max(adx, ady) && Abs(err - ady) <= 2 * Max(adx, ady)
  {
    if adx == 0 || ady == 0 {
      if adx == 0 { Axis(i, ady, d); } else { Axis(-j, adx, d); }
    }
  }

  /** Next to an axis-parallel line there is no deviation. */
  lemma Axis(k: int, m: nat, d: int)
    requires d == k * m && 2 * Abs(d) <= m
    ensures d == 0
  {
    if d != 0 { Multiple(k, m); }
  }

  lemma Start(a: Point, b: Point)
    ensures Tracks(Abs(b.x - a.x), Abs(b.y - a.y), 0, 0, 0, Abs(b.x - a.x) - Abs(b.y - a.y), 0)
            && Passed(a, b, 0, 0) == a
  {
  }

  lemma Visit(a: Point, b: Point, i: int, j: int, d: int, err: int, n: nat)
    requires i >= 0 && j >= 0 && Tracks(Abs(b.x - a.x), Abs(b.y - a.y), i, j, d, err, n)
    ensures NearLine(a, b, Passed(a, b, i, j)) && n <= Max(Abs(b.x - a.x), Abs(b.y - a.y))
    ensures Passed(a, b, i, j) == b <==> n == Max(Abs(b.x - a.x), Abs(b.y - a.y))
  {
    hide NearLine;
    OnLine(a, b, i, j, d);
    ReachesEnd(Abs(b.x - a.x), Abs(b.y - a.y), i, j, d, n);
    AtEnd(a, b, i, j);
  }

  lemma Iterate(a: Point, b: Point, i: int, j: int, d: int, err: int, n: nat)
    requires i >= 0 && j >= 0 && Tracks(Abs(b.x - a.x), Abs(b.y - a.y), i, j, d, err, n)
             && n < Max(Abs(b.x - a.x), Abs(b.y - a.y))
    ensures var adx, ady: int := Abs(b.x - a.x), Abs(b.y - a.y);
            var right, down := err * 2 > 0 - ady, err * 2 < adx;
            var i', j' := if right then i + 1 else i, if down then j + 1 else j;
            var d' := d + (if right then ady else 0) - (if down then adx else 0);
            var p, p' := Passed(a, b, i, j), Passed(a, b, i', j');
            && Tracks(adx, ady, i', j', d', err - (if right then ady else 0) + (if down then adx else 0), n + 1)
            && p' == Point(p.x + (if right then Sign(b.x - a.x) else 0), p.y + (if down then Sign(b.y - a.y) else 0))
            && Steps(a, b, p, p')
  {
    hide Tracks;
    var adx, ady: int := Abs(b.x - a.x), Abs(b.y - a.y);
    StepTracks(adx, ady, i, j, d, err, n);
    TracksErr(adx, ady, i, j, d, err, n);
    OneMore(i, Sign(b.x - a.x));
    OneMore(j, Sign(b.y - a.y));
  }

  lemma TracksErr(adx: int, ady: int, i: int, j: int, d: int, err: int, n: nat)
    requires adx >= 0 && ady >= 0 && i >= 0 && j >= 0 && Tracks(adx, ady, i, j, d, err, n)
    ensures err == adx - ady - d
  {
  }

  lemma OneMore(k: int, s: int)
    ensures (k + 1) * s == k * s + s
  {
  }

  /** After n pixels: i steps in x and j in y, n of them on the major axis; d is the deviation i * ady - j * adx. */
  ghost predicate Tracks(adx: nat, ady: nat, i: nat, j: nat, d: int, err: int, n: nat)
  {
    && d == i * ady - j * adx && err == adx - ady - d && 2 * Abs(d) <= Max(adx, ady) && n <= Max(adx, ady)
    && i <= adx && j <= ady && n == Max(i, j) && (adx >= ady ==> i == n) && (ady >= adx ==> j == n)
  }

  lemma OnLine(a: Point, b: Point, i: nat, j: nat, d: int)
    requires d == i * Abs(b.y - a.y) - j * Abs(b.x - a.x) && 2 * Abs(d) <= Max(Abs(b.x - a.x), Abs(b.y - a.y))
    ensures NearLine(a, b, Point(a.x + i * Sign(b.x - a.x), a.y + j * Sign(b.y - a.y)))
  {
    var dx, dy := b.x - a.x, b.y - a.y;
    Signs(j, dy, dx);
    Signs(i, dx, dy);
    SignTwice(dx, dy, j * Abs(dx), i * Abs(dy));
  }

  /** (k * sign u) * w is the product of the magnitudes with both signs. */
  lemma Signs(k: int, u: int, w: int)
    ensures k * Sign(u) * w == Sign(u) * Sign(w) * (k * Abs(w))
  {
    if u < 0 {
      if w < 0 { assert k * -1 * w == k * -w; } else { assert k * -1 * w == -(k * w); }
    } else {
      if w < 0 { assert k * w == -(k * -w); }
    }
  }

  lemma SignTwice(u: int, w: int, p: int, q: int)
    ensures Abs(Sign(u) * Sign(w) * p - Sign(w) * Sign(u) * q) == Abs(q - p)
  {
  }

  lemma AtEnd(a: Point, b: Point, i: nat, j: nat)
    ensures a.x + i * Sign(b.x - a.x) == b.x && a.y + j * Sign(b.y - a.y) == b.y <==>
            i == Abs(b.x - a.x) && j == Abs(b.y - a.y)
  {
  }

  lemma ReachesEnd(adx: nat, ady: nat, i: nat, j: nat, d: int, n: nat)
    requires d == i * ady - j * adx && 2 * Abs(d) <= Max(adx, ady) && n == Max(i, j) && (adx >= ady ==> i == n)
             && (ady >= adx ==> j == n)
    requires i <= adx && j <= ady
    ensures n == Max(adx, ady) <==> i == adx && j == ady
  {
    if n == Max(adx, ady) {
      if adx >= ady {
        if adx > 0 && j != ady { assert d == (ady - j) * adx; Product(ady - j, adx); }
      } else {
        if i != adx { assert d == (i - adx) * ady; Product(adx - i, ady); }
      }
    }
  }

  lemma Product(k: int, m: nat)
    requires k >= 1
    ensures k * m >= m
  {
  }

  /** One iteration steps the major axis, and the other one exactly when that keeps the deviation within a half. */
  lemma StepTracks(adx: int, ady: int, i: int, j: int, d: int, err: int, n: nat)
    requires adx >= 0 && ady >= 0 && i >= 0 && j >= 0 && Tracks(adx, ady, i, j, d, err, n) && n < Max(adx, ady)
    ensures var right, down := err * 2 > 0 - ady, err * 2 < adx;
            var i', j' := if right then i + 1 else i, if down then j + 1 else j;
            var d' := d + (if right then ady else 0) - (if down then adx else 0);
            && Tracks(adx, ady, i', j', d', adx - ady - d', n + 1)
            && (right || adx < ady) && (down || ady < adx)
  {
    var right, down := err * 2 > 0 - ady, err * 2 < adx;
    var i', j' := if right then i + 1 else i, if down then j + 1 else j;
    var d' := d + (if right then ady else 0) - (if down then adx else 0);
    Distribute(adx, ady, i, j, d, i', j', d');
    if adx == ady && adx > 0 { Balanced(adx, i, j, d); }
    if adx >= ady { MinorBound(adx, ady, i', j', d'); }
    if ady >= adx { MinorBound(ady, adx, j', i', -d'); }
  }

  lemma Distribute(adx: int, ady: int, i: int, j: int, d: int, i': int, j': int, d': int)
    requires d == i * ady - j * adx && (i' == i || i' == i + 1) && (j' == j || j' == j + 1)
    requires d' == d + (if i' == i then 0 else ady) - (if j' == j then 0 else adx)
    ensures d' == i' * ady - j' * adx
  {
    assert (i + 1) * ady == i * ady + ady && (j + 1) * adx == j * adx + adx;
  }

  lemma Balanced(a: int, i: int, j: int, d: int)
    requires a > 0 && d == i * a - j * a && 2 * Abs(d) <= a
    ensures d == 0
  {
    assert d == (i - j) * a;
    if i != j { Multiple(i - j, a); }
  }

  lemma Multiple(k: int, a: int)
    requires k != 0 && a > 0
    ensures Abs(k * a) >= a
  {
    if k > 0 { Product(k, a); } else { Product(-k, a); }
  }

  lemma MinorBound(major: int, minor: int, m: int, k: int, d: int)
    requires major > 0 && d == m * minor - k * major && 2 * Abs(d) <= major && m <= major && minor >= 0
    ensures k <= minor
  {
    if k > minor {
      Product(k - minor, major);
      assert (k - minor) * major == k * major - minor * major;
      assert (major - m) * minor == major * minor - m * minor;
      if m < major && minor > 0 { Product(major - m, minor); }
    }
  }
}
