/** Drawing into a framebuffer's colour buffer: `pixel` writes one pixel's
    three colour bytes, `line` rasterizes a segment with an incremental
    error term.

    The pure part describes what is written: `Plot` and `Paint` give the
    colour bytes after a sequence of pixel writes, and `LinePoints` gives
    the pixels `line` writes, in the order it writes them.  The methods
    `Pixel` and `Line` follow the source's statements and are proved to
    produce exactly those writes.

    The source keeps the error term of `line` in a `double` that only ever
    accumulates `|dx|/dy` (steep case) or `|dy|/|dx|` (shallow case) and is
    compared with 0.5.  Here it is an integer scaled by `2*dy`, respectively
    `2*|dx|`: the source's `err` is `e / (2*dy)` (or `e / (2*|dx|)`), so
    `err > 0.5` is `e > dy`, `err -= 1` is `e -= 2*dy` and `err += d_err`
    is `e += 2*|dx|`.  This is the exact-arithmetic reading of the code;
    rounding of the `double` is not modelled. */
module Draw {
  import opened Framebuffer

  /** A pixel position (x, y). */
  type Point = (int, int)

  function Abs(n: int): (r: int)
    ensures r >= 0 && (r == n || r == -n)
  {
    if n < 0 then -n else n
  }

  /** The byte offset of pixel (x, y) in a buffer `w` pixels wide:
      four bytes per pixel, rows one after the other. */
  function Offset(w: int, x: int, y: int): (o: int)
    ensures o % 4 == 0
  {
    (x + y * w) * 4
  }

  /** Whether the three colour bytes of pixel `p` lie inside a buffer of
      `n` bytes.  `pixel` performs no bounds check, so this is what a
      caller must guarantee. */
  predicate Fits(n: int, w: int, p: Point)
  {
    0 <= Offset(w, p.0, p.1) && Offset(w, p.0, p.1) + 2 < n
  }

  /** The colour value written to channel `c` (0 red, 1 green, 2 blue). */
  function Channel(c: int, r: byte, g: byte, b: byte): (v: byte)
  {
    if c == 0 then r else if c == 1 then g else b
  }

  /** The colour buffer `s` after `pixel` has written (r, g, b) at `p`.
      `pixel` is only ever called on a pixel that fits (its precondition);
      for one that does not, `Plot` leaves the buffer alone, which keeps
      `Paint` total. */
  function Plot(s: seq<byte>, w: int, p: Point, r: byte, g: byte, b: byte): (t: seq<byte>)
    ensures |t| == |s|
  {
    var o := Offset(w, p.0, p.1);
    if Fits(|s|, w, p) then s[o := r][o + 1 := g][o + 2 := b] else s
  }

  /** `pixel` sets the red, green and blue bytes of the pixel and leaves
      every other byte, its alpha byte included, as it was. */
  lemma PlotAt(s: seq<byte>, w: int, p: Point, r: byte, g: byte, b: byte, i: int)
    requires Fits(|s|, w, p)
    requires 0 <= i < |s|
    ensures var o := Offset(w, p.0, p.1);
      Plot(s, w, p, r, g, b)[i] ==
        if i == o then r else if i == o + 1 then g else if i == o + 2 then b else s[i]
  {
  }

  /** The colour buffer `s` after writing (r, g, b) at every point of `pts`,
      first to last. */
  function Paint(s: seq<byte>, w: int, pts: seq<Point>, r: byte, g: byte, b: byte): (t: seq<byte>)
    ensures |t| == |s|
    decreases |pts|
  {
    if pts == [] then s
    else Plot(Paint(s, w, pts[..|pts| - 1], r, g, b), w, pts[|pts| - 1], r, g, b)
  }

  /** Writing one more pixel after a sequence of writes. */
  lemma PaintSnoc(s: seq<byte>, w: int, pts: seq<Point>, p: Point, r: byte, g: byte, b: byte)
    ensures Paint(s, w, pts + [p], r, g, b) == Plot(Paint(s, w, pts, r, g, b), w, p, r, g, b)
  {
    assert (pts + [p])[..|pts|] == pts;
  }

  /** Stepping past the first of the remaining points `pts[k..]`. */
  lemma NextOf(pts: seq<Point>, k: int, p: Point, rest: seq<Point>)
    requires 0 <= k <= |pts| && pts[k..] == [p] + rest
    ensures k < |pts| && pts[k] == p && pts[k + 1..] == rest && pts[..k + 1] == pts[..k] + [p]
  {
    assert pts[k..][0] == p;
    assert pts[k + 1..] == pts[k..][1..];
  }

  /** Whether some point of `pts` has its pixel at byte offset `o`. */
  ghost predicate Painted(w: int, pts: seq<Point>, o: int)
  {
    exists k :: 0 <= k < |pts| && Offset(w, pts[k].0, pts[k].1) == o
  }

  /** What a sequence of pixel writes leaves in each byte: the colour
      channel if the byte is a red, green or blue byte of a written pixel,
      and the old byte otherwise.  In particular no alpha byte changes and
      no byte outside the written pixels changes. */
  lemma {:induction false} PaintAt(s: seq<byte>, w: int, pts: seq<Point>, r: byte, g: byte, b: byte, i: int)
    requires forall k :: 0 <= k < |pts| ==> Fits(|s|, w, pts[k])
    requires 0 <= i < |s|
    ensures Paint(s, w, pts, r, g, b)[i] ==
      if i % 4 != 3 && Painted(w, pts, i - i % 4) then Channel(i % 4, r, g, b) else s[i]
    decreases |pts|
  {
    if pts != [] {
      var init, p := pts[..|pts| - 1], pts[|pts| - 1];
      PaintAt(s, w, init, r, g, b, i);
      var o := Offset(w, p.0, p.1);
      PixelBytes(w, p.0, p.1, i);
      PaintedSnoc(w, init, p, i - i % 4);
      assert pts == init + [p];
      PlotAt(Paint(s, w, init, r, g, b), w, p, r, g, b, i);
    }
  }

  /** The byte `i` belongs to the colour channels of the pixel at `o`
      exactly when `i - i % 4` is `o` and `i` is not an alpha byte. */
  lemma PixelBytes(w: int, x: int, y: int, i: int)
    ensures var o := Offset(w, x, y);
      (i == o || i == o + 1 || i == o + 2) <==> (i % 4 != 3 && i - i % 4 == o)
  {
    var m := x + y * w;
    assert Offset(w, x, y) == m * 4;
  }

  lemma PaintedSnoc(w: int, pts: seq<Point>, p: Point, o: int)
    ensures Painted(w, pts + [p], o) <==> Painted(w, pts, o) || Offset(w, p.0, p.1) == o
  {
    var all := pts + [p];
    if Painted(w, all, o) {
      var k :| 0 <= k < |all| && Offset(w, all[k].0, all[k].1) == o;
      if k < |pts| {
        assert all[k] == pts[k];
      }
    }
    if Painted(w, pts, o) {
      var k :| 0 <= k < |pts| && Offset(w, pts[k].0, pts[k].1) == o;
      assert all[k] == pts[k];
    }
    if Offset(w, p.0, p.1) == o {
      assert all[|pts|] == p;
    }
  }

  /** `pixel`: write the three colour bytes of (x, y).  There is no bounds
      check in the source, so the caller must keep the bytes in range. */
  method Pixel(fb: Framebuffer, x: int, y: int, r: byte, g: byte, b: byte)
    requires fb.color != null && Fits(fb.color.Length, fb.width, (x, y))
    modifies fb.color
    ensures fb.color[..] == Plot(old(fb.color[..]), fb.width, (x, y), r, g, b)
    ensures fb.color[Offset(fb.width, x, y)] == r
    ensures fb.color[Offset(fb.width, x, y) + 1] == g
    ensures fb.color[Offset(fb.width, x, y) + 2] == b
    ensures forall i :: 0 <= i < fb.color.Length && i != Offset(fb.width, x, y) &&
                        i != Offset(fb.width, x, y) + 1 && i != Offset(fb.width, x, y) + 2 ==>
                        fb.color[i] == old(fb.color[i])
    ensures fb.depth != null ==> fb.depth[..] == old(fb.depth[..])
  {
    var pi := (x + y * fb.width) * 4;
    fb.color[pi + 0] := r;
    fb.color[pi + 1] := g;
    fb.color[pi + 2] := b;
  }

  // ---------------------------------------------------------------------
  // The pixels `line` writes

  /** The pixels the steep loop writes from the state (x, y, e) on, one per
      row until row `y1` (excluded): after each write the error grows by
      `|dx|/dy`, and when it exceeds one half, x moves by `d` and the error
      drops by one. */
  function SteepFrom(x: int, y: int, e: int, y1: int, d: int, adx: int, dy: int): (r: seq<Point>)
    ensures y <= y1 ==> |r| == y1 - y
    decreases y1 - y
  {
    if y >= y1 then []
    else if e + 2 * adx > dy then [(x, y)] + SteepFrom(x + d, y + 1, e + 2 * adx - 2 * dy, y1, d, adx, dy)
    else [(x, y)] + SteepFrom(x, y + 1, e + 2 * adx, y1, d, adx, dy)
  }

  /** The pixels the shallow loop writes in its `n` remaining iterations
      from the state (x, y, e): x moves by `d` every time, and y moves up by
      one when the error, grown by `|dy|/|dx|`, exceeds one half. */
  function ShallowFrom(x: int, y: int, e: int, n: nat, d: int, ady: int, adx: int): (r: seq<Point>)
    ensures |r| == n
    decreases n
  {
    if n == 0 then []
    else if e + 2 * ady > adx then [(x, y)] + ShallowFrom(x + d, y + 1, e + 2 * ady - 2 * adx, n - 1, d, ady, adx)
    else [(x, y)] + ShallowFrom(x + d, y, e + 2 * ady, n - 1, d, ady, adx)
  }

  /** The first pixel the steep loop writes from a state is that state's. */
  lemma SteepHead(x: int, y: int, e: int, y1: int, d: int, adx: int, dy: int)
    requires y < y1
    ensures |SteepFrom(x, y, e, y1, d, adx, dy)| > 0 && SteepFrom(x, y, e, y1, d, adx, dy)[0] == (x, y)
  {
  }

  /** One step of the steep loop, from (x, y, e) to (nx, y + 1, ne). */
  lemma SteepStep(x: int, y: int, e: int, y1: int, d: int, adx: int, dy: int, nx: int, ne: int)
    requires y < y1
    requires e + 2 * adx > dy ==> nx == x + d && ne == e + 2 * adx - 2 * dy
    requires e + 2 * adx <= dy ==> nx == x && ne == e + 2 * adx
    ensures SteepFrom(x, y, e, y1, d, adx, dy) == [(x, y)] + SteepFrom(nx, y + 1, ne, y1, d, adx, dy)
  {
  }

  /** The first pixel the shallow loop writes from a state is that state's. */
  lemma ShallowHead(x: int, y: int, e: int, n: nat, d: int, ady: int, adx: int)
    requires n > 0
    ensures |ShallowFrom(x, y, e, n, d, ady, adx)| > 0 && ShallowFrom(x, y, e, n, d, ady, adx)[0] == (x, y)
  {
  }

  /** One step of the shallow loop, from (x, y, e) to (x + d, ny, ne). */
  lemma ShallowStep(x: int, y: int, e: int, n: nat, d: int, ady: int, adx: int, ny: int, ne: int)
    requires n > 0
    requires e + 2 * ady > adx ==> ny == y + 1 && ne == e + 2 * ady - 2 * adx
    requires e + 2 * ady <= adx ==> ny == y && ne == e + 2 * ady
    ensures ShallowFrom(x, y, e, n, d, ady, adx) == [(x, y)] + ShallowFrom(x + d, ny, ne, n - 1, d, ady, adx)
  {
  }

  /** The x step direction of `line`: +1 towards a larger x, -1 otherwise
      (a vertical line also gets -1, but never moves in x). */
  function Direction(x0: int, x1: int): (d: int)
    ensures d == 1 || d == -1
    ensures d == 1 <==> x1 > x0
  {
    if x1 > x0 then 1 else -1
  }

  /** The pixels of a line whose endpoints are already ordered by y. */
  function Raster(x0: int, y0: int, x1: int, y1: int): (pts: seq<Point>)
    ensures y0 <= y1 ==>
      |pts| == if Abs(y1 - y0) > Abs(x1 - x0) then y1 - y0 else Abs(x1 - x0)
  {
    var dx, dy := x1 - x0, y1 - y0;
    var d := Direction(x0, x1);
    if Abs(dy) > Abs(dx) then SteepFrom(x0, y0, 0, y1, d, Abs(dx), dy)
    else ShallowFrom(x0, y0, 0, Abs(dx), d, Abs(dy), Abs(dx))
  }

  /** The endpoint `line` starts from (the one with the smaller y; the
      first one when both have the same y) and the one it heads to. */
  function Near(x0: int, y0: int, x1: int, y1: int): (p: Point)
  {
    if y1 < y0 then (x1, y1) else (x0, y0)
  }

  function Far(x0: int, y0: int, x1: int, y1: int): (p: Point)
  {
    if y1 < y0 then (x0, y0) else (x1, y1)
  }

  /** The pixels `line(x0, y0, x1, y1)` writes, in order: as many as
      the larger of |dx| and |dy|. */
  function LinePoints(x0: int, y0: int, x1: int, y1: int): (pts: seq<Point>)
    ensures |pts| == if Abs(y1 - y0) > Abs(x1 - x0) then Abs(y1 - y0) else Abs(x1 - x0)
  {
    if y1 < y0 then Raster(x1, y1, x0, y0) else Raster(x0, y0, x1, y1)
  }

  /** Remaining distance from `v` to `t` in direction `d`. */
  function Toward(d: int, v: int, t: int): (n: int)
  {
    if d == 1 then t - v else v - t
  }

  /** The column `k` steps from `x` in direction `d`. */
  function Along(x: int, d: int, k: int): (c: int)
  {
    if d == 1 then x + k else x - k
  }

  /** Consecutive points of a steep path go up one row and move in x by 0
      or by `d`. */
  ghost predicate SteepPath(path: seq<Point>, d: int)
  {
    forall k :: 0 <= k < |path| - 1 ==>
      path[k + 1].1 == path[k].1 + 1 && (path[k + 1].0 == path[k].0 || path[k + 1].0 == path[k].0 + d)
  }

  /** Consecutive points of a shallow path move by `d` in x and by 0 or +1
      in y. */
  ghost predicate ShallowPath(path: seq<Point>, d: int)
  {
    forall k :: 0 <= k < |path| - 1 ==>
      path[k + 1].0 == path[k].0 + d && (path[k + 1].1 == path[k].1 || path[k + 1].1 == path[k].1 + 1)
  }

  lemma HalfScale(a: int, q: int)
    requires a > 0 && 2 * a * q > -a
    ensures q >= 0
  {
  }

  lemma ScaledZero(a: int, q: int)
    requires a > 0 && -a < 2 * a * q <= a
    ensures q == 0
  {
    HalfScale(a, q);
  }

  lemma NonNegProduct(a: int, b: int)
    requires 0 <= a && 0 <= b
    ensures 0 <= a * b
  {
  }

  /** The invariant of the steep loop in the state (x, y, e): the scaled
      error lies in (-dy, dy], that is, `err` lies in (-1/2, 1/2], and it
      measures exactly how far the pixel is from the ideal line, so that x
      never overshoots x1. */
  ghost predicate SteepState(x: int, y: int, e: int, x1: int, y1: int, d: int, adx: int, dy: int)
  {
    && (d == 1 || d == -1)
    && 0 <= adx < dy
    && y <= y1
    && -dy < e <= dy
    && 0 <= Toward(d, x, x1) <= adx
    && e + 2 * adx * (y1 - y) == 2 * dy * Toward(d, x, x1)
  }

  /** One iteration of the steep loop keeps its invariant. */
  lemma SteepNext(x: int, y: int, e: int, x1: int, y1: int, d: int, adx: int, dy: int, nx: int, ne: int)
    requires SteepState(x, y, e, x1, y1, d, adx, dy) && y < y1
    requires e + 2 * adx > dy ==> nx == x + d && ne == e + 2 * adx - 2 * dy
    requires e + 2 * adx <= dy ==> nx == x && ne == e + 2 * adx
    ensures SteepState(nx, y + 1, ne, x1, y1, d, adx, dy)
  {
    var q, rows := Toward(d, x, x1), y1 - y;
    LessOne(2 * adx, rows);
    NonNegProduct(2 * adx, rows - 1);
    if e + 2 * adx > dy {
      assert Toward(d, nx, x1) == q - 1;
      LessOne(2 * dy, q);
      assert 2 * dy * (q - 1) == ne + 2 * adx * (rows - 1);
      HalfScale(dy, q - 1);
    }
  }

  lemma LessOne(a: int, b: int)
    ensures a * (b - 1) == a * b - a
  {
  }

  /** When the steep loop ends (row y1), x has reached x1 exactly. */
  lemma SteepLast(x: int, y: int, e: int, x1: int, y1: int, d: int, adx: int, dy: int)
    requires SteepState(x, y, e, x1, y1, d, adx, dy) && y == y1
    ensures x == x1
  {
    ScaledZero(dy, Toward(d, x, x1));
  }

  /** The steep loop, run from any state satisfying its invariant, writes
      one pixel per remaining row and ends exactly on the far endpoint: the
      pixels it writes followed by (x1, y1) form a steep path from (x, y),
      and every one of them lies between x and x1. */
  lemma {:induction false} SteepWalk(x: int, y: int, e: int, x1: int, y1: int, d: int, adx: int, dy: int)
    requires SteepState(x, y, e, x1, y1, d, adx, dy)
    ensures SteepShape(SteepFrom(x, y, e, y1, d, adx, dy) + [(x1, y1)], x, y, x1, d)
    decreases y1 - y
  {
    var pts := SteepFrom(x, y, e, y1, d, adx, dy);
    var path := pts + [(x1, y1)];
    if y == y1 {
      SteepLast(x, y, e, x1, y1, d, adx, dy);
      assert path == [(x, y)];
    } else {
      var nx, ne;
      if e + 2 * adx > dy {
        nx, ne := x + d, e + 2 * adx - 2 * dy;
      } else {
        nx, ne := x, e + 2 * adx;
      }
      SteepNext(x, y, e, x1, y1, d, adx, dy, nx, ne);
      SteepStep(x, y, e, y1, d, adx, dy, nx, ne);
      SteepWalk(nx, y + 1, ne, x1, y1, d, adx, dy);
      var rest := SteepFrom(nx, y + 1, ne, y1, d, adx, dy);
      SteepCons(x, y, x1, d, nx, rest + [(x1, y1)]);
      Regroup((x, y), rest, (x1, y1));
    }
  }

  lemma Regroup(a: Point, rest: seq<Point>, c: Point)
    ensures ([a] + rest) + [c] == [a] + (rest + [c])
  {
  }

  /** A steep path from (x, y) towards column x1: one row per point,
      starting at row y, each point between x and x1. */
  ghost predicate SteepShape(path: seq<Point>, x: int, y: int, x1: int, d: int)
  {
    && |path| > 0
    && path[0] == (x, y)
    && SteepPath(path, d)
    && (forall k :: 0 <= k < |path| ==> path[k].1 == y + k)
    && (forall k :: 0 <= k < |path| ==> 0 <= Toward(d, path[k].0, x1) <= Toward(d, x, x1))
  }

  /** Putting a point in front of a steep path whose first point is one
      steep step away gives a steep path. */
  lemma SteepCons(x: int, y: int, x1: int, d: int, nx: int, rest: seq<Point>)
    requires SteepShape(rest, nx, y + 1, x1, d)
    requires nx == x || nx == x + d
    requires Toward(d, nx, x1) <= Toward(d, x, x1)
    ensures SteepShape([(x, y)] + rest, x, y, x1, d)
  {
    var path := [(x, y)] + rest;
    forall k | 0 <= k < |path| - 1
      ensures path[k + 1].1 == path[k].1 + 1 && (path[k + 1].0 == path[k].0 || path[k + 1].0 == path[k].0 + d)
    {
      if k > 0 {
        assert path[k] == rest[k - 1] && path[k + 1] == rest[k];
      }
    }
    forall k | 0 <= k < |path|
      ensures path[k].1 == y + k && 0 <= Toward(d, path[k].0, x1) <= Toward(d, x, x1)
    {
      if k > 0 {
        assert path[k] == rest[k - 1];
      }
    }
  }

  /** The invariant of the shallow loop with `n` iterations to go: the
      scaled error lies in (-|dx|, |dx|], that is, `err` lies in
      (-1/2, 1/2], and it measures how far the pixel is from the ideal line,
      so that y never overshoots y1. */
  ghost predicate ShallowState(x: int, y: int, e: int, n: nat, x1: int, y1: int, d: int, ady: int, adx: int)
  {
    && (d == 1 || d == -1)
    && 0 <= ady <= adx && 0 < adx
    && n == Toward(d, x, x1)
    && 0 <= y1 - y <= ady
    && -adx < e <= adx
    && e + 2 * ady * n == 2 * adx * (y1 - y)
  }

  /** One iteration of the shallow loop keeps its invariant. */
  lemma ShallowNext(x: int, y: int, e: int, n: nat, x1: int, y1: int, d: int, ady: int, adx: int, ny: int, ne: int)
    requires ShallowState(x, y, e, n, x1, y1, d, ady, adx) && n > 0
    requires e + 2 * ady > adx ==> ny == y + 1 && ne == e + 2 * ady - 2 * adx
    requires e + 2 * ady <= adx ==> ny == y && ne == e + 2 * ady
    ensures ShallowState(x + d, ny, ne, n - 1, x1, y1, d, ady, adx)
  {
    var p := y1 - y;
    LessOne(2 * ady, n);
    NonNegProduct(2 * ady, n - 1);
    if e + 2 * ady > adx {
      LessOne(2 * adx, p);
      assert 2 * adx * (p - 1) == ne + 2 * ady * (n - 1);
      HalfScale(adx, p - 1);
    } else {
      HalfScale(adx, p);
    }
  }

  /** When the shallow loop ends (no iteration left), y has reached y1
      exactly. */
  lemma ShallowLast(x: int, y: int, e: int, n: nat, x1: int, y1: int, d: int, ady: int, adx: int)
    requires ShallowState(x, y, e, n, x1, y1, d, ady, adx) && n == 0
    ensures x == x1 && y == y1
  {
    ScaledZero(adx, y1 - y);
  }

  /** The shallow loop, run from any state satisfying its invariant with
      `n` steps to go, writes `n` pixels, one per column, and ends exactly
      on the far endpoint: its pixels followed by (x1, y1) form a shallow
      path from (x, y) whose rows lie between y and y1. */
  lemma {:induction false} ShallowWalk(x: int, y: int, e: int, n: nat, x1: int, y1: int, d: int, ady: int, adx: int)
    requires ShallowState(x, y, e, n, x1, y1, d, ady, adx)
    ensures ShallowShape(ShallowFrom(x, y, e, n, d, ady, adx) + [(x1, y1)], x, y, y1, d)
    decreases n
  {
    var pts := ShallowFrom(x, y, e, n, d, ady, adx);
    var path := pts + [(x1, y1)];
    if n == 0 {
      ShallowLast(x, y, e, n, x1, y1, d, ady, adx);
      assert path == [(x, y)];
    } else {
      var ny, ne;
      if e + 2 * ady > adx {
        ny, ne := y + 1, e + 2 * ady - 2 * adx;
      } else {
        ny, ne := y, e + 2 * ady;
      }
      ShallowNext(x, y, e, n, x1, y1, d, ady, adx, ny, ne);
      ShallowStep(x, y, e, n, d, ady, adx, ny, ne);
      ShallowWalk(x + d, ny, ne, n - 1, x1, y1, d, ady, adx);
      var rest := ShallowFrom(x + d, ny, ne, n - 1, d, ady, adx);
      ShallowCons(x, y, y1, d, ny, rest + [(x1, y1)]);
      Regroup((x, y), rest, (x1, y1));
    }
  }

  /** A shallow path from (x, y) whose rows stay between y and y1: the
      k-th point is k steps of `d` from x. */
  ghost predicate ShallowShape(path: seq<Point>, x: int, y: int, y1: int, d: int)
  {
    && |path| > 0
    && path[0] == (x, y)
    && ShallowPath(path, d)
    && (forall k :: 0 <= k < |path| ==> path[k].0 == Along(x, d, k))
    && (forall k :: 0 <= k < |path| ==> y <= path[k].1 <= y1)
  }

  /** Putting a point in front of a shallow path whose first point is one
      shallow step away gives a shallow path. */
  lemma ShallowCons(x: int, y: int, y1: int, d: int, ny: int, rest: seq<Point>)
    requires d == 1 || d == -1
    requires ShallowShape(rest, x + d, ny, y1, d)
    requires ny == y || ny == y + 1
    ensures ShallowShape([(x, y)] + rest, x, y, y1, d)
  {
    var path := [(x, y)] + rest;
    forall k | 0 <= k < |path| - 1
      ensures path[k + 1].0 == path[k].0 + d && (path[k + 1].1 == path[k].1 || path[k + 1].1 == path[k].1 + 1)
    {
      if k > 0 {
        assert path[k] == rest[k - 1] && path[k + 1] == rest[k];
      }
    }
    forall k | 0 <= k < |path|
      ensures path[k].0 == Along(x, d, k) && y <= path[k].1 <= y1
    {
      if k > 0 {
        assert path[k] == rest[k - 1];
      }
    }
  }

  // ---------------------------------------------------------------------
  // What `line` writes, stated on its endpoints

  /** The state in which `line` enters its steep loop satisfies the loop's
      invariant. */
  lemma SteepStart(x0: int, y0: int, x1: int, y1: int)
    requires y0 <= y1 && Abs(y1 - y0) > Abs(x1 - x0)
    ensures SteepState(x0, y0, 0, x1, y1, Direction(x0, x1), Abs(x1 - x0), y1 - y0)
  {
    var adx, dy := Abs(x1 - x0), y1 - y0;
    assert Toward(Direction(x0, x1), x0, x1) == adx;
    assert 2 * adx * dy == 2 * dy * adx;
  }

  /** The steep loop's writes for endpoints already ordered by y. */
  lemma SteepRaster(x0: int, y0: int, x1: int, y1: int)
    requires y0 <= y1 && Abs(y1 - y0) > Abs(x1 - x0)
    ensures var pts := Raster(x0, y0, x1, y1);
      && |pts| == y1 - y0
      && pts[0] == (x0, y0)
      && SteepPath(pts + [(x1, y1)], Direction(x0, x1))
      && (forall k :: 0 <= k < |pts| ==> pts[k].1 == y0 + k < y1)
      && (forall k :: 0 <= k < |pts| ==> Between(x0, pts[k].0, x1))
  {
    var d := Direction(x0, x1);
    var pts := SteepFrom(x0, y0, 0, y1, d, Abs(x1 - x0), y1 - y0);
    assert Raster(x0, y0, x1, y1) == pts;
    SteepStart(x0, y0, x1, y1);
    SteepWalk(x0, y0, 0, x1, y1, d, Abs(x1 - x0), y1 - y0);
    SteepRows(pts, x0, y0, x1, y1, d);
  }

  /** What a steep path from (x0, y0) to (x1, y1) says of the points
      before its last one. */
  lemma SteepRows(pts: seq<Point>, x0: int, y0: int, x1: int, y1: int, d: int)
    requires d == Direction(x0, x1) && |pts| == y1 - y0
    requires SteepShape(pts + [(x1, y1)], x0, y0, x1, d)
    ensures forall k :: 0 <= k < |pts| ==> pts[k].1 == y0 + k < y1 && Between(x0, pts[k].0, x1)
  {
    var path := pts + [(x1, y1)];
    forall k | 0 <= k < |pts|
      ensures pts[k].1 == y0 + k < y1 && Between(x0, pts[k].0, x1)
    {
      assert path[k] == pts[k];
      TowardBetween(d, x0, pts[k].0, x1);
    }
  }

  /** A steep line (|dy| > |dx|) writes exactly |dy| pixels, one on each row
      from the near endpoint's row up to, and excluding, the far endpoint's:
      the first is the near endpoint, each next one moves in x by 0 or by
      the direction `d`, and one more such step lands exactly on the far
      endpoint, which is never written.  Every pixel lies between the
      endpoints' columns. */
  lemma SteepLine(x0: int, y0: int, x1: int, y1: int)
    requires Abs(y1 - y0) > Abs(x1 - x0)
    ensures var n, f := Near(x0, y0, x1, y1), Far(x0, y0, x1, y1);
      var pts := LinePoints(x0, y0, x1, y1);
      && |pts| == Abs(y1 - y0)
      && pts[0] == n
      && SteepPath(pts + [f], Direction(n.0, f.0))
      && (forall k :: 0 <= k < |pts| ==> pts[k].1 == n.1 + k < f.1)
      && (forall k :: 0 <= k < |pts| ==> Between(n.0, pts[k].0, f.0))
  {
    if y1 < y0 {
      SteepRaster(x1, y1, x0, y0);
    } else {
      SteepRaster(x0, y0, x1, y1);
    }
  }

  /** The state in which `line` enters its shallow loop satisfies the
      loop's invariant. */
  lemma ShallowStart(x0: int, y0: int, x1: int, y1: int)
    requires y0 <= y1 && Abs(y1 - y0) <= Abs(x1 - x0) && x0 != x1
    ensures ShallowState(x0, y0, 0, Abs(x1 - x0), x1, y1, Direction(x0, x1), Abs(y1 - y0), Abs(x1 - x0))
  {
    var adx, ady := Abs(x1 - x0), Abs(y1 - y0);
    assert Toward(Direction(x0, x1), x0, x1) == adx;
    assert 2 * ady * adx == 2 * adx * (y1 - y0);
  }

  /** The shallow loop's writes for endpoints already ordered by y. */
  lemma ShallowRaster(x0: int, y0: int, x1: int, y1: int)
    requires y0 <= y1 && Abs(y1 - y0) <= Abs(x1 - x0)
    ensures var pts := Raster(x0, y0, x1, y1);
      var d := Direction(x0, x1);
      && |pts| == Abs(x1 - x0)
      && (|pts| > 0 ==> pts[0] == (x0, y0) && ShallowPath(pts + [(x1, y1)], d))
      && (forall k :: 0 <= k < |pts| ==> pts[k].0 == Along(x0, d, k) != x1)
      && (forall k :: 0 <= k < |pts| ==> y0 <= pts[k].1 <= y1)
  {
    var d := Direction(x0, x1);
    var adx, ady := Abs(x1 - x0), Abs(y1 - y0);
    var pts := ShallowFrom(x0, y0, 0, adx, d, ady, adx);
    assert Raster(x0, y0, x1, y1) == pts;
    if adx > 0 {
      ShallowStart(x0, y0, x1, y1);
      ShallowWalk(x0, y0, 0, adx, x1, y1, d, ady, adx);
      var path := pts + [(x1, y1)];
      forall k | 0 <= k < |pts|
        ensures pts[k].0 == Along(x0, d, k) != x1 && y0 <= pts[k].1 <= y1
      {
        assert path[k] == pts[k];
      }
    }
  }

  /** A shallow line (|dy| <= |dx|) writes exactly |dx| pixels, one in each
      column from the near endpoint's up to, and excluding, the far
      endpoint's: the k-th is k steps of `d` away from the near endpoint,
      each next one moves in y by 0 or +1 (never down), and one more such
      step lands exactly on the far endpoint.  Every pixel lies between the
      endpoints' rows.  A zero-length line writes nothing. */
  lemma ShallowLine(x0: int, y0: int, x1: int, y1: int)
    requires Abs(y1 - y0) <= Abs(x1 - x0)
    ensures var n, f := Near(x0, y0, x1, y1), Far(x0, y0, x1, y1);
      var pts := LinePoints(x0, y0, x1, y1);
      var d := Direction(n.0, f.0);
      && |pts| == Abs(x1 - x0)
      && (|pts| > 0 ==> pts[0] == n && ShallowPath(pts + [f], d))
      && (forall k :: 0 <= k < |pts| ==> pts[k].0 == Along(n.0, d, k) != f.0)
      && (forall k :: 0 <= k < |pts| ==> n.1 <= pts[k].1 <= f.1)
  {
    if y1 < y0 {
      ShallowRaster(x1, y1, x0, y0);
    } else {
      ShallowRaster(x0, y0, x1, y1);
    }
  }

  lemma TowardBetween(d: int, a: int, v: int, b: int)
    requires d == Direction(a, b)
    requires 0 <= Toward(d, v, b) <= Toward(d, a, b)
    ensures Between(a, v, b)
  {
  }

  /** `v` lies between `a` and `b`, inclusive, in either order. */
  predicate Between(a: int, v: int, b: int)
  {
    (a <= v <= b) || (b <= v <= a)
  }

  /** Every pixel `line` writes lies in the bounding box of its two
      endpoints. */
  lemma LineInBox(x0: int, y0: int, x1: int, y1: int)
    ensures var pts := LinePoints(x0, y0, x1, y1);
      forall k :: 0 <= k < |pts| ==> Between(x0, pts[k].0, x1) && Between(y0, pts[k].1, y1)
  {
    var n, f := Near(x0, y0, x1, y1), Far(x0, y0, x1, y1);
    var pts := LinePoints(x0, y0, x1, y1);
    var d := Direction(n.0, f.0);
    if Abs(y1 - y0) > Abs(x1 - x0) {
      SteepLine(x0, y0, x1, y1);
    } else {
      ShallowLine(x0, y0, x1, y1);
      forall k | 0 <= k < |pts|
        ensures Between(n.0, pts[k].0, f.0)
      {
        assert k < Abs(f.0 - n.0);
      }
    }
  }

  /** With the endpoints exchanged, `line` writes the same pixels in the
      same order whenever they lie on different rows; it first reorders
      them so that y grows. */
  lemma LineSymmetric(x0: int, y0: int, x1: int, y1: int)
    requires y0 != y1
    ensures LinePoints(x0, y0, x1, y1) == LinePoints(x1, y1, x0, y0)
  {
  }

  /** On one row the order of the endpoints matters: the line from (0, 5)
      to (10, 5) writes columns 0 to 9 ... */
  lemma HorizontalLine()
    ensures LinePoints(0, 5, 10, 5) == seq(10, k => (k, 5))
  {
    var pts := LinePoints(0, 5, 10, 5);
    ShallowLine(0, 5, 10, 5);
    forall k | 0 <= k < 10
      ensures pts[k] == (k, 5)
    {
    }
  }

  /** ... and the reverse one, from (10, 5) to (0, 5), columns 10 down
      to 1. */
  lemma ReverseHorizontalLine()
    ensures LinePoints(10, 5, 0, 5) == seq(10, k => (10 - k, 5))
  {
    var pts := LinePoints(10, 5, 0, 5);
    ShallowLine(10, 5, 0, 5);
    forall k | 0 <= k < 10
      ensures pts[k] == (10 - k, 5)
    {
    }
  }

  /** The line from (5, 0) to (5, 10) writes rows 0 to 9 of
      column 5; row 10 is not written. */
  lemma VerticalLine()
    ensures LinePoints(5, 0, 5, 10) == seq(10, k => (5, k))
  {
    var pts := LinePoints(5, 0, 5, 10);
    SteepLine(5, 0, 5, 10);
    forall k | 0 <= k < 10
      ensures pts[k] == (5, k)
    {
      assert Between(5, pts[k].0, 5);
    }
  }

  /** A pixel inside a w-by-h framebuffer has its colour bytes inside the
      colour buffer of `w*h*4` bytes. */
  lemma PixelInside(w: int, h: int, x: int, y: int)
    requires 0 <= x < w && 0 <= y < h
    ensures Fits(w * h * 4, w, (x, y))
  {
    assert y * w <= (h - 1) * w by {
      NonNegProduct(h - 1 - y, w);
    }
    NonNegProduct(y, w);
  }

  /** When both endpoints lie inside a w-by-h framebuffer, every pixel
      `line` writes does, so `line` meets `pixel`'s requirement. */
  lemma EndpointsInside(w: int, h: int, x0: int, y0: int, x1: int, y1: int)
    requires 0 <= x0 < w && 0 <= y0 < h && 0 <= x1 < w && 0 <= y1 < h
    ensures var pts := LinePoints(x0, y0, x1, y1);
      forall k :: 0 <= k < |pts| ==> Fits(w * h * 4, w, pts[k])
  {
    var pts := LinePoints(x0, y0, x1, y1);
    LineInBox(x0, y0, x1, y1);
    forall k | 0 <= k < |pts|
      ensures Fits(w * h * 4, w, pts[k])
    {
      PixelInside(w, h, pts[k].0, pts[k].1);
    }
  }

  /** `line`: order the endpoints by y, then write one pixel per row (steep
      case, the `for` loop of `SteepLoop`) or one per column (shallow case,
      the `while` loop of `ShallowLoop`), every one through `Pixel` with the
      same colour.  The colour buffer ends up as `Paint` of the pixels
      `LinePoints` lists, so (by `PaintAt`) no byte outside those pixels and
      no alpha byte changes. */
  method Line(fb: Framebuffer, x0: int, y0: int, x1: int, y1: int, r: byte, g: byte, b: byte)
    requires fb.color != null
    requires forall k :: 0 <= k < |LinePoints(x0, y0, x1, y1)| ==>
               Fits(fb.color.Length, fb.width, LinePoints(x0, y0, x1, y1)[k])
    modifies fb.color
    ensures fb.color[..] == Paint(old(fb.color[..]), fb.width, LinePoints(x0, y0, x1, y1), r, g, b)
  {
    ghost var pts := LinePoints(x0, y0, x1, y1);
    var x0, y0, x1, y1 := x0, y0, x1, y1;
    if y1 < y0 {
      var temp := x0;
      x0 := x1;
      x1 := temp;
      temp := y0;
      y0 := y1;
      y1 := temp;
    }
    assert pts == Raster(x0, y0, x1, y1);

    var dx := x1 - x0;
    var dy := y1 - y0;
    var d;
    if x1 > x0 {
      d := 1;
    } else {
      d := -1;
    }
    if Abs(dy) > Abs(dx) {
      SteepLoop(fb, x0, y0, y1, d, Abs(dx), dy, r, g, b);
    } else {
      ShallowLoop(fb, x0, y0, d, Abs(dy), Abs(dx), r, g, b);
    }
  }

  /** The steep branch of `line`: for each row y from y0 up to y1
      (excluded) write (x, y), then let the error grow by |dx|/dy and, when
      it exceeds one half, drop it by one and move x by `d`.  The scaled
      error is `e = 2*dy*err`; the pixels written are `SteepFrom` of the
      start state, whose bound on the error `SteepState` states. */
  method SteepLoop(fb: Framebuffer, x0: int, y0: int, y1: int, d: int, adx: int, dy: int,
                   r: byte, g: byte, b: byte)
    requires fb.color != null
    requires 0 <= adx < dy && y0 <= y1
    requires forall k :: 0 <= k < |SteepFrom(x0, y0, 0, y1, d, adx, dy)| ==>
               Fits(fb.color.Length, fb.width, SteepFrom(x0, y0, 0, y1, d, adx, dy)[k])
    modifies fb.color
    ensures fb.color[..] == Paint(old(fb.color[..]), fb.width, SteepFrom(x0, y0, 0, y1, d, adx, dy), r, g, b)
  {
    ghost var pts := SteepFrom(x0, y0, 0, y1, d, adx, dy);
    ghost var before := fb.color[..];
    var e := 0;
    var x := x0;
    for y := y0 to y1
      invariant SteepFrom(x, y, e, y1, d, adx, dy) == pts[y - y0..]
      invariant fb.color[..] == Paint(before, fb.width, pts[..y - y0], r, g, b)
    {
      ghost var k, px, pe := y - y0, x, e;
      assert Fits(fb.color.Length, fb.width, (x, y)) by {
        SteepHead(x, y, e, y1, d, adx, dy);
        assert pts[k] == pts[k..][0] == (x, y);
      }
      Pixel(fb, x, y, r, g, b);
      e := e + 2 * adx;
      if e > dy {
        e := e - 2 * dy;
        x := x + d;
      }
      SteepStep(px, y, pe, y1, d, adx, dy, x, e);
      NextOf(pts, k, (px, y), SteepFrom(x, y + 1, e, y1, d, adx, dy));
      PaintSnoc(before, fb.width, pts[..k], (px, y), r, g, b);
    }
    assert pts[..y1 - y0] == pts;
  }

  /** The shallow branch of `line`: |dx| times write (x, y), move x by `d`,
      let the error grow by |dy|/|dx| and, when it exceeds one half, drop it
      by one and move y up by one.  The scaled error is `e = 2*|dx|*err`;
      the pixels written are `ShallowFrom` of the start state, whose bound
      on the error `ShallowState` states. */
  method ShallowLoop(fb: Framebuffer, x0: int, y0: int, d: int, ady: int, adx: int,
                     r: byte, g: byte, b: byte)
    requires fb.color != null
    requires 0 <= ady <= adx
    requires forall k :: 0 <= k < |ShallowFrom(x0, y0, 0, adx, d, ady, adx)| ==>
               Fits(fb.color.Length, fb.width, ShallowFrom(x0, y0, 0, adx, d, ady, adx)[k])
    modifies fb.color
    ensures fb.color[..] == Paint(old(fb.color[..]), fb.width, ShallowFrom(x0, y0, 0, adx, d, ady, adx), r, g, b)
  {
    ghost var pts := ShallowFrom(x0, y0, 0, adx, d, ady, adx);
    ghost var before := fb.color[..];
    var e := 0;
    var y := y0;
    var x := x0;
    var i := 0;
    while i < adx
      invariant 0 <= i <= adx
      invariant ShallowFrom(x, y, e, adx - i, d, ady, adx) == pts[i..]
      invariant fb.color[..] == Paint(before, fb.width, pts[..i], r, g, b)
    {
      ghost var k, px, py, pe := i, x, y, e;
      assert Fits(fb.color.Length, fb.width, (x, y)) by {
        ShallowHead(x, y, e, adx - k, d, ady, adx);
        assert pts[k] == pts[k..][0] == (x, y);
      }
      i := i + 1;
      Pixel(fb, x, y, r, g, b);
      x := x + d;
      e := e + 2 * ady;
      if e > adx {
        e := e - 2 * adx;
        y := y + 1;
      }
      ShallowStep(px, py, pe, adx - k, d, ady, adx, y, e);
      NextOf(pts, k, (px, py), ShallowFrom(x, y, e, adx - i, d, ady, adx));
      PaintSnoc(before, fb.width, pts[..k], (px, py), r, g, b);
    }
    assert pts[..adx] == pts;
  }
}
