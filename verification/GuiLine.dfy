/** `gui_line`, drawing a line by Bresenham's algorithm, on the packed screen buffer. */
module GuiLine {
  import opened Bits

  datatype Point = Point(x: int, y: int)

  function Abs(n: int): nat { if n < 0 then -n else n }
  function Min(a: int, b: int): int { if a <= b then a else b }
  function Max(a: int, b: int): int { if a >= b then a else b }

  // ---- The ideal line, rounded ----------------------------------------------------------

  /** `n * minor / major` to the nearest integer, halves up. */
  function Rounded(n: nat, minor: nat, major: nat): int {
    if major == 0 then 0 else (2 * (n * minor) + major) / (2 * major)
  }

  /** `k` is within half a pixel of the ideal line, at its distance `n` along the longer axis. */
  predicate HalfPixel(n: int, k: int, minor: int, major: int) {
    -major <= 2 * Off(n, k, minor, major) < major
  }

  /** How far the ideal line is past offset `k` there, times `major`. */
  function Off(n: int, k: int, minor: int, major: int): int { n * minor - k * major }

  lemma MulMono(a: int, b: int, c: nat)
    requires a <= b
    ensures a * c <= b * c
  {
    MulNonNegative(b - a, c);
    assert (b - a) * c == b * c - a * c;
  }

  lemma MulNonNegative(a: nat, c: nat)
    ensures a * c >= 0
  {
  }

  lemma MulStrict(a: int, b: int, c: nat)
    requires a < b
    ensures a * c + c <= b * c
  {
    MulMono(a + 1, b, c);
    assert (a + 1) * c == a * c + c;
  }

  lemma QuotientIs(a: int, k: int, d: nat)
    requires d > 0 && 0 <= a - k * d < d
    ensures a / d == k
  {
    var q := a / d;
    assert a == q * d + a % d;
    if q > k {
      MulStrict(k, q, d);
    } else if q < k {
      MulStrict(q, k, d);
    }
  }

  lemma RoundedIff(n: nat, k: int, minor: nat, major: nat)
    requires major > 0
    ensures HalfPixel(n, k, minor, major) <==> k == Rounded(n, minor, major)
  {
    var a, d := 2 * (n * minor) + major, 2 * major;
    assert k * d == 2 * (k * major);
    if HalfPixel(n, k, minor, major) {
      QuotientIs(a, k, d);
    }
    assert a == (a / d) * d + a % d;
    assert (a / d) * d == 2 * ((a / d) * major);
  }

  /** How far the line goes along its longer axis. */
  function Major(p: Point, q: Point): nat { Max(Abs(q.x - p.x), Abs(q.y - p.y)) }

  function Sign(a: int, b: int): int { if a < b then 1 else -1 }

  /** Pixel `n` of the line from `p` to `q`: `n` steps along the longer axis, and on the other
      one the ideal line rounded. */
  function PixelAt(p: Point, q: Point, n: nat): Point {
    var dx, dy := Abs(q.x - p.x), Abs(q.y - p.y);
    var i := if dx >= dy then n else Rounded(n, dx, dy);
    var j := if dx >= dy then Rounded(n, dy, dx) else n;
    Point(p.x + Sign(p.x, q.x) * i, p.y + Sign(p.y, q.y) * j)
  }

  function Line(p: Point, q: Point): (s: seq<Point>)
    ensures |s| == Major(p, q) + 1
  {
    seq(Major(p, q) + 1, n requires 0 <= n <= Major(p, q) => PixelAt(p, q, n))
  }

  lemma RoundedBounds(n: nat, minor: nat, major: nat)
    requires minor <= major && n <= major
    ensures 0 <= Rounded(n, minor, major) <= minor
    ensures Rounded(0, minor, major) == 0 && Rounded(major, minor, major) == minor
  {
    if major > 0 {
      var k := Rounded(n, minor, major);
      RoundedIff(n, k, minor, major);
      RoundedIff(0, 0, minor, major);
      RoundedIff(major, minor, minor, major);
      hide Rounded;
      MulMono(n, major, minor);
      if k > minor {
        MulStrict(minor, k, major);
      } else if k < 0 {
        MulMono(k, -1, major);
        MulNonNegative(n, minor);
      }
    }
  }

  /** The line starts at the one end point, and its last pixel, not an earlier one, is the other. */
  lemma Ends(p: Point, q: Point, n: nat)
    requires n <= Major(p, q)
    ensures Line(p, q)[0] == p
    ensures Line(p, q)[n] == q <==> n == Major(p, q)
  {
    var dx, dy := Abs(q.x - p.x), Abs(q.y - p.y);
    RoundedBounds(n, Min(dx, dy), Major(p, q));
    hide Rounded;
    assert Line(p, q)[n] == PixelAt(p, q, n) && Line(p, q)[0] == PixelAt(p, q, 0);
  }

  predicate InBox(p: Point, q: Point, r: Point) {
    Min(p.x, q.x) <= r.x <= Max(p.x, q.x) && Min(p.y, q.y) <= r.y <= Max(p.y, q.y)
  }

  /** No pixel is outside the rectangle that the end points span. */
  lemma StaysInBox(p: Point, q: Point, r: Point)
    requires r in Line(p, q)
    ensures InBox(p, q, r)
  {
    var n :| 0 <= n <= Major(p, q) && r == PixelAt(p, q, n);
    RoundedBounds(n, Min(Abs(q.x - p.x), Abs(q.y - p.y)), Major(p, q));
    hide Rounded;
  }

  /** The distance of a pixel from the ideal line along the shorter axis, times the length of
      the longer one. */
  function Deviation(p: Point, q: Point, r: Point): int {
    if Abs(q.x - p.x) >= Abs(q.y - p.y)
    then (q.y - p.y) * (r.x - p.x) * Sign(p.x, q.x) - Abs(q.x - p.x) * (r.y - p.y)
    else (q.x - p.x) * (r.y - p.y) * Sign(p.y, q.y) - Abs(q.y - p.y) * (r.x - p.x)
  }

  lemma SignTimes(a: int, b: int)
    ensures b - a == Sign(a, b) * Abs(b - a)
  {
  }

  lemma Regroup(s: int, m: int, t: int, n: int, k: int, major: int)
    requires (s == 1 || s == -1) && (t == 1 || t == -1)
    ensures (s * m) * (t * n) * t - major * (s * k) == s * Off(n, k, m, major)
  {
    Distribute(s, n * m, k * major);
    assert (t * n) * t == n;
    assert (s * m) * (t * n) * t == (s * m) * n by { Mul3(s * m, t * n, t); }
    if s == 1 { } else { assert (s * m) * n == -(n * m); }
  }

  lemma Distribute(s: int, a: int, b: int)
    ensures s * (a - b) == s * a - s * b
  {
  }

  lemma Mul3(a: int, b: int, c: int)
    ensures a * b * c == a * (b * c)
  {
  }

  /** Every pixel is within half a pixel of the ideal line. */
  lemma NearTheLine(p: Point, q: Point, r: Point)
    requires r in Line(p, q)
    ensures 2 * Abs(Deviation(p, q, r)) <= Major(p, q)
  {
    var n :| 0 <= n <= Major(p, q) && r == PixelAt(p, q, n);
    var dx, dy := Abs(q.x - p.x), Abs(q.y - p.y);
    var major, minor := Major(p, q), Min(dx, dy);
    var k := Rounded(n, minor, major);
    SignTimes(p.x, q.x);
    SignTimes(p.y, q.y);
    if major > 0 { RoundedIff(n, k, minor, major); }
    hide Rounded, Off;
    if dx >= dy {
      Regroup(Sign(p.y, q.y), dy, Sign(p.x, q.x), n, k, dx);
      assert Deviation(p, q, r) == Sign(p.y, q.y) * Off(n, k, dy, dx);
    } else {
      Regroup(Sign(p.x, q.x), dx, Sign(p.y, q.y), n, k, dy);
      assert Deviation(p, q, r) == Sign(p.x, q.x) * Off(n, k, dx, dy);
    }
  }

  // ---- The screen -----------------------------------------------------------------------

  function WithBit(b: bv8, k: nat, on: bool): bv8
    requires k < 8
  {
    if on then b | Mask(k) else b & !Mask(k)
  }

  /** Setting bit `k`, counted from the low end, changes that bit alone. */
  lemma BitSet(b: bv8, k: nat, on: bool)
    requires k < 8
    ensures OctetBits(WithBit(b, k, on)) == OctetBits(b)[k := on]
  {
    hide OctetBits, WithBit;
    forall j | 0 <= j < 8 ensures OctetBits(WithBit(b, k, on))[j] == if j == k then on else OctetBits(b)[j] {
      BitOfWith(b, k, on, j);
    }
  }

  lemma BitOfWith(b: bv8, k: nat, on: bool, j: nat)
    requires k < 8 && j < 8
    ensures OctetBits(WithBit(b, k, on))[j] == if j == k then on else OctetBits(b)[j]
  {
    hide OctetBits, Mask;
    MaskIs(b, j);
    MaskIs(WithBit(b, k, on), j);
    if j != k { MasksDiffer(j, k); KeepsOther(b, Mask(j), Mask(k)); } else { KeepsOwn(b, Mask(k)); MaskIsSet(k); }
  }

  lemma MasksDiffer(j: nat, k: nat)
    requires j < 8 && k < 8 && j != k
    ensures Mask(j) & Mask(k) == 0
  {
  }

  lemma KeepsOther(b: bv8, m: bv8, n: bv8)
    requires m & n == 0
    ensures (b | n) & m == b & m && (b & !n) & m == b & m
  {
  }

  lemma KeepsOwn(b: bv8, m: bv8)
    ensures (b | m) & m == m && (b & !m) & m == 0
  {
  }

  class Screen {
    const buffer: array2<bv8>
    const changed: array<bool>
    var inverse: bool

    ghost predicate Valid() {
      buffer.Length0 == changed.Length
    }

    predicate OnScreen(r: Point) { 0 <= r.x < buffer.Length1 && 0 <= r.y < 8 * buffer.Length0 }

    /** Eight rows to an octet, the topmost in its lowest bit. */
    ghost predicate Pixel(r: Point)
      requires OnScreen(r)
      reads buffer
    {
      OctetBits(buffer[r.y / 8, r.x])[r.y % 8]
    }

    constructor (rows: nat, width: nat)
      ensures Valid() && buffer.Length0 == rows && buffer.Length1 == width && fresh(buffer) && fresh(changed)
    {
      buffer := new bv8[rows, width];
      changed := new bool[rows];
    }

    /** `gui_setPixel` */
    method SetPixel(r: Point, on: bool)
      requires Valid() && OnScreen(r)
      modifies buffer, changed
      ensures forall t :: OnScreen(t) ==> Pixel(t) == if t == r then on else old(Pixel(t))
      ensures OctetBits(buffer[r.y / 8, r.x]) == OctetBits(old(buffer[r.y / 8, r.x]))[r.y % 8 := on]
      ensures forall i, x :: 0 <= i < buffer.Length0 && 0 <= x < buffer.Length1 && (i, x) != (r.y / 8, r.x) ==>
                buffer[i, x] == old(buffer[i, x])
      ensures forall k :: 0 <= k < changed.Length ==> changed[k] == (k == r.y / 8 || old(changed[k]))
    {
      hide OctetBits, WithBit;
      var row := r.y / 8;
      var b := buffer[row, r.x];
      changed[row] := true;
      buffer[row, r.x] := WithBit(b, r.y % 8, on);
      BitSet(b, r.y % 8, on);
    }

    /** `gui_line`: sets exactly the pixels of the line. */
    method DrawLine(p: Point, q: Point) returns (drawn: seq<Point>)
      requires Valid() && OnScreen(p) && OnScreen(q)
      modifies buffer, changed
      ensures drawn == Line(p, q)
      ensures forall t :: OnScreen(t) ==> Pixel(t) == if t in Line(p, q) then !inverse else old(Pixel(t))
      ensures forall k :: 0 <= k < changed.Length ==> changed[k] == (old(changed[k]) || exists t :: t in Line(p, q) && t.y / 8 == k)
    {
      hide OctetBits, Line, Pixel, Steps, PointAt, ErrAt, Abs, Major;
      var dx: int, dy: int := Abs(q.x - p.x), 0 - Abs(q.y - p.y);
      var sx, sy := Sign(p.x, q.x), Sign(p.y, q.y);
      var err := dx + dy;
      var at := p;
      ghost var i: int, j: int := 0, 0;
      drawn := [];
      Start(p, q);
      while true
        invariant at == PointAt(p, q, i, j) && err == ErrAt(p, q, i, j)
        invariant Steps(p, q, i, j, |drawn|) && |drawn| <= Major(p, q)
        invariant drawn == Line(p, q)[..|drawn|]
        invariant forall t :: OnScreen(t) ==> Pixel(t) == if t in drawn then !inverse else old(Pixel(t))
        invariant forall k :: 0 <= k < changed.Length ==> changed[k] == (old(changed[k]) || exists t :: t in drawn && t.y / 8 == k)
        decreases Major(p, q) - |drawn|
      {
        ByRounding(p, q, i, j, |drawn|);
        StaysInBox(p, q, at);
        Ends(p, q, |drawn|);
        SetPixel(at, !inverse);
        drawn := drawn + [at];
        if at == q {
          break;
        }
        var e2 := 2 * err;
        NextStep(p, q, i, j, |drawn| - 1);
        if e2 >= dy {
          err := err + dy;
          at := at.(x := at.x + sx);
          i := i + 1;
        }
        if e2 <= dx {
          err := err + dx;
          at := at.(y := at.y + sy);
          j := j + 1;
        }
      }
    }
  }

  /** Where the loop is after `i` and `j` pixels along the axes, and its error term there. */
  function PointAt(p: Point, q: Point, i: int, j: int): Point {
    Point(p.x + Sign(p.x, q.x) * i, p.y + Sign(p.y, q.y) * j)
  }

  function ErrAt(p: Point, q: Point, i: int, j: int): int {
    (j + 1) * Abs(q.x - p.x) - (i + 1) * Abs(q.y - p.y)
  }

  /** After `n` steps the loop has gone `i` and `j` pixels along the axes. */
  ghost predicate Steps(p: Point, q: Point, i: int, j: int, n: nat) {
    var dx, dy := Abs(q.x - p.x), Abs(q.y - p.y);
    if dx >= dy then i == n && (if dx > 0 then HalfPixel(n, j, dy, dx) else j == 0)
    else j == n && HalfPixel(n, i, dx, dy)
  }

  lemma Start(p: Point, q: Point)
    ensures Steps(p, q, 0, 0, 0) && PointAt(p, q, 0, 0) == p && ErrAt(p, q, 0, 0) == Abs(q.x - p.x) - Abs(q.y - p.y)
  {
  }

  lemma ByRounding(p: Point, q: Point, i: int, j: int, n: nat)
    requires Steps(p, q, i, j, n) && n <= Major(p, q)
    ensures Line(p, q)[n] == PointAt(p, q, i, j) && Line(p, q)[n] in Line(p, q)
    ensures Line(p, q)[..n + 1] == Line(p, q)[..n] + [Line(p, q)[n]]
    ensures n == Major(p, q) ==> Line(p, q)[..n + 1] == Line(p, q)
  {
    var dx, dy := Abs(q.x - p.x), Abs(q.y - p.y);
    if dx >= dy && dx > 0 {
      RoundedIff(n, j, dy, dx);
    } else if dx < dy {
      RoundedIff(n, i, dx, dy);
    }
    hide HalfPixel, Rounded;
    RoundedOfNone(n);
  }

  lemma RoundedOfNone(n: nat)
    ensures Rounded(n, 0, 0) == 0
  {
  }

  /** The error term decides the next step: always one along the longer axis, and one along
      the other when the line has come nearer to the next pixel. */
  lemma NextStep(p: Point, q: Point, i: int, j: int, n: nat)
    requires Steps(p, q, i, j, n) && n < Major(p, q)
    ensures var dx, dy := Abs(q.x - p.x), Abs(q.y - p.y);
            var e2 := 2 * ErrAt(p, q, i, j);
            && Steps(p, q, if e2 >= -(dy as int) then i + 1 else i, if e2 <= dx then j + 1 else j, n + 1)
            && ErrAt(p, q, i + 1, j) == ErrAt(p, q, i, j) - dy
            && ErrAt(p, q, i, j + 1) == ErrAt(p, q, i, j) + dx
            && ErrAt(p, q, i + 1, j + 1) == ErrAt(p, q, i, j) + dx - dy
    ensures PointAt(p, q, i + 1, j) == PointAt(p, q, i, j).(x := PointAt(p, q, i, j).x + Sign(p.x, q.x))
    ensures PointAt(p, q, i, j + 1) == PointAt(p, q, i, j).(y := PointAt(p, q, i, j).y + Sign(p.y, q.y))
    ensures PointAt(p, q, i + 1, j + 1).x == PointAt(p, q, i + 1, j).x && PointAt(p, q, i + 1, j + 1).y == PointAt(p, q, i, j + 1).y
  {
    hide Abs, HalfPixel, Sign;
    StepsOn(Abs(q.x - p.x), Abs(q.y - p.y), i, j, n);
    Times(Abs(q.x - p.x), j + 1);
    Times(Abs(q.y - p.y), i + 1);
    Times(Sign(p.x, q.x), i);
    Times(Sign(p.y, q.y), j);
  }

  lemma Times(a: int, b: int)
    ensures (b + 1) * a == b * a + a && a * (b + 1) == a * b + a
  {
  }

  lemma StepsOn(dx: nat, dy: nat, i: int, j: int, n: nat)
    requires if dx >= dy then i == n && dx > 0 && HalfPixel(n, j, dy, dx) else j == n && HalfPixel(n, i, dx, dy)
    ensures var e2 := 2 * ((j + 1) * dx - (i + 1) * dy);
            var i1, j1 := if e2 >= -(dy as int) then i + 1 else i, if e2 <= dx then j + 1 else j;
            if dx >= dy then i1 == n + 1 && HalfPixel(n + 1, j1, dy, dx) else j1 == n + 1 && HalfPixel(n + 1, i1, dx, dy)
  {
    ErrIsOff(dx, dy, i, j);
    hide Off;
    if dx >= dy { Grow(n, j, dy, dx); } else { Grow(n, i, dx, dy); }
  }

  lemma ErrIsOff(dx: int, dy: int, i: int, j: int)
    ensures (j + 1) * dx - (i + 1) * dy == dx - dy - Off(i, j, dy, dx) == dx - dy + Off(j, i, dx, dy)
  {
    Times(dx, j);
    Times(dy, i);
  }

  lemma OffNext(n: int, k: int, minor: int, major: int)
    ensures Off(n + 1, k, minor, major) == Off(n, k, minor, major) + minor
    ensures Off(n + 1, k + 1, minor, major) == Off(n, k, minor, major) + minor - major
  {
    Times(minor, n);
    Times(major, k);
  }

  lemma Grow(n: nat, k: int, minor: int, major: int)
    requires 0 <= minor <= major && major > 0 && HalfPixel(n, k, minor, major)
    ensures var r := Off(n, k, minor, major) + minor;
            && 2 * r < 3 * major
            && HalfPixel(n + 1, if 2 * r >= major then k + 1 else k, minor, major)
  {
    OffNext(n, k, minor, major);
    hide Off;
  }
}
