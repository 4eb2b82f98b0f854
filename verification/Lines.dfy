/** The two line drawers: the kernel's, which runs until it meets the end point, and the
    graphics library's, which counts pixels. */
module Lines {
  import opened Basics

  datatype Point = Point(x: int, y: int)

  function Abs(d: int): nat { if d >= 0 then d else -d }

  // ---------- the nearest pixel ----------

  /** After n of `long` steps along the longer side, `minor` is the distance along the
      other side, `short` in all, that is nearest to the true line; halves go down. */
  ghost predicate Near(minor: int, n: int, long: int, short: int) {
    -long <= 2 * (minor * long - n * short) < long
  }

  lemma NearOnce(a: int, b: int, n: int, long: int, short: int)
    requires Near(a, n, long, short) && Near(b, n, long, short)
    ensures a == b
  {
    assert a < b ==> (a + 1) * long <= b * long;
    assert b < a ==> (b + 1) * long <= a * long;
  }

  lemma NearEnd(minor: int, long: nat, short: nat)
    requires 0 < long && Near(minor, long, long, short)
    ensures minor == short
  {
    assert Near(short, long, long, short);
    NearOnce(minor, short, long, long, short);
  }

  /** The line stays within the box of its end points. */
  lemma NearInside(minor: int, n: nat, long: nat, short: nat)
    requires n <= long && short <= long && Near(minor, n, long, short)
    ensures 0 <= minor <= short
  {
    ProductGrows(0, n, short);
    ProductGrows(n, long, short);
    assert (short + 1) * long == long * short + long;
    InsideBounds(minor, minor * long, n * short, long, short);
  }

  lemma InsideBounds(minor: int, p: int, q: int, long: int, short: int)
    requires p == minor * long && 0 <= q <= long * short && 0 <= long && -long <= 2 * (p - q) < long
    ensures 0 <= minor <= short
  {
    assert minor < 0 ==> p <= -long by {
      if minor < 0 { ProductGrows(minor, -1, long); }
    }
    assert minor > short ==> long * short + long <= p by {
      if minor > short { ProductGrows(short + 1, minor, long); }
    }
  }

  /** One step along the longer side, and when it is one along the other side too. */
  lemma NearStep(minor: int, n: int, long: nat, short: nat)
    requires 0 < long && short <= long && Near(minor, n, long, short)
    requires short == long ==> minor == n
    ensures var offset := minor * long - n * short;
            if 2 * offset < 2 * short - long
            then Near(minor + 1, n + 1, long, short) else Near(minor, n + 1, long, short)
    ensures short == long ==> 2 * (minor * long - n * short) < 2 * short - long
  {
    assert (minor + 1) * long == minor * long + long;
    assert (n + 1) * short == n * short + short;
  }

  /** The nearest distance in closed form. */
  lemma NearIsQuotient(minor: int, n: nat, long: nat, short: nat)
    requires 0 < long && Near(minor, n, long, short)
    ensures minor == (2 * (n * short) + long - 1) / (2 * long)
  {
    var a, d := 2 * (n * short) + long - 1, 2 * long;
    assert minor * d == 2 * (minor * long);
    Quotient(a, d, minor);
  }

  /** A point i steps along x and j steps along y from the start. */
  function Walked(from: Point, to: Point, i: int, j: int): Point {
    Point(if from.x < to.x then from.x + i else from.x - i, if from.y < to.y then from.y + j else from.y - j)
  }

  function Longer(from: Point, to: Point): nat {
    if Abs(to.x - from.x) >= Abs(to.y - from.y) then Abs(to.x - from.x) else Abs(to.y - from.y)
  }

  /** Pixel n of the line: n steps along the longer side and the nearest number of steps
      along the other. */
  ghost predicate OnLine(from: Point, to: Point, n: nat, p: Point) {
    var dx, dy := Abs(to.x - from.x), Abs(to.y - from.y);
    exists minor ::
      if dx >= dy
      then p == Walked(from, to, n, minor) && (0 < dx ==> Near(minor, n, dx, dy)) && (dx == 0 ==> minor == 0)
      else p == Walked(from, to, minor, n) && Near(minor, n, dy, dx)
  }

  predicate InBox(from: Point, to: Point, p: Point) {
    && (from.x <= p.x <= to.x || to.x <= p.x <= from.x)
    && (from.y <= p.y <= to.y || to.y <= p.y <= from.y)
  }

  /** Pixel n of the line by numbers: n steps along the longer side, and along the other the
      quotient that is rounded to the nearest. */
  lemma LineByNumbers(from: Point, to: Point, n: nat, p: Point)
    requires OnLine(from, to, n, p) && InBox(from, to, p)
    ensures var dx, dy := Abs(to.x - from.x), Abs(to.y - from.y);
            var i, j := if from.x < to.x then p.x - from.x else from.x - p.x,
                        if from.y < to.y then p.y - from.y else from.y - p.y;
            if dx == 0 && dy == 0 then p == from == to
            else if dx >= dy then i == n && j == (2 * (n * dy) + dx - 1) / (2 * dx)
            else j == n && i == (2 * (n * dx) + dy - 1) / (2 * dy)
  {
    var dx, dy := Abs(to.x - from.x), Abs(to.y - from.y);
    if 0 < dx && dx >= dy {
      var minor :| p == Walked(from, to, n, minor) && Near(minor, n, dx, dy);
      NearIsQuotient(minor, n, dx, dy);
    } else if dx < dy {
      var minor :| p == Walked(from, to, minor, n) && Near(minor, n, dy, dx);
      NearIsQuotient(minor, n, dy, dx);
    }
    hide Near, InBox;
  }

  // ---------- the kernel's line ----------

  /** Where the loop is after n rounds: i steps along x, j along y, on the nearest pixel. */
  ghost predicate OnTrack(dx: nat, dy: nat, n: nat, i: int, j: int) {
    && n <= (if dx >= dy then dx else dy)
    && (dx == dy ==> i == j)
    && (if dx >= dy then i == n && if dx == 0 then j == 0 else Near(j, n, dx, dy)
        else j == n && Near(i, n, dy, dx))
  }

  lemma TrackStart(dx: nat, dy: nat)
    ensures OnTrack(dx, dy, 0, 0, 0) && ErrorAt(dx, dy, 0, 0) == dx - dy
  {
  }

  /** The line has not gone past its end, and is there exactly after the longer side's
      number of steps. */
  lemma TrackEnd(dx: nat, dy: nat, n: nat, i: int, j: int)
    requires OnTrack(dx, dy, n, i, j)
    ensures 0 <= i <= dx && 0 <= j <= dy && n <= if dx >= dy then dx else dy
    ensures i == dx && j == dy <==> n == if dx >= dy then dx else dy
  {
    if dx >= dy && dx > 0 {
      NearInside(j, n, dx, dy);
      if n == dx {
        NearEnd(j, dx, dy);
      }
    } else if dx < dy {
      NearInside(i, n, dy, dx);
      if n == dy {
        NearEnd(i, dy, dx);
      }
    }
  }

  /** The error term of the loop. */
  ghost function ErrorAt(dx: nat, dy: nat, i: int, j: int): int {
    (j + 1) * dx - (i + 1) * dy
  }

  lemma ErrorSteps(dx: nat, dy: nat, i: int, j: int)
    ensures ErrorAt(dx, dy, i, j) == j * dx - i * dy + dx - dy
    ensures ErrorAt(dx, dy, i + 1, j) == ErrorAt(dx, dy, i, j) - dy
    ensures ErrorAt(dx, dy, i, j + 1) == ErrorAt(dx, dy, i, j) + dx
    ensures ErrorAt(dx, dy, i + 1, j + 1) == ErrorAt(dx, dy, i, j) + dx - dy
  {
    assert (j + 1) * dx == j * dx + dx && (i + 1) * dy == i * dy + dy;
    assert (j + 2) * dx == j * dx + 2 * dx && (i + 2) * dy == i * dy + 2 * dy;
  }

  /** One round from any place on the track but the end. */
  lemma TrackStep(dx: nat, dy: nat, n: nat, i: int, j: int, error: int)
    requires OnTrack(dx, dy, n, i, j) && n < (if dx >= dy then dx else dy)
    requires error == ErrorAt(dx, dy, i, j)
    ensures var alongX, alongY := 0 < 2 * error + dy, 2 * error < dx;
            var i', j' := if alongX then i + 1 else i, if alongY then j + 1 else j;
            && OnTrack(dx, dy, n + 1, i', j')
            && ErrorAt(dx, dy, i', j') == error - (if alongX then dy else 0) + (if alongY then dx else 0)
  {
    ErrorSteps(dx, dy, i, j);
    hide ErrorAt;
    if dx >= dy {
      NearStep(j, n, dx, dy);
    } else {
      NearStep(i, n, dy, dx);
    }
  }

  /** Pixel by pixel, the line from its start on. */
  ghost predicate Drawn(from: Point, to: Point, pixels: seq<Point>) {
    forall n | 0 <= n < |pixels| :: OnLine(from, to, n, pixels[n]) && InBox(from, to, pixels[n])
  }

  /** There is only one such line. */
  lemma OneLine(from: Point, to: Point, n: nat, p: Point, q: Point)
    requires OnLine(from, to, n, p) && OnLine(from, to, n, q)
    ensures p == q
  {
    var dx, dy := Abs(to.x - from.x), Abs(to.y - from.y);
    if dx >= dy {
      var a :| p == Walked(from, to, n, a) && (0 < dx ==> Near(a, n, dx, dy)) && (dx == 0 ==> a == 0);
      var b :| q == Walked(from, to, n, b) && (0 < dx ==> Near(b, n, dx, dy)) && (dx == 0 ==> b == 0);
      if 0 < dx {
        NearOnce(a, b, n, dx, dy);
      }
    } else {
      var a :| p == Walked(from, to, a, n) && Near(a, n, dy, dx);
      var b :| q == Walked(from, to, b, n) && Near(b, n, dy, dx);
      NearOnce(a, b, n, dy, dx);
    }
  }

  /** The pixels set, in order. The loop has no other end than meeting the end point. */
  method DrawLine(from: Point, to: Point) returns (pixels: seq<Point>)
    ensures |pixels| == Longer(from, to) + 1
    ensures Drawn(from, to, pixels)
    ensures pixels[0] == from && pixels[|pixels| - 1] == to
  {
    hide OnTrack, OnLine, ErrorAt, InBox, Walked;
    WalkedFrom(from, to);
    var x1, y1 := from.x, from.y;
    var deltaX := if to.x - x1 >= 0 then to.x - x1 else x1 - to.x;
    var signX := if x1 < to.x then 1 else -1;
    var deltaY := -(if to.y - y1 >= 0 then to.y - y1 else y1 - to.y);
    var signY := if y1 < to.y then 1 else -1;
    var error := deltaX + deltaY;
    pixels := [];
    ghost var dx, dy := Abs(to.x - from.x), Abs(to.y - from.y);
    ghost var i, j, n := 0, 0, 0;
    TrackStart(dx, dy);
    while true
      invariant OnTrack(dx, dy, n, i, j) && error == ErrorAt(dx, dy, i, j)
      invariant Point(x1, y1) == Walked(from, to, i, j) && |pixels| == n
      invariant Drawn(from, to, pixels)
      invariant if n == 0 then i == 0 && j == 0 else pixels[0] == from
      decreases Longer(from, to) - n
    {
      TrackEnd(dx, dy, n, i, j);
      TrackIsOnLine(from, to, n, i, j);
      WalkedInBox(from, to, i, j);
      pixels := pixels + [Point(x1, y1)];
      if x1 == to.x && y1 == to.y {
        break;
      }
      TrackStep(dx, dy, n, i, j, error);
      WalkedFurther(from, to, i, j);
      var error2 := error + error;
      if error2 > deltaY {
        error := error + deltaY;
        x1 := x1 + signX;
        i := i + 1;
      }
      if error2 < deltaX {
        error := error + deltaX;
        y1 := y1 + signY;
        j := j + 1;
      }
      n := n + 1;
    }
  }

  lemma WalkedFrom(from: Point, to: Point)
    ensures Walked(from, to, 0, 0) == from
  {
  }

  lemma WalkedFurther(from: Point, to: Point, i: int, j: int)
    ensures var p, sx, sy := Walked(from, to, i, j), if from.x < to.x then 1 else -1, if from.y < to.y then 1 else -1;
            && Walked(from, to, i + 1, j) == Point(p.x + sx, p.y) && Walked(from, to, i, j + 1) == Point(p.x, p.y + sy)
            && Walked(from, to, i + 1, j + 1) == Point(p.x + sx, p.y + sy)
  {
  }

  lemma WalkedInBox(from: Point, to: Point, i: int, j: int)
    requires 0 <= i <= Abs(to.x - from.x) && 0 <= j <= Abs(to.y - from.y)
    ensures InBox(from, to, Walked(from, to, i, j))
    ensures Walked(from, to, i, j) == to <==> i == Abs(to.x - from.x) && j == Abs(to.y - from.y)
  {
  }

  lemma TrackIsOnLine(from: Point, to: Point, n: nat, i: int, j: int)
    requires OnTrack(Abs(to.x - from.x), Abs(to.y - from.y), n, i, j)
    ensures OnLine(from, to, n, Walked(from, to, i, j))
  {
    if Abs(to.x - from.x) >= Abs(to.y - from.y) {
      assert Walked(from, to, i, j) == Walked(from, to, n, j);
    } else {
      assert Walked(from, to, i, j) == Walked(from, to, i, n);
    }
  }

  // ---------- the graphics library's line ----------

  /** The distance along the shorter side after n steps along the longer one: half a
      pixel is added, then it is rounded down. */
  function CountedMinor(n: nat, long: nat, short: nat): nat {
    if long == 0 then 0 else (long / 2 + n * short) / long
  }

  function CountedPoint(from: Point, to: Point, n: nat): Point {
    var dx, dy := Abs(to.x - from.x), Abs(to.y - from.y);
    if dx >= dy then Walked(from, to, n, CountedMinor(n, dx, dy)) else Walked(from, to, CountedMinor(n, dy, dx), n)
  }

  /** The same by numbers; here half the longer side is added first. */
  lemma CountedByNumbers(from: Point, to: Point, n: nat)
    ensures var dx, dy, p := Abs(to.x - from.x), Abs(to.y - from.y), CountedPoint(from, to, n);
            var i, j := if from.x < to.x then p.x - from.x else from.x - p.x,
                        if from.y < to.y then p.y - from.y else from.y - p.y;
            if dx == 0 && dy == 0 then i == n && j == 0
            else if dx >= dy then i == n && j == (n * dy + dx / 2) / dx
            else j == n && i == (n * dx + dy / 2) / dy
  {
  }

  /** The two drawers differ only where the line passes exactly between two pixels. */
  lemma DrawersAgree(minor: nat, n: nat, long: nat, short: nat)
    requires 0 < long && Near(minor, n, long, short)
    ensures CountedMinor(n, long, short) ==
              if 2 * (n * short - minor * long) == long then minor + 1 else minor
  {
    var q := if 2 * (n * short - minor * long) == long then minor + 1 else minor;
    assert (minor + 1) * long == minor * long + long;
    Quotient(long / 2 + n * short, long, q);
  }

  /** The accumulator of the loop is the remainder of that division. */
  ghost predicate Counted(minor: nat, accumulator: int, n: nat, long: nat, short: nat) {
    0 <= accumulator < long && minor * long + accumulator == long / 2 + n * short
  }

  lemma CountedIsMinor(minor: nat, accumulator: int, n: nat, long: nat, short: nat)
    requires Counted(minor, accumulator, n, long, short)
    ensures CountedMinor(n, long, short) == minor
  {
    Quotient(long / 2 + n * short, long, minor);
  }

  lemma CountedStep(minor: nat, accumulator: int, n: nat, long: nat, short: nat)
    requires Counted(minor, accumulator, n, long, short) && short <= long
    ensures if accumulator + short >= long then Counted(minor + 1, accumulator + short - long, n + 1, long, short)
            else Counted(minor, accumulator + short, n + 1, long, short)
  {
    assert (minor + 1) * long == minor * long + long;
    assert (n + 1) * short == n * short + short;
  }

  lemma CountedInside(n: nat, long: nat, short: nat)
    requires n <= long && short <= long
    ensures CountedMinor(n, long, short) <= short
    ensures n == long ==> CountedMinor(n, long, short) == short
  {
    if 0 < long {
      ProductGrows(n, long, short);
      QuotientGrows(long / 2 + n * short, long / 2 + long * short, long);
      Quotient(long / 2 + long * short, long, short);
    }
  }

  /** The counted line starts and ends where it should, and stays in the box. */
  lemma CountedEnds(from: Point, to: Point, n: nat)
    requires n <= Longer(from, to)
    ensures InBox(from, to, CountedPoint(from, to, n))
    ensures CountedPoint(from, to, 0) == from && CountedPoint(from, to, Longer(from, to)) == to
  {
    hide CountedMinor;
    var dx, dy := Abs(to.x - from.x), Abs(to.y - from.y);
    var long, short := if dx >= dy then dx else dy, if dx >= dy then dy else dx;
    CountedInside(n, long, short);
    CountedInside(long, long, short);
    CountedZero(long, short);
  }

  lemma CountedZero(long: nat, short: nat)
    ensures CountedMinor(0, long, short) == 0
  {
    if 0 < long {
      Quotient(long / 2, long, 0);
      assert 0 * short == 0;
    }
  }

  ghost predicate Reached(from: Point, to: Point, n: nat, p: Point) {
    exists m: nat :: m <= n && CountedPoint(from, to, m) == p
  }

  lemma ReachedNext(from: Point, to: Point, n: nat, p: Point)
    ensures Reached(from, to, n + 1, p) <==> Reached(from, to, n, p) || p == CountedPoint(from, to, n + 1)
  {
    if Reached(from, to, n + 1, p) {
      var m: nat :| m <= n + 1 && CountedPoint(from, to, m) == p;
      assert m <= n ==> Reached(from, to, n, p);
    }
  }

  type Color = int

  class Graphics {
    const width: nat
    const height: nat
    const buffer: array<Color>

    predicate OnScreen(p: Point) { 0 <= p.x < width && 0 <= p.y < height }

    ghost predicate Valid() { buffer.Length == width * height }

    function Index(p: Point): int { width * p.y + p.x }

    lemma IndexInside(p: Point)
      requires Valid() && OnScreen(p)
      ensures 0 <= Index(p) < buffer.Length
    {
      ProductGrows(0, p.y, width);
      ProductGrows(p.y + 1, height, width);
      assert (p.y + 1) * width == width * p.y + width;
    }

    lemma IndexOnce(p: Point, q: Point)
      requires OnScreen(p) && OnScreen(q) && Index(p) == Index(q)
      ensures p == q
    {
      assert (p.y + 1) * width == width * p.y + width;
      assert (q.y + 1) * width == width * q.y + width;
      if p.y < q.y {
        ProductGrows(p.y + 1, q.y, width);
      } else if q.y < p.y {
        ProductGrows(q.y + 1, p.y, width);
      }
    }

    /** The rows of the buffer, one after the other. */
    lemma PixelInBuffer(p: Point)
      requires Valid()
      ensures OnScreen(p) <==> 0 <= p.x < width && 0 <= p.y < height
      ensures OnScreen(p) ==> 0 <= p.y * width + p.x < buffer.Length && At(p) == buffer[p.y * width + p.x]
    {
      if OnScreen(p) {
        IndexInside(p);
      }
    }

    ghost function At(p: Point): Color
      requires Valid() && OnScreen(p)
      reads buffer
    {
      IndexInside(p);
      buffer[Index(p)]
    }

    method SetPixel(p: Point, color: Color)
      requires Valid() && OnScreen(p)
      modifies buffer
      ensures forall q | OnScreen(q) :: At(q) == if q == p then color else old(At(q))
    {
      IndexInside(p);
      buffer[width * p.y + p.x] := color;
      forall q | OnScreen(q)
        ensures At(q) == if q == p then color else old(At(q))
      {
        if Index(q) == Index(p) {
          IndexOnce(p, q);
        }
      }
    }

    /** The loop's next pixel. */
    method Paint(from: Point, to: Point, color: Color, p: Point, ghost n: nat)
      requires Valid() && OnScreen(from) && OnScreen(to) && n + 1 <= Longer(from, to)
      requires p == CountedPoint(from, to, n + 1)
      modifies buffer
      ensures forall q | OnScreen(q) :: At(q) == if q == p then color else old(At(q))
      ensures forall q | OnScreen(q) :: Reached(from, to, n + 1, q) <==> Reached(from, to, n, q) || q == p
    {
      hide Reached, CountedPoint, Longer;
      CountedEnds(from, to, n + 1);
      assert OnScreen(p) by { BoxOnScreen(from, to, p); }
      SetPixel(p, color);
      forall q | OnScreen(q)
        ensures Reached(from, to, n + 1, q) <==> Reached(from, to, n, q) || q == p
      {
        ReachedNext(from, to, n, q);
      }
    }

    lemma BoxOnScreen(from: Point, to: Point, p: Point)
      requires OnScreen(from) && OnScreen(to) && InBox(from, to, p)
      ensures OnScreen(p)
    {
    }

    /** All pixels of the line up to the n-th have the color, the others are as before. */
    twostate predicate Painted(from: Point, to: Point, color: Color, n: nat)
      requires Valid()
      reads buffer
    {
      forall q | OnScreen(q) :: At(q) == if Reached(from, to, n, q) then color else old(At(q))
    }

    method AlongX(from: Point, to: Point, color: Color, dxabs: nat, dyabs: nat, sgndx: int, sgndy: int)
      requires Valid() && OnScreen(from) && OnScreen(to) && At(from) == color
      requires dxabs == Abs(to.x - from.x) && dyabs == Abs(to.y - from.y) && dxabs >= dyabs
      requires sgndx == (if from.x < to.x then 1 else -1) && sgndy == if from.y < to.y then 1 else -1
      modifies buffer
      ensures Painted(from, to, color, dxabs)
    {
      var x1, y1, y := from.x, from.y, dxabs / 2;
      ghost var minor: nat := 0;
      FromReached(from, to);
      for n := 0 to dxabs
        invariant Point(x1, y1) == Walked(from, to, n, minor)
        invariant 0 < dxabs ==> Counted(minor, y, n, dxabs, dyabs)
        invariant Painted(from, to, color, n)
      {
        CountedStep(minor, y, n, dxabs, dyabs);
        y := y + dyabs;
        if y >= dxabs {
          y := y - dxabs;
          y1 := y1 + sgndy;
          minor := minor + 1;
        }
        x1 := x1 + sgndx;
        CountedIsMinor(minor, y, n + 1, dxabs, dyabs);
        Paint(from, to, color, Point(x1, y1), n);
      }
    }

    method AlongY(from: Point, to: Point, color: Color, dxabs: nat, dyabs: nat, sgndx: int, sgndy: int)
      requires Valid() && OnScreen(from) && OnScreen(to) && At(from) == color
      requires dxabs == Abs(to.x - from.x) && dyabs == Abs(to.y - from.y) && dxabs < dyabs
      requires sgndx == (if from.x < to.x then 1 else -1) && sgndy == if from.y < to.y then 1 else -1
      modifies buffer
      ensures Painted(from, to, color, dyabs)
    {
      var x1, y1, x := from.x, from.y, dyabs / 2;
      ghost var minor: nat := 0;
      FromReached(from, to);
      for n := 0 to dyabs
        invariant Point(x1, y1) == Walked(from, to, minor, n)
        invariant Counted(minor, x, n, dyabs, dxabs)
        invariant Painted(from, to, color, n)
      {
        CountedStep(minor, x, n, dyabs, dxabs);
        x := x + dxabs;
        if x >= dyabs {
          x := x - dyabs;
          x1 := x1 + sgndx;
          minor := minor + 1;
        }
        y1 := y1 + sgndy;
        CountedIsMinor(minor, x, n + 1, dyabs, dxabs);
        Paint(from, to, color, Point(x1, y1), n);
      }
    }

    /** A line with an end outside the screen is not drawn. */
    method DrawLine(from: Point, to: Point, color: Color)
      requires Valid()
      modifies buffer
      ensures forall q | OnScreen(q) ::
                At(q) == if OnScreen(from) && OnScreen(to) && Reached(from, to, Longer(from, to), q) then color
                         else old(At(q))
    {
      if !OnScreen(from) || !OnScreen(to) {
        return;
      }
      hide Reached;
      var dx, dy := to.x - from.x, to.y - from.y;
      var dxabs, dyabs := if dx > 0 then dx else -dx, if dy > 0 then dy else -dy;
      var sgndx, sgndy := if dx > 0 then 1 else -1, if dy > 0 then 1 else -1;
      SetPixel(from, color);
      FromReached(from, to);
      ReachedGrows(from, to, Longer(from, to), from);
      if dxabs >= dyabs {
        AlongX(from, to, color, dxabs, dyabs, sgndx, sgndy);
      } else {
        AlongY(from, to, color, dxabs, dyabs, sgndx, sgndy);
      }
    }
  }

  lemma FromReached(from: Point, to: Point)
    ensures forall q :: Reached(from, to, 0, q) <==> q == from
  {
    CountedEnds(from, to, 0);
    forall q
      ensures Reached(from, to, 0, q) <==> q == from
    {
      assert CountedPoint(from, to, 0) == from;
    }
  }

  lemma ReachedGrows(from: Point, to: Point, n: nat, q: Point)
    requires Reached(from, to, 0, q)
    ensures Reached(from, to, n, q)
  {
  }
}
