/**
 * Rounded rectangles and circles from horizontal spans (gpu_isqrt,
 * gpu_rounded_rect, tiku_gpu_fill_rounded_rect and tiku_gpu_fill_circle in
 * arch/ambiq/tiku_gpu_arch.c).
 */
module RoundRect {
  import opened Words

  // ---------------------------------------------------------------------------
  // Integer square root
  // ---------------------------------------------------------------------------

  predicate IsRoot(r: nat, v: nat) { r * r <= v < (r + 1) * (r + 1) }

  function RootFrom(v: nat, r: nat): (q: nat)
    requires r * r <= v
    ensures IsRoot(q, v)
    decreases v - r
  {
    Grows(r);
    if v < (r + 1) * (r + 1) then r else RootFrom(v, r + 1)
  }

  lemma Grows(r: nat)
    ensures r <= r * r
  {
  }

  /** The floor of the square root. */
  function Root(v: nat): (r: nat)
    ensures IsRoot(r, v)
  {
    RootFrom(v, 0)
  }

  lemma SquareMonotone(a: nat, b: nat)
    ensures a <= b <==> a * a <= b * b
  {
    if a <= b { assert a * a <= a * b <= b * b; } else { assert b * b <= b * a; assert b * a < a * a; }
  }

  lemma RootUnique(r: nat, q: nat, v: nat)
    requires IsRoot(r, v) && IsRoot(q, v)
    ensures r == q
  {
    SquareMonotone(r + 1, q);
    SquareMonotone(q + 1, r);
  }

  /** n fits under the root exactly when its square fits under the number. */
  lemma UnderRoot(n: nat, v: nat)
    ensures n <= Root(v) <==> n * n <= v
  {
    SquareMonotone(n, Root(v));
    SquareMonotone(Root(v) + 1, n);
  }

  lemma SquareOfSum(s: nat, b: nat)
    ensures (s + b) * (s + b) == s * s + (s * (2 * b) + b * b)
    ensures s * (2 * b) == 2 * (s * b) && s * b + b * b == (s + b) * b
  {
    assert s * (2 * b) == 2 * (s * b);
    assert (s + b) * (s + b) == s * s + 2 * (s * b) + b * b;
  }

  lemma SumFits(s: nat, b: nat)
    requires s + 2 * b <= 0x1_0000
    ensures s * (2 * b) + b * b < 0x1_0000_0000
  {
    MulGrows(2 * b, s + b, 0x1_0000);
    MulGrows(0x1_0000, 2 * b, 0x1_0000);
    assert (s + b) * (2 * b) == s * (2 * b) + 2 * (b * b);
    if b == 0 { assert s * (2 * b) == 0; } else { assert b * b >= 1; }
  }

  /**
   * One round: s is the root so far, c twice the next digit b, r = s * c and
   * bit = b * b.  The square grows by r + bit when b joins, which fits 32 bits.
   */
  lemma Digit(v: nat, s: nat, c: nat, b: nat)
    requires c == 2 * b && s * s <= v < (s + c) * (s + c) && s + c <= 0x1_0000
    ensures s * c + b * b < 0x1_0000_0000
    ensures s * c / 2 == s * b && s * b + b * b == (s + b) * b
    ensures s * c + b * b <= v - s * s ==>
              (s + b) * (s + b) == s * s + (s * c + b * b) && (s + b) * (s + b) <= v < (s + b + b) * (s + b + b)
    ensures s * c + b * b > v - s * s ==> v < (s + b) * (s + b)
  {
    SquareOfSum(s, b);
    SumFits(s, b);
    assert s + b + b == s + c;
  }

  /** The powers of two the digits go through. */
  predicate Power(c: nat) {
    c == 1 || (c > 1 && c % 2 == 0 && Power(c / 2))
  }

  /** The first loop of gpu_isqrt: skip the digits that are too large. */
  method TopDigit(v: u32) returns (bit: u32, ghost c: nat)
    ensures Power(c) && c <= 0x1_0000 && bit == (c / 2) * (c / 2) && v < c * c
  {
    bit, c := 0x4000_0000, 0x1_0000;
    assert Power(0x1_0000);
    while bit > v
      invariant Power(c) && c <= 0x1_0000 && bit == (c / 2) * (c / 2) && v < c * c
      decreases bit
    {
      HalfDigit(c);
      bit, c := bit / 4, c / 2;
    }
  }

  /** gpu_isqrt. */
  method Isqrt(v0: u32) returns (r: u32)
    ensures IsRoot(r, v0) && r == Root(v0)
  {
    var v: u32 := v0;
    var bit;
    ghost var c;
    bit, c := TopDigit(v);
    ghost var s: nat := 0;
    r := 0;
    while bit != 0
      invariant Power(c) && s + c <= 0x1_0000 && bit == (c / 2) * (c / 2)
      invariant r == s * c && s * s <= v0 < (s + c) * (s + c) && v == v0 - s * s
      decreases bit
    {
      HalfDigit(c);
      ghost var b := c / 2;
      Digit(v0, s, c, b);
      if v >= r + bit {
        v, r, s := v - (r + bit), r / 2 + bit, s + b;
      } else {
        r := r / 2;
      }
      bit, c := bit / 4, b;
    }
    LastDigit(c);
    RootUnique(r, Root(v0), v0);
  }

  lemma LastDigit(c: nat)
    requires Power(c) && (c / 2) * (c / 2) == 0
    ensures c == 1
  {
  }

  /** A digit that is not yet below one halves, and its square quarters. */
  lemma HalfDigit(c: nat)
    requires Power(c) && (c / 2) * (c / 2) != 0
    ensures c == 2 * (c / 2) && Power(c / 2)
    ensures (c / 2) * (c / 2) / 4 == (c / 2 / 2) * (c / 2 / 2) < (c / 2) * (c / 2)
  {
    var b := c / 2;
    if b > 1 {
      assert b == 2 * (b / 2);
      assert b * b == 4 * ((b / 2) * (b / 2));
    }
  }

  // ---------------------------------------------------------------------------
  // Spans
  // ---------------------------------------------------------------------------

  datatype Rect = Rect(x: int, y: int, w: int, h: int)

  /** A rounded rectangle: its box and its corner radius. */
  datatype Shape = Shape(x: int, y: int, w: int, h: int, rr: int)

  /** The radius fits half of either side, and its square a signed 32-bit number. */
  predicate Drawable(s: Shape) {
    0 <= s.rr <= MAX_RADIUS && 2 * s.rr <= s.w && 2 * s.rr <= s.h
  }

  const MAX_RADIUS: int := 46340

  lemma RadiusBound(r: nat)
    ensures r * r <= 0x7FFF_FFFF <==> r <= MAX_RADIUS
  {
    SquareMonotone(r, 46340);
    SquareMonotone(46341, r);
  }

  /** Half-width of the circle in the row at distance dy from the band. */
  function HalfWidth(rr: int, dy: int): nat
    requires 0 <= dy <= rr
  {
    RowSquare(rr, dy);
    Root(rr * rr - dy * dy)
  }

  lemma RowSquare(rr: int, dy: int)
    requires 0 <= dy <= rr
    ensures 0 <= dy * dy <= rr * rr
  {
    SquareMonotone(dy, rr);
  }

  /** The two spans of row dy, none when it is empty. */
  function Row(s: Shape, dy: int): seq<Rect>
    requires 0 <= dy <= s.rr
  {
    Spans(s, dy, HalfWidth(s.rr, dy))
  }

  function Spans(s: Shape, dy: int, cx: nat): seq<Rect> {
    var sw := s.w - 2 * s.rr + 2 * cx;
    if sw > 0 then
      [Rect(s.x + s.rr - cx, s.y + s.rr - dy, sw, 1), Rect(s.x + s.rr - cx, s.y + s.h - s.rr + dy - 1, sw, 1)]
    else []
  }

  function Corners(s: Shape, dy: int): seq<Rect>
    requires 0 <= dy
    decreases s.rr + 1 - dy
  {
    if dy > s.rr then [] else Row(s, dy) + Corners(s, dy + 1)
  }

  function Band(s: Shape): seq<Rect> {
    if s.h > 2 * s.rr then [Rect(s.x, s.y + s.rr, s.w, s.h - 2 * s.rr)] else []
  }

  /** Everything gpu_rounded_rect draws. */
  function Rects(s: Shape): seq<Rect> { Band(s) + Corners(s, 1) }

  /** What the wait after the k-th draw reports. */
  type Waits = nat -> bool

  /** The first n draws all end well. */
  predicate AllWell(waits: Waits, n: nat) { forall k :: 0 <= k < n ==> waits(k) }

  /** Drawing stopped at the first wait that failed, or after everything. */
  predicate Stopped(drawn: seq<Rect>, all: seq<Rect>, ok: bool, waits: Waits) {
    && drawn <= all
    && (if ok then drawn == all && AllWell(waits, |drawn|)
        else drawn != [] && AllWell(waits, |drawn| - 1) && !waits(|drawn| - 1))
  }

  /** So far, with `rest` still to draw. */
  predicate Drawing(drawn: seq<Rect>, rest: seq<Rect>, all: seq<Rect>, ok: bool, waits: Waits) {
    if ok then drawn + rest == all && AllWell(waits, |drawn|) else Stopped(drawn, all, false, waits)
  }

  /** gpu_emit_rect: draw, and wait, which may fail. */
  method Emit(drawn: seq<Rect>, r: Rect, ghost rest: seq<Rect>, ghost all: seq<Rect>, waits: Waits)
    returns (now: seq<Rect>, ok: bool)
    requires Drawing(drawn, [r] + rest, all, true, waits)
    ensures now == drawn + [r] && Drawing(now, rest, all, ok, waits)
  {
    ok := waits(|drawn|);
    now := drawn + [r];
    assert drawn + ([r] + rest) == now + rest;
  }

  lemma BandFirst(s: Shape)
    ensures Band(s) <= Rects(s) && Band(s) + Corners(s, 1) == Rects(s)
  {
  }

  /** gpu_rounded_rect: the draws in their order, up to the first that fails. */
  method RoundedRect(s: Shape, waits: Waits) returns (drawn: seq<Rect>, ok: bool)
    requires Drawable(s)
    ensures Stopped(drawn, Rects(s), ok, waits)
  {
    drawn, ok := DrawBand(s, waits);
    var dy := 1;
    while dy <= s.rr && ok
      invariant 1 <= dy <= s.rr + 1
      invariant Drawing(drawn, Corners(s, dy), Rects(s), ok, waits)
      decreases s.rr - dy
    {
      drawn, ok := DrawRow(s, dy, drawn, waits);
      dy := dy + 1;
    }
    if ok { NoMoreCorners(s, drawn); }
  }

  lemma NoMoreCorners(s: Shape, drawn: seq<Rect>)
    requires 0 <= s.rr
    ensures drawn + Corners(s, s.rr + 1) == drawn
  {
  }

  method DrawBand(s: Shape, waits: Waits) returns (drawn: seq<Rect>, ok: bool)
    requires Drawable(s)
    ensures Drawing(drawn, Corners(s, 1), Rects(s), ok, waits)
  {
    drawn, ok := [], true;
    BandFirst(s);
    if s.h > 2 * s.rr {
      assert drawn + (Band(s) + Corners(s, 1)) == Rects(s);
      drawn, ok := Emit(drawn, Rect(s.x, s.y + s.rr, s.w, s.h - 2 * s.rr), Corners(s, 1), Rects(s), waits);
    } else {
      assert drawn + Corners(s, 1) == Rects(s);
    }
  }

  method RowHalf(rr: int, dy: int) returns (cx: nat)
    requires 0 <= dy <= rr <= MAX_RADIUS
    ensures cx == HalfWidth(rr, dy)
  {
    RowSquare(rr, dy);
    RadiusBound(rr);
    cx := Isqrt(rr * rr - dy * dy);
  }

  method EmitPair(drawn: seq<Rect>, top: Rect, bottom: Rect, ghost rest: seq<Rect>, ghost all: seq<Rect>, waits: Waits)
    returns (now: seq<Rect>, ok: bool)
    requires Drawing(drawn, [top] + ([bottom] + rest), all, true, waits)
    ensures Drawing(now, rest, all, ok, waits)
  {
    now, ok := Emit(drawn, top, [bottom] + rest, all, waits);
    if ok { now, ok := Emit(now, bottom, rest, all, waits); }
  }

  lemma RowFirst(s: Shape, dy: int, cx: nat)
    requires 0 <= dy <= s.rr && cx == HalfWidth(s.rr, dy)
    ensures Corners(s, dy) == Spans(s, dy, cx) + Corners(s, dy + 1)
  {
  }

  /** The two spans of a row, mirrored top and bottom. */
  method DrawSpans(s: Shape, dy: int, cx: nat, drawn: seq<Rect>, ghost rest: seq<Rect>, ghost all: seq<Rect>, waits: Waits)
    returns (now: seq<Rect>, ok: bool)
    requires Drawing(drawn, Spans(s, dy, cx) + rest, all, true, waits)
    ensures Drawing(now, rest, all, ok, waits)
  {
    var left, sw := s.x + s.rr - cx, s.w - 2 * s.rr + 2 * cx;
    now, ok := drawn, true;
    if sw > 0 {
      var top, bottom := Rect(left, s.y + s.rr - dy, sw, 1), Rect(left, s.y + s.h - s.rr + dy - 1, sw, 1);
      assert [top, bottom] + rest == [top] + ([bottom] + rest);
      now, ok := EmitPair(drawn, top, bottom, rest, all, waits);
    } else {
      assert [] + rest == rest;
    }
  }

  /** One row of the corner bands. */
  method DrawRow(s: Shape, dy: int, drawn: seq<Rect>, waits: Waits) returns (now: seq<Rect>, ok: bool)
    requires Drawable(s) && 1 <= dy <= s.rr && Drawing(drawn, Corners(s, dy), Rects(s), true, waits)
    ensures Drawing(now, Corners(s, dy + 1), Rects(s), ok, waits)
  {
    var cx := RowHalf(s.rr, dy);
    RowFirst(s, dy, cx);
    now, ok := DrawSpans(s, dy, cx, drawn, Corners(s, dy + 1), Rects(s), waits);
  }

  /** The radius is cut to half of either side. */
  function Rounded(x: int, y: int, w: u16, h: u16, r: u16): Shape {
    Shape(x, y, w, h, Min(r, Min(w / 2, h / 2)))
  }

  /** tiku_gpu_fill_rounded_rect: without a radius it is a plain fill. */
  method FillRoundedRect(x: int, y: int, w: u16, h: u16, r: u16, waits: Waits) returns (drawn: seq<Rect>, ok: bool)
    ensures var s := Rounded(x, y, w, h, r);
            if s.rr > 0 then Drawable(s) && Stopped(drawn, Rects(s), ok, waits)
            else drawn == [Rect(x, y, w, h)] && ok == waits(0)
  {
    var rr: int := r;
    if rr > w / 2 { rr := w / 2; }
    if rr > h / 2 { rr := h / 2; }
    if rr <= 0 {
      drawn, ok := [Rect(x, y, w, h)], waits(0);
    } else {
      drawn, ok := RoundedRect(Shape(x, y, w, h, rr), waits);
    }
  }

  /** tiku_gpu_fill_circle, for the radii whose square fits (the parameter allows
      more). */
  method FillCircle(cx: int, cy: int, r: u16, waits: Waits) returns (drawn: seq<Rect>, ok: bool)
    requires r <= MAX_RADIUS
    ensures Stopped(drawn, Rects(Shape(cx - r, cy - r, 2 * r, 2 * r, r)), ok, waits)
  {
    drawn, ok := RoundedRect(Shape(cx - r, cy - r, 2 * r, 2 * r, r), waits);
  }

  // ---------------------------------------------------------------------------
  // What is painted
  // ---------------------------------------------------------------------------

  predicate Covers(r: Rect, px: int, py: int) { r.x <= px < r.x + r.w && r.y <= py < r.y + r.h }

  /** How often a pixel is painted. */
  function Times(rs: seq<Rect>, px: int, py: int): nat {
    if rs == [] then 0 else (if Covers(rs[0], px, py) then 1 else 0) + Times(rs[1..], px, py)
  }

  lemma {:induction false} TimesAppend(a: seq<Rect>, b: seq<Rect>, px: int, py: int)
    ensures Times(a + b, px, py) == Times(a, px, py) + Times(b, px, py)
  {
    if a == [] {
      assert a + b == b;
    } else {
      assert (a + b)[0] == a[0] && (a + b)[1..] == a[1..] + b;
      TimesAppend(a[1..], b, px, py);
    }
  }

  function Beyond(a: int): nat { if a > 0 then a else 0 }

  /** How far a pixel is outside the box between the corner centres, to the left or
      right, and above or below. */
  function OutX(s: Shape, px: int): nat { Beyond(s.x + s.rr - px) + Beyond(px - (s.x + s.w - s.rr) + 1) }

  function OutY(s: Shape, py: int): nat { Beyond(s.y + s.rr - py) + Beyond(py - (s.y + s.h - s.rr) + 1) }

  /** The shape, independently of spans: within rr of the box between the corner
      centres, not counting it, in the rows where that box has width. */
  predicate Inside(s: Shape, px: int, py: int) {
    var dx, dy := OutX(s, px), OutY(s, py);
    if dy == 0 then s.x <= px < s.x + s.w
    else dx * dx + dy * dy <= s.rr * s.rr
  }

  /** In row dy the span reaches exactly the pixels of the circle. */
  lemma SpanIsCircle(s: Shape, px: int, dy: int)
    requires Drawable(s) && 1 <= dy <= s.rr
    ensures var cx := HalfWidth(s.rr, dy);
            s.x + s.rr - cx <= px < s.x + s.rr - cx + (s.w - 2 * s.rr + 2 * cx) <==>
            OutX(s, px) * OutX(s, px) + dy * dy <= s.rr * s.rr
  {
    RowSquare(s.rr, dy);
    UnderRoot(OutX(s, px), s.rr * s.rr - dy * dy);
  }

  predicate InSpan(s: Shape, dy: int, px: int)
    requires 0 <= dy <= s.rr
  {
    var cx := HalfWidth(s.rr, dy);
    s.x + s.rr - cx <= px < s.x + s.rr - cx + (s.w - 2 * s.rr + 2 * cx)
  }

  /** Is py a row at distance d from the band on one side, from dy on, and px in
      its span? */
  function OneSide(s: Shape, dy: int, d: int, px: int): nat
    requires 0 <= dy
  {
    if dy <= d <= s.rr && InSpan(s, d, px) then 1 else 0
  }

  lemma RowTimes(s: Shape, dy: int, px: int, py: int)
    requires Drawable(s) && 1 <= dy <= s.rr
    ensures Times(Row(s, dy), px, py) ==
            (if s.y + s.rr - py == dy && InSpan(s, dy, px) then 1 else 0) +
            (if py - (s.y + s.h - s.rr) + 1 == dy && InSpan(s, dy, px) then 1 else 0)
  {
    var r := Row(s, dy);
    if r != [] { TimesOfTwo(r[0], r[1], px, py); }
  }

  lemma TimesOfTwo(a: Rect, b: Rect, px: int, py: int)
    ensures Times([a, b], px, py) == (if Covers(a, px, py) then 1 else 0) + (if Covers(b, px, py) then 1 else 0)
  {
    var none: seq<Rect> := [];
    assert [a, b][1..] == [b] && [b][1..] == none;
    assert Times(none, px, py) == 0;
    assert Times([b], px, py) == (if Covers(b, px, py) then 1 else 0) + Times(none, px, py);
  }

  lemma OneSideStep(s: Shape, dy: int, d: int, px: int)
    requires 0 <= dy <= s.rr
    ensures OneSide(s, dy, d, px) == (if d == dy && InSpan(s, dy, px) then 1 else 0) + OneSide(s, dy + 1, d, px)
  {
  }

  lemma {:induction false} CornerTimes(s: Shape, dy: int, px: int, py: int)
    requires Drawable(s) && 1 <= dy <= s.rr + 1
    ensures Times(Corners(s, dy), px, py) ==
            OneSide(s, dy, s.y + s.rr - py, px) + OneSide(s, dy, py - (s.y + s.h - s.rr) + 1, px)
    decreases s.rr + 1 - dy
  {
    if dy <= s.rr {
      RowTimes(s, dy, px, py);
      CornerTimes(s, dy + 1, px, py);
      OneSideStep(s, dy, s.y + s.rr - py, px);
      OneSideStep(s, dy, py - (s.y + s.h - s.rr) + 1, px);
      TimesAppend(Row(s, dy), Corners(s, dy + 1), px, py);
    }
  }

  lemma BandTimes(s: Shape, px: int, py: int)
    requires Drawable(s)
    ensures Times(Band(s), px, py) == if OutY(s, py) == 0 && s.x <= px < s.x + s.w then 1 else 0
  {
    if Band(s) != [] { assert Band(s)[1..] == []; }
  }

  /** Outside the band's rows, a pixel is in the shape when it is in the span of
      its row, on whichever side. */
  lemma InsideIsSpan(s: Shape, px: int, py: int)
    requires Drawable(s) && OutY(s, py) != 0
    ensures (if Inside(s, px, py) then 1 else 0) ==
            OneSide(s, 1, s.y + s.rr - py, px) + OneSide(s, 1, py - (s.y + s.h - s.rr) + 1, px)
  {
    var d := OutY(s, py);
    if d <= s.rr {
      SpanIsCircle(s, px, d);
    } else if Inside(s, px, py) {
      InCircle(OutX(s, px), d, s.rr);
    }
  }

  /**
   * Every pixel of the shape is painted exactly once and no other pixel at all:
   * the spans stay inside, never overlap, and are those of the circle.
   */
  lemma PaintedOnce(s: Shape, px: int, py: int)
    requires Drawable(s)
    ensures Times(Rects(s), px, py) == if Inside(s, px, py) then 1 else 0
  {
    TimesAppend(Band(s), Corners(s, 1), px, py);
    BandTimes(s, px, py);
    CornerTimes(s, 1, px, py);
    if OutY(s, py) != 0 { InsideIsSpan(s, px, py); }
  }

  // ---------------------------------------------------------------------------
  // The shape
  // ---------------------------------------------------------------------------

  /** The shape stays in its box and is symmetric on both axes. */
  lemma InsideBox(s: Shape, px: int, py: int)
    requires Drawable(s) && Inside(s, px, py)
    ensures s.x <= px < s.x + s.w && s.y <= py < s.y + s.h
  {
    var dx, dy := OutX(s, px), OutY(s, py);
    if dy != 0 { InCircle(dx, dy, s.rr); }
  }

  lemma InCircle(dx: nat, dy: nat, rr: nat)
    requires dx * dx + dy * dy <= rr * rr
    ensures dx <= rr && dy <= rr
  {
    SquareMonotone(dx, rr);
    SquareMonotone(dy, rr);
  }

  lemma Symmetric(s: Shape, px: int, py: int)
    requires Drawable(s)
    ensures Inside(s, 2 * s.x + s.w - 1 - px, py) <==> Inside(s, px, py)
    ensures Inside(s, px, 2 * s.y + s.h - 1 - py) <==> Inside(s, px, py)
  {
  }

  /** A row of the shape is one run of pixels. */
  lemma RowIsOneRun(s: Shape, px: int, mid: int, qx: int, py: int)
    requires Drawable(s) && px <= mid <= qx && Inside(s, px, py) && Inside(s, qx, py)
    ensures Inside(s, mid, py)
  {
    if OutX(s, mid) <= OutX(s, px) { SquareMonotone(OutX(s, mid), OutX(s, px)); }
    if OutX(s, mid) <= OutX(s, qx) { SquareMonotone(OutX(s, mid), OutX(s, qx)); }
  }

  /** Rows never widen away from the band: what a row covers, every row at most as
      far out covers too. */
  lemma NeverWidens(s: Shape, px: int, far: int, near: int)
    requires Drawable(s) && OutY(s, near) <= OutY(s, far) && Inside(s, px, far)
    ensures Inside(s, px, near)
  {
    InsideBox(s, px, far);
    SquareMonotone(OutY(s, near), OutY(s, far));
  }
}
