/**
 * The byte kernels (hal/tiku_simd.c): the vector backend, sixteen lanes at a time
 * with the tail predicated, against the scalar one.
 */
module Simd {
  import opened Words

  const MAX_N: nat := 0x1_0000_0000 - 16      // beyond, the index itself would wrap

  // ---------------------------------------------------------------------------
  // One lane
  // ---------------------------------------------------------------------------

  function Sat(t: nat): u8 { if t > 255 then 255 else t }

  function MulDiv(a: u8, b: u8): u8 {
    ProductBound(a, b);
    a * b / 255
  }

  lemma ProductBound(a: nat, b: nat)
    requires a <= 255 && b <= 255
    ensures a * b <= 65025
  {
    MulGrows(a, b, 255);
  }

  /** The element-wise kernels: fill, copy, add_sat, multiply, scale, affine, saxpy
      (whose y is its destination) and lut256. */
  datatype Kernel =
    | Fill(v: u8) | Copy | AddSat | Multiply | Scale(a: u8) | Affine(a: u8, b: u8) | Saxpy(a: u8) | Lut(lut: Bytes)

  predicate Usable(k: Kernel) { k.Lut? ==> |k.lut| == 256 }

  /** The scalar backend's element. */
  function Element(k: Kernel, x: u8, y: u8): u8
    requires Usable(k)
  {
    match k
    case Fill(v) => v
    case Copy => x
    case AddSat => Sat(x + y)
    case Multiply => MulDiv(x, y)
    case Scale(a) => MulDiv(x, a)
    case Affine(a, b) => Sat(MulDiv(x, a) + b)
    case Saxpy(a) => Sat(MulDiv(x, a) + y)
    case Lut(lut) => lut[x]
  }

  // ---------------------------------------------------------------------------
  // Sixteen lanes
  // ---------------------------------------------------------------------------

  type Vec = v: Bytes | |v| == 16 witness [0, 0, 0, 0, 0, 0, 0, 0, 0, 0, 0, 0, 0, 0, 0, 0]

  /** simd_div255_u16 on one 16-bit lane, its additions wrapping. */
  function DivShift(v: u16): u16 { Low16(Low16(v + v / 0x100) + 1) / 0x100 }

  /** For any product of two bytes the sum does not wrap and the shift form is the
      division by 255. */
  lemma DivShiftIsDiv(v: u16)
    requires v <= 65025
    ensures v + v / 0x100 + 1 <= 65280 && DivShift(v) == v / 255
  {
    var q, r := v / 255, v % 255;
    DivShiftParts(v, q, r);
  }

  lemma DivShiftParts(v: u16, q: nat, r: nat)
    requires v == 255 * q + r && r < 255 && v <= 65025
    ensures v + v / 0x100 + 1 <= 65280 && DivShift(v) == q
  {
    if r >= q {
      DivShiftBytes(v, q, r - q, q, r + 1);
    } else {
      DivShiftBytes(v, q - 1, 0x100 + r - q, q, r);
    }
  }

  lemma DivShiftBytes(v: u16, h: nat, l: nat, q: nat, m: nat)
    requires v == 0x100 * h + l && l < 0x100 && v <= 65025
    requires v + h + 1 == 0x100 * q + m && m < 0x100
    ensures v + v / 0x100 + 1 <= 65280 && DivShift(v) == q
  {
    assert h <= 254;
    HighByte(v, h, l);
    NoWrap16(v + h);
    NoWrap16(v + h + 1);
    HighByte(v + h + 1, q, m);
  }

  lemma NoWrap16(x: int)
    requires 0 <= x < 0x1_0000
    ensures Low16(x) == x
  {
  }

  lemma HighByte(v: int, h: int, l: int)
    requires v == 0x100 * h + l && 0 <= l < 0x100
    ensures v / 0x100 == h
  {
  }

  /** simd_mul_div255_u8: the even lanes' products and the odd lanes', divided and
      narrowed back to their places. */
  function VMulDiv(a: Vec, b: Vec): Vec {
    var lo := seq(8, k requires 0 <= k < 8 => Product(a[2 * k], b[2 * k]));
    var hi := seq(8, k requires 0 <= k < 8 => Product(a[2 * k + 1], b[2 * k + 1]));
    seq(16, j requires 0 <= j < 16 => DivShift(if j % 2 == 0 then lo[j / 2] else hi[j / 2]) % 0x100)
  }

  function Product(a: u8, b: u8): u16 {
    ProductBound(a, b);
    a * b
  }

  lemma ProductDivides(a: u8, b: u8)
    ensures DivShift(Product(a, b)) % 0x100 == MulDiv(a, b)
  {
    ProductBound(a, b);
    DivShiftIsDiv(Product(a, b));
  }

  lemma VMulDivLanes(a: Vec, b: Vec, j: nat)
    requires j < 16
    ensures VMulDiv(a, b)[j] == MulDiv(a[j], b[j])
  {
    ProductDivides(a[j], b[j]);
    EvenOdd(j);
  }

  lemma EvenOdd(j: nat)
    ensures if j % 2 == 0 then 2 * (j / 2) == j else 2 * (j / 2) + 1 == j
  {
  }

  function Dup(v: u8): Vec { seq(16, _ => v) }

  /** vqaddq_u8. */
  function VAddSat(a: Vec, b: Vec): Vec { seq(16, j requires 0 <= j < 16 => Sat(a[j] as int + b[j] as int)) }

  lemma SumLane(m: Vec, y: Vec, j: nat)
    requires j < 16
    ensures VAddSat(m, y)[j] == Sat(m[j] as int + y[j] as int)
  {
  }

  lemma ScaledSum(x: Vec, a: u8, y: Vec, j: nat)
    requires j < 16
    ensures VAddSat(VMulDiv(x, Dup(a)), y)[j] == Sat(MulDiv(x[j], a) + y[j])
  {
    VMulDivLanes(x, Dup(a), j);
    SumLane(VMulDiv(x, Dup(a)), y, j);
  }

  /** The instructions of a kernel's loop body. */
  function Vector(k: Kernel, x: Vec, y: Vec): Vec
    requires Usable(k)
  {
    match k
    case Fill(v) => Dup(v)
    case Copy => x
    case AddSat => VAddSat(x, y)
    case Multiply => VMulDiv(x, y)
    case Scale(a) => VMulDiv(x, Dup(a))
    case Affine(a, b) => VAddSat(VMulDiv(x, Dup(a)), Dup(b))
    case Saxpy(a) => VAddSat(VMulDiv(x, Dup(a)), y)
    case Lut(lut) => seq(16, j requires 0 <= j < 16 => lut[x[j]])
  }

  /** Every lane is the scalar element. */
  lemma LanesAreElements(k: Kernel, x: Vec, y: Vec, j: nat)
    requires Usable(k) && j < 16
    ensures Vector(k, x, y)[j] == Element(k, x[j], y[j])
  {
    match k
    case Multiply => VMulDivLanes(x, y, j);
    case Scale(a) => VMulDivLanes(x, Dup(a), j);
    case Affine(a, b) => ScaledSum(x, a, Dup(b), j);
    case Saxpy(a) => ScaledSum(x, a, y, j);
    case Fill(_) =>
    case Copy =>
    case AddSat =>
    case Lut(_) =>
  }

  // ---------------------------------------------------------------------------
  // The loops
  // ---------------------------------------------------------------------------

  /** What a kernel leaves in its destination: n elements, and nothing past them. */
  function Result(k: Kernel, dst: Bytes, x: Bytes, y: Bytes, n: nat): (r: Bytes)
    requires Usable(k) && n <= |dst| && n <= |x| && n <= |y|
    ensures |r| == |dst|
  {
    seq(|dst|, j requires 0 <= j < |dst| => if j < n then Element(k, x[j], y[j]) else dst[j])
  }

  /** The scalar loop.  The buffers are the same or do not overlap. */
  method Scalar(k: Kernel, dst: array<u8>, x: array<u8>, y: array<u8>, n: u32)
    requires Usable(k) && n <= dst.Length && n <= x.Length && n <= y.Length
    modifies dst
    ensures dst[..] == Result(k, old(dst[..]), old(x[..]), old(y[..]), n)
  {
    ghost var dst0, x0, y0 := dst[..], x[..], y[..];
    var i := 0;
    while i < n
      invariant i <= n
      invariant forall j :: 0 <= j < i ==> dst[j] == Element(k, x0[j], y0[j])
      invariant forall j :: i <= j < dst.Length ==> dst[j] == dst0[j]
      invariant (x != dst ==> x[..] == x0) && (y != dst ==> y[..] == y0)
    {
      dst[i] := Element(k, x[i], y[i]);
      i := i + 1;
    }
  }

  /** vldrbq_z_u8 with the lanes past `active` zero. */
  method Load(a: array<u8>, i: nat, active: nat) returns (v: Vec)
    requires active <= 16 && i + active <= a.Length
    ensures forall j :: 0 <= j < active ==> v[j] == a[i + j]
  {
    var s := a[i..i + active];
    v := s + seq(16 - active, _ => 0);
  }

  /** vstrbq_p_u8: the lanes past `active` are not stored. */
  method Store(a: array<u8>, i: nat, v: Vec, active: nat)
    requires active <= 16 && i + active <= a.Length
    modifies a
    ensures forall j :: 0 <= j < a.Length ==> a[j] == if i <= j < i + active then v[j - i] else old(a[j])
  {
    forall j | 0 <= j < active { a[i + j] := v[j]; }
  }

  /** The vector loop.  The index never wraps for n up to 2^32 - 16. */
  method Vectored(k: Kernel, dst: array<u8>, x: array<u8>, y: array<u8>, n: u32)
    requires Usable(k) && n <= MAX_N && n <= dst.Length && n <= x.Length && n <= y.Length
    modifies dst
    ensures dst[..] == Result(k, old(dst[..]), old(x[..]), old(y[..]), n)
  {
    ghost var dst0, x0, y0 := dst[..], x[..], y[..];
    var i: u32 := 0;
    while i < n
      invariant i < n + 16
      invariant forall j :: 0 <= j < i && j < n ==> dst[j] == Element(k, x0[j], y0[j])
      invariant forall j :: 0 <= j < dst.Length && (i <= j || n <= j) ==> dst[j] == dst0[j]
      invariant (x != dst ==> x[..] == x0) && (y != dst ==> y[..] == y0)
      decreases n + 16 - i
    {
      var active := if n - i < 16 then n - i else 16;
      var vx := Load(x, i, active);
      var vy := Load(y, i, active);
      forall j | 0 <= j < active ensures Vector(k, vx, vy)[j] == Element(k, x0[i + j], y0[i + j]) {
        LanesAreElements(k, vx, vy, j);
      }
      Store(dst, i, Vector(k, vx, vy), active);
      i := i + 16;
    }
  }

  /**
   * The bound on n is exact: the 32-bit index, which goes up by sixteen from 0, ever
   * reaches n only up to there.
   */
  lemma IndexReachesIff(n: u32)
    ensures (exists k: nat :: Reaches(k, n)) <==> n <= MAX_N
  {
    if n <= MAX_N {
      assert 16 * ((n + 15) / 16) >= n && 16 * ((n + 15) / 16) <= MAX_N;
      assert Reaches((n + 15) / 16, n);
    } else {
      forall k: nat ensures !Reaches(k, n) { IndexBelow(k); }
    }
  }

  /** The index after k rounds is at least n. */
  predicate Reaches(k: nat, n: u32) { Low32(16 * k) >= n }

  lemma IndexBelow(k: nat)
    ensures Low32(16 * k) <= MAX_N
  {
    var q := 16 * k / TWO32;
    assert 16 * k == TWO32 * q + Low32(16 * k);
    assert Low32(16 * k) == 16 * (k - 0x1000_0000 * q);
  }

  // ---------------------------------------------------------------------------
  // Sums
  // ---------------------------------------------------------------------------

  /** The true sum of products over the first elements. */
  function Dot(x: Bytes, w: Bytes): nat
    requires |x| == |w|
  {
    if x == [] then 0 else x[0] as int * w[0] as int + Dot(x[1..], w[1..])
  }

  lemma {:induction false} DotAppend(x: Bytes, w: Bytes, x': Bytes, w': Bytes)
    requires |x| == |w| && |x'| == |w'|
    ensures Dot(x + x', w + w') == Dot(x, w) + Dot(x', w')
  {
    if x == [] {
      assert x + x' == x' && w + w' == w';
    } else {
      assert (x + x')[1..] == x[1..] + x' && (w + w')[1..] == w[1..] + w';
      DotAppend(x[1..], w[1..], x', w');
    }
  }

  function Ones(n: nat): Bytes { seq(n, _ => 1) }

  /** tiku_simd_dot_u8 and, with w all ones, tiku_simd_sum_u8: the scalar loop. */
  method DotScalar(x: array<u8>, w: array<u8>, n: u32) returns (acc: u32)
    requires n <= x.Length && n <= w.Length
    ensures acc == Low32(Dot(x[..n], w[..n]))
  {
    acc := 0;
    var i := 0;
    while i < n
      invariant i <= n && acc == Low32(Dot(x[..i], w[..i]))
    {
      OneMore(x[..], w[..], i);
      AddLow(Dot(x[..i], w[..i]), x[i] as int * w[i] as int);
      acc := Low32(acc + x[i] as int * w[i] as int);
      i := i + 1;
    }
  }

  lemma OneMore(x: Bytes, w: Bytes, i: nat)
    requires i < |x| && i < |w|
    ensures Dot(x[..i + 1], w[..i + 1]) == Dot(x[..i], w[..i]) + x[i] as int * w[i] as int
  {
    assert x[..i + 1] == x[..i] + [x[i]] && w[..i + 1] == w[..i] + [w[i]];
    DotAppend(x[..i], w[..i], [x[i]], [w[i]]);
  }

  /** vmladavaq_p_u8, and vaddvaq_p_u8 with ones: the active lanes' products join
      the accumulator, which wraps. */
  function AccumulateLanes(acc: u32, x: Bytes, w: Bytes): u32
    requires |x| == |w| <= 16
  {
    Low32(acc + Dot(x, w))
  }

  /** The accumulator takes in the elements from i to j. */
  lemma LanesJoin(x: Bytes, w: Bytes, i: nat, j: nat, acc: u32)
    requires i <= j <= |x| == |w| && j - i <= 16 && acc == Low32(Dot(x[..i], w[..i]))
    ensures AccumulateLanes(acc, x[i..j], w[i..j]) == Low32(Dot(x[..j], w[..j]))
  {
    assert x[..j] == x[..i] + x[i..j] && w[..j] == w[..i] + w[i..j];
    DotAppend(x[..i], w[..i], x[i..j], w[i..j]);
    AddLow(Dot(x[..i], w[..i]), Dot(x[i..j], w[i..j]));
  }

  /** The vector loop. */
  method DotVectored(x: array<u8>, w: array<u8>, n: u32) returns (acc: u32)
    requires n <= MAX_N && n <= x.Length && n <= w.Length
    ensures acc == Low32(Dot(x[..n], w[..n]))
  {
    ghost var xs, ws := x[..n], w[..n];
    acc := 0;
    var i: u32 := 0;
    while i < n
      invariant i < n + 16 && acc == Low32(Dot(xs[..Min(i, n)], ws[..Min(i, n)]))
      decreases n + 16 - i
    {
      var top := Min(i + 16, n);
      LanesJoin(xs, ws, i, top, acc);
      SliceOfTake(x[..], n, i, top);
      SliceOfTake(w[..], n, i, top);
      acc := AccumulateLanes(acc, x[i..top], w[i..top]);
      i := i + 16;
    }
    assert xs[..n] == xs && ws[..n] == ws;
  }

  lemma {:induction false} DotBound(x: Bytes, w: Bytes, top: nat)
    requires |x| == |w| && forall i :: 0 <= i < |w| ==> w[i] <= top
    requires top <= 255
    ensures Dot(x, w) <= 255 * top * |x|
  {
    if x != [] {
      DotBound(x[1..], w[1..], top);
      assert x[0] as int * w[0] as int <= 255 * top by { Scaled(x[0], w[0], top); }
      assert 255 * top * |x| == 255 * top + 255 * top * (|x| - 1);
    }
  }

  lemma Scaled(a: nat, b: nat, top: nat)
    requires a <= 255 && b <= top
    ensures a * b <= 255 * top
  {
    MulGrows(b, a, 255);
  }

  lemma {:induction false} DotOfTops(n: nat, top: u8)
    ensures Dot(seq(n, _ => 255), seq(n, _ => top)) == 255 * top * n
  {
    if n > 0 {
      DotOfTops(n - 1, top);
      assert seq(n, _ => 255)[1..] == seq(n - 1, _ => 255);
      assert seq(n, _ => top)[1..] == seq(n - 1, _ => top);
      assert 255 * top * n == 255 * top + 255 * top * (n - 1);
    }
  }

  lemma Wraps(t: nat)
    requires t >= TWO32
    ensures Low32(t) != t
  {
  }

  /**
   * The 32-bit accumulator holds the true inner product whatever the contents up
   * to 66051 elements, one more than the documented bound promises, and not for
   * more.
   */
  lemma DotExactIff(n: nat)
    ensures (forall x: Bytes, w: Bytes :: |x| == n && |w| == n ==> Low32(Dot(x, w)) == Dot(x, w)) <==> n <= 66051
  {
    if n <= 66051 {
      forall x: Bytes, w: Bytes | |x| == n && |w| == n ensures Low32(Dot(x, w)) == Dot(x, w) {
        DotBound(x, w, 255);
      }
    } else {
      var x: Bytes := seq(n, _ => 255);
      DotOfTops(n, 255);
      Wraps(Dot(x, x));
    }
  }

  /** The same for the plain sum: up to 16843009 elements. */
  lemma SumExactIff(n: nat)
    ensures (forall x: Bytes :: |x| == n ==> Low32(Dot(x, Ones(n))) == Dot(x, Ones(n))) <==> n <= 16843009
  {
    if n <= 16843009 {
      forall x: Bytes | |x| == n ensures Low32(Dot(x, Ones(n))) == Dot(x, Ones(n)) {
        DotBound(x, Ones(n), 1);
      }
    } else {
      var x: Bytes := seq(n, _ => 255);
      DotOfTops(n, 1);
      assert Ones(n) == seq(n, _ => 1);
      Wraps(Dot(x, Ones(n)));
    }
  }
}
