/**
 * The mirror's CRC-32 (kernel/memory/tiku_nvm_mirror.h): the nibble table does
 * what the bitwise definition says, and a payload may be summed in chunks.
 */
module Crc {

  const POLY: bv32 := 0xEDB8_8320
  const ONES: bv32 := 0xFFFF_FFFF

  /** One bit of the reflected CRC. */
  function BitStep(c: bv32): bv32 {
    if c & 1 == 1 then (c >> 1) ^ POLY else c >> 1
  }

  function Fold<S, B>(g: (S, B) -> S, s: S, data: seq<B>): S
    decreases data
  {
    if data == [] then s else Fold(g, g(s, data[0]), data[1..])
  }

  function Four<S>(f: S -> S, s: S): S { f(f(f(f(s)))) }

  function Eight(c: bv32): bv32 { Four(BitStep, Four(BitStep, c)) }

  function Mix(c: bv32, b: bv8): bv32 { c ^ (b as bv32) }

  function ByteStep(c: bv32, b: bv8): bv32 { Eight(Mix(c, b)) }

  /** The running state after more bytes, by the definition. */
  function Update(c: bv32, data: seq<bv8>): bv32 { Fold(ByteStep, c, data) }

  function Crc32(data: seq<bv8>): bv32 { Update(ONES, data) ^ ONES }

  function Xor(c: bv32, d: bv32): bv32 { c ^ d }

  // ---------------------------------------------------------------------------
  // The nibble table
  // ---------------------------------------------------------------------------

  /** The static table nib[16]. */
  function Nib(i: bv32): bv32 {
    if i == 0 then 0x0000_0000 else if i == 1 then 0x1DB7_1064
    else if i == 2 then 0x3B6E_20C8 else if i == 3 then 0x26D9_30AC
    else if i == 4 then 0x76DC_4190 else if i == 5 then 0x6B6B_51F4
    else if i == 6 then 0x4DB2_6158 else if i == 7 then 0x5005_713C
    else if i == 8 then 0xEDB8_8320 else if i == 9 then 0xF00F_9344
    else if i == 10 then 0xD6D6_A3E8 else if i == 11 then 0xCB61_B38C
    else if i == 12 then 0x9B64_C2B0 else if i == 13 then 0x86D3_D2D4
    else if i == 14 then 0xA00A_E278 else 0xBDBD_F21C
  }

  lemma XorOfShifts(c: bv32, d: bv32)
    ensures (c ^ d) >> 1 == (c >> 1) ^ (d >> 1)
    ensures (c ^ d) & 1 == (c & 1) ^ (d & 1)
    ensures c & 1 == 0 || c & 1 == 1
    ensures d & 1 == 0 || d & 1 == 1
  {
  }

  lemma XorMoves(a: bv32, b: bv32, p: bv32)
    ensures (a ^ p) ^ (b ^ p) == a ^ b && (a ^ p) ^ b == (a ^ b) ^ p && a ^ (b ^ p) == (a ^ b) ^ p
  {
  }

  /** A step is linear over exclusive or. */
  lemma BitStepXor(c: bv32, d: bv32)
    ensures BitStep(c ^ d) == BitStep(c) ^ BitStep(d)
  {
    XorOfShifts(c, d);
    XorMoves(c >> 1, d >> 1, POLY);
  }

  lemma FourDistributes<S(!new)>(f: S -> S, op: (S, S) -> S, s: S, t: S)
    requires forall x: S, y: S {:trigger f(op(x, y))} :: f(op(x, y)) == op(f(x), f(y))
    ensures Four(f, op(s, t)) == op(Four(f, s), Four(f, t))
  {
  }

  lemma FourXor(c: bv32, d: bv32)
    ensures Four(BitStep, c ^ d) == Four(BitStep, c) ^ Four(BitStep, d)
  {
    forall x: bv32, y: bv32 ensures BitStep(Xor(x, y)) == Xor(BitStep(x), BitStep(y)) { BitStepXor(x, y); }
    FourDistributes(BitStep, Xor, c, d);
  }

  /** Bits above the low four only move down. */
  lemma FourShifts(w: bv32)
    requires w & 0xF == 0
    ensures Four(BitStep, w) == w >> 4
  {
    assert BitStep(w) == w >> 1;
    assert (w >> 1) & 1 == 0 && BitStep(w >> 1) == w >> 2;
    assert (w >> 2) & 1 == 0 && BitStep(w >> 2) == w >> 3;
    assert (w >> 3) & 1 == 0 && BitStep(w >> 3) == w >> 4;
  }

  lemma NibIsFour(i: bv32)
    requires i < 16
    ensures Nib(i) == Four(BitStep, i)
  {
  }

  lemma NibbleParts(w: bv32, i: bv32)
    requires w & 0xF == 0 && i < 16
    ensures Four(BitStep, w ^ i) == (w >> 4) ^ Four(BitStep, i)
  {
    FourXor(w, i);
    FourShifts(w);
  }

  lemma Nibbles(c: bv32) returns (w: bv32, i: bv32)
    ensures c == w ^ i && w & 0xF == 0 && i < 16 && w >> 4 == c >> 4 && i == c & 0xF
  {
    w, i := c & 0xFFFF_FFF0, c & 0xF;
  }

  /** One table lookup does four bits. */
  lemma LookupIsFourBits(c: bv32, d: bv32)
    requires d == (c >> 4) ^ Nib(c & 0xF)
    ensures Four(BitStep, c) == d
  {
    var w, i := Nibbles(c);
    NibIsFour(i);
    NibbleParts(w, i);
  }

  /** tiku_nvm_crc32_update. */
  method CrcUpdate(crc: bv32, data: seq<bv8>) returns (c: bv32)
    ensures c == Update(crc, data)
  {
    c := crc;
    var i := 0;
    while i < |data|
      invariant i <= |data| && Update(c, data[i..]) == Update(crc, data)
    {
      c := c ^ (data[i] as bv32);
      ghost var c0 := c;
      c := (c >> 4) ^ Nib(c & 0xF);
      LookupIsFourBits(c0, c);
      ghost var c1 := c;
      c := (c >> 4) ^ Nib(c & 0xF);
      LookupIsFourBits(c1, c);
      i := i + 1;
    }
  }

  /** tiku_nvm_crc32. */
  method Crc32Of(data: seq<bv8>) returns (c: bv32)
    ensures c == Crc32(data)
  {
    c := CrcUpdate(ONES, data);
    c := c ^ ONES;
  }

  lemma {:induction false} FoldAppend<S, B>(g: (S, B) -> S, s: S, a: seq<B>, b: seq<B>)
    ensures Fold(g, s, a + b) == Fold(g, Fold(g, s, a), b)
    decreases a
  {
    if a == [] {
      assert a + b == b;
    } else {
      assert (a + b)[0] == a[0] && (a + b)[1..] == a[1..] + b;
      FoldAppend(g, g(s, a[0]), a[1..], b);
    }
  }

  /** A payload may be checksummed in chunks as they pass. */
  lemma UpdateInChunks(c: bv32, a: seq<bv8>, b: seq<bv8>)
    ensures Update(c, a + b) == Update(Update(c, a), b)
  {
    FoldAppend(ByteStep, c, a, b);
  }

  // ---------------------------------------------------------------------------
  // What it detects
  // ---------------------------------------------------------------------------

  /** The top bit of the result tells whether the polynomial went in. */
  lemma BitStepInjective(c: bv32, d: bv32)
    requires BitStep(c) == BitStep(d)
    ensures c == d
  {
  }

  lemma FourInjective<S(!new)>(f: S -> S, s: S, t: S)
    requires forall x: S, y: S :: f(x) == f(y) ==> x == y
    requires Four(f, s) == Four(f, t)
    ensures s == t
  {
  }

  lemma EightInjective(c: bv32, d: bv32)
    requires Eight(c) == Eight(d)
    ensures c == d
  {
    forall x: bv32, y: bv32 | BitStep(x) == BitStep(y) ensures x == y { BitStepInjective(x, y); }
    FourInjective(BitStep, Four(BitStep, c), Four(BitStep, d));
    FourInjective(BitStep, c, d);
  }

  lemma MixInjective(c: bv32, d: bv32, b: bv8)
    requires Mix(c, b) == Mix(d, b)
    ensures c == d
  {
  }

  lemma ComposeInjective<S(!new), B(!new)>(f: S -> S, mix: (S, B) -> S, s: S, t: S, b: B)
    requires forall x: S, y: S :: f(x) == f(y) ==> x == y
    requires forall x: S, y: S :: mix(x, b) == mix(y, b) ==> x == y
    requires f(mix(s, b)) == f(mix(t, b))
    ensures s == t
  {
  }

  lemma ByteStepInjective(c: bv32, d: bv32, b: bv8)
    requires ByteStep(c, b) == ByteStep(d, b)
    ensures c == d
  {
    forall x: bv32, y: bv32 | Eight(x) == Eight(y) ensures x == y { EightInjective(x, y); }
    forall x: bv32, y: bv32 | Mix(x, b) == Mix(y, b) ensures x == y { MixInjective(x, y, b); }
    ComposeInjective(Eight, Mix, c, d, b);
  }

  lemma {:induction false} FoldInjective<S(!new), B(!new)>(g: (S, B) -> S, s: S, t: S, data: seq<B>)
    requires forall x: S, y: S, b: B :: g(x, b) == g(y, b) ==> x == y
    requires Fold(g, s, data) == Fold(g, t, data)
    ensures s == t
    decreases data
  {
    if data != [] { FoldInjective(g, g(s, data[0]), g(t, data[0]), data[1..]); }
  }

  lemma EightDistributes<S(!new)>(f: S -> S, op: (S, S) -> S, s: S, t: S)
    requires forall x: S, y: S {:trigger f(op(x, y))} :: f(op(x, y)) == op(f(x), f(y))
    ensures Four(f, Four(f, op(s, t))) == op(Four(f, Four(f, s)), Four(f, Four(f, t)))
  {
  }

  lemma EightXor(c: bv32, d: bv32)
    ensures Eight(Xor(c, d)) == Xor(Eight(c), Eight(d))
  {
    forall x: bv32, y: bv32 ensures BitStep(Xor(x, y)) == Xor(BitStep(x), BitStep(y)) { BitStepXor(x, y); }
    EightDistributes(BitStep, Xor, c, d);
  }

  /** Eight steps move what sits above the low byte down unchanged. */
  lemma EightShifts(w: bv32)
    requires w & 0xFF == 0
    ensures Eight(w) == w >> 8
  {
    assert w & 0xF == 0 && (w >> 4) & 0xF == 0 && (w >> 4) >> 4 == w >> 8;
    FourShifts(w);
    FourShifts(w >> 4);
  }

  lemma ShiftBack(delta: bv32) returns (w: bv32)
    requires delta < 0x100_0000
    ensures w == delta << 8 && Eight(w) == delta
  {
    w := delta << 8;
    assert w & 0xFF == 0 && w >> 8 == delta;
    EightShifts(w);
  }

  lemma Undo<S(!new)>(f: S -> S, op: (S, S) -> S, s: S, t: S, before: S)
    requires forall x: S, y: S {:trigger f(op(x, y))} :: f(op(x, y)) == op(f(x), f(y))
    requires forall x: S, y: S :: f(x) == f(y) ==> x == y
    requires op(f(s), f(t)) == f(before)
    ensures op(s, t) == before
  {
    assert f(op(s, t)) == f(before);
  }

  lemma EightUndo(x: bv32, y: bv32, before: bv32)
    requires Xor(Eight(x), Eight(y)) == Eight(before)
    ensures Xor(x, y) == before
  {
    forall x: bv32, y: bv32 ensures Eight(Xor(x, y)) == Xor(Eight(x), Eight(y)) { EightXor(x, y); }
    forall x: bv32, y: bv32 | Eight(x) == Eight(y) ensures x == y { EightInjective(x, y); }
    Undo(Eight, Xor, x, y, before);
  }

  lemma Regroup(c: bv32, d: bv32, a: bv8, b: bv8, u: bv32)
    requires Xor(Mix(c, a), Mix(d, b)) == u
    ensures c ^ d == u ^ ((a as bv32) ^ (b as bv32))
  {
  }

  /** The difference of two states before a byte each, from the one after. */
  function Before(delta: bv32, a: bv8, b: bv8): bv32 { (delta << 8) ^ ((a as bv32) ^ (b as bv32)) }

  predicate Small(delta: bv32) { delta < 0x100_0000 }

  lemma DifferenceBefore(c: bv32, d: bv32, a: bv8, b: bv8, delta: bv32)
    requires Xor(ByteStep(c, a), ByteStep(d, b)) == delta && delta < 0x100_0000
    ensures c ^ d == (delta << 8) ^ ((a as bv32) ^ (b as bv32))
  {
    var w := ShiftBack(delta);
    EightUndo(Mix(c, a), Mix(d, b), w);
    Regroup(c, d, a, b, w);
  }

  /** Three differences back from none the difference still fits 24 bits. */
  lemma StaysSmall(a: seq<bv8>, b: seq<bv8>)
    requires |a| == 4 && |b| == 4
    ensures var d3 := Before(0, a[3], b[3]); var d2 := Before(d3, a[2], b[2]);
            Small(d3) && Small(d2) && Small(Before(d2, a[1], b[1]))
  {
  }

  lemma NoDifference(a: seq<bv8>, b: seq<bv8>)
    requires |a| == 4 && |b| == 4
    requires Before(Before(Before(Before(0, a[3], b[3]), a[2], b[2]), a[1], b[1]), a[0], b[0]) == 0
    ensures a[0] == b[0] && a[1] == b[1] && a[2] == b[2] && a[3] == b[3]
  {
  }

  lemma Fold4<S, B>(g: (S, B) -> S, s: S, a: seq<B>)
    requires |a| == 4
    ensures Fold(g, s, a) == g(g(g(g(s, a[0]), a[1]), a[2]), a[3])
  {
    var s1 := g(s, a[0]);
    var s2 := g(s1, a[1]);
    var s3 := g(s2, a[2]);
    assert a[1..][0] == a[1] && a[1..][1..] == a[2..];
    assert a[2..][0] == a[2] && a[2..][1..] == a[3..];
    assert a[3..][0] == a[3] && a[3..][1..] == [];
    assert Fold(g, s3, a[3..]) == g(s3, a[3]);
    assert Fold(g, s2, a[2..]) == Fold(g, s3, a[3..]);
    assert Fold(g, s1, a[1..]) == Fold(g, s2, a[2..]);
  }

  /** Followed back over four bytes each, equal ends have the differences that
      `before` computes. */
  lemma FollowBack<S(!new), B(!new)>(g: (S, B) -> S, op: (S, S) -> S, before: (S, B, B) -> S, small: S -> bool,
                                     zero: S, s: S, a: seq<B>, b: seq<B>)
    requires forall x: S, y: S, u: B, v: B ::
               small(op(g(x, u), g(y, v))) ==> op(x, y) == before(op(g(x, u), g(y, v)), u, v)
    requires forall x: S :: op(x, x) == zero
    requires |a| == 4 && |b| == 4 && Fold(g, s, a) == Fold(g, s, b)
    requires var d3 := before(zero, a[3], b[3]); var d2 := before(d3, a[2], b[2]);
             small(zero) && small(d3) && small(d2) && small(before(d2, a[1], b[1]))
    ensures before(before(before(before(zero, a[3], b[3]), a[2], b[2]), a[1], b[1]), a[0], b[0]) == zero
  {
    Fold4(g, s, a);
    Fold4(g, s, b);
    assert op(s, s) == zero;
  }

  lemma AsBefore(x: bv32, y: bv32, u: bv8, v: bv8, delta: bv32)
    requires x ^ y == (delta << 8) ^ ((u as bv32) ^ (v as bv32))
    ensures Xor(x, y) == Before(delta, u, v)
  {
  }

  lemma DifferencesBefore()
    ensures forall x: bv32, y: bv32, u: bv8, v: bv8 ::
              Small(Xor(ByteStep(x, u), ByteStep(y, v))) ==>
                Xor(x, y) == Before(Xor(ByteStep(x, u), ByteStep(y, v)), u, v)
  {
    forall x: bv32, y: bv32, u: bv8, v: bv8 | Small(Xor(ByteStep(x, u), ByteStep(y, v)))
      ensures Xor(x, y) == Before(Xor(ByteStep(x, u), ByteStep(y, v)), u, v)
    {
      var delta := Xor(ByteStep(x, u), ByteStep(y, v));
      DifferenceBefore(x, y, u, v, delta);
      AsBefore(x, y, u, v, delta);
    }
  }

  lemma XorSelf()
    ensures forall x: bv32 :: Xor(x, x) == 0
  {
  }

  /** Four bytes that lead from one state to the same state are the same. */
  lemma FourBytesInjective(c: bv32, a: seq<bv8>, b: seq<bv8>)
    requires |a| == 4 && |b| == 4 && Update(c, a) == Update(c, b)
    ensures a == b
  {
    DifferencesBefore();
    XorSelf();
    StaysSmall(a, b);
    FollowBack(ByteStep, Xor, Before, Small, 0, c, a, b);
    NoDifference(a, b);
  }

  lemma MeetInMiddle<S(!new), B(!new)>(g: (S, B) -> S, s: S, p: seq<B>, a: seq<B>, b: seq<B>, t: seq<B>)
    requires forall x: S, y: S, b: B :: g(x, b) == g(y, b) ==> x == y
    requires Fold(g, s, p + a + t) == Fold(g, s, p + b + t)
    ensures Fold(g, Fold(g, s, p), a) == Fold(g, Fold(g, s, p), b)
  {
    FoldAppend(g, s, p + a, t);
    FoldAppend(g, s, p, a);
    FoldAppend(g, s, p + b, t);
    FoldAppend(g, s, p, b);
    FoldInjective(g, Fold(g, s, p + a), Fold(g, s, p + b), t);
  }

  lemma XorBack(c: bv32, d: bv32, w: bv32)
    requires c ^ w == d ^ w
    ensures c == d
  {
  }

  /**
   * Damage confined to four consecutive bytes never goes unnoticed, wherever in
   * the data it is.
   */
  lemma BurstIsDetected(p: seq<bv8>, a: seq<bv8>, b: seq<bv8>, t: seq<bv8>)
    requires |a| == 4 && |b| == 4 && a != b
    ensures Crc32(p + a + t) != Crc32(p + b + t)
  {
    if Crc32(p + a + t) == Crc32(p + b + t) {
      XorBack(Update(ONES, p + a + t), Update(ONES, p + b + t), ONES);
      forall x: bv32, y: bv32, u: bv8 | ByteStep(x, u) == ByteStep(y, u) ensures x == y {
        ByteStepInjective(x, y, u);
      }
      MeetInMiddle(ByteStep, ONES, p, a, b, t);
      FourBytesInjective(Update(ONES, p), a, b);
    }
  }
}
