/** Machine words: the low 32, 16 or 8 bits of a mathematical integer. */
module Words {

  const TWO32: nat := 0x1_0000_0000

  type u32 = n: int | 0 <= n < 0x1_0000_0000
  type u16 = n: int | 0 <= n < 0x1_0000
  type u8 = n: int | 0 <= n < 0x100

  type Bytes = seq<u8>

  datatype Option<T> = None | Some(value: T)

  function Low32(x: int): u32 { x % 0x1_0000_0000 }

  function Low16(x: int): u16 { x % 0x1_0000 }

  /** Unsigned 32-bit subtraction, as `a - b` on two uint32_t. */
  function Sub32(a: u32, b: u32): u32 { Low32(a - b) }

  function Min(a: int, b: int): int { if a < b then a else b }

  /** The low words of two counts differ by the low word of their difference. */
  lemma SubLow(t: int, b: int)
    ensures Sub32(Low32(t), Low32(b)) == Low32(t - b)
  {
  }

  lemma AddLow(t: int, d: int)
    ensures Low32(Low32(t) + d) == Low32(t + d)
  {
  }

  lemma Low16OfLow32(x: int)
    ensures Low16(Low32(x)) == Low16(x)
  {
  }

  /** Going forward by the 16-bit difference lands on the 16-bit target. */
  lemma Forward16(t: u16, x: int)
    ensures Low16(x + Low16(t - Low16(x))) == t
  {
  }

  lemma MulGrows(b: nat, x: nat, y: nat)
    requires x <= y
    ensures b * x <= b * y
  {
  }

  lemma Distribute(a: int, b: int, c: int)
    ensures (a + b) * c == a * c + b * c
  {
  }

  /** A multiple of d strictly between -d and d is zero. */
  lemma MulSmall(k: int, d: int)
    requires -d < k * d < d
    ensures k == 0
  {
  }

  /** Quotient and remainder are the only pair of their kind. */
  lemma DivUnique(x: int, d: int, q: int, r: int)
    requires d > 0 && 0 <= r < d && x == q * d + r
    ensures x / d == q && x % d == r
  {
    var k := x / d - q;
    assert k * d == r - x % d;
    MulSmall(k, d);
  }

  lemma DivFloor(e: nat, p: nat)
    requires p > 0
    ensures e / p * p <= e < e / p * p + p
    ensures 0 <= e / p
  {
    assert e == p * (e / p) + e % p;
  }

  /** The quotient of x - start is c exactly when x is in period c. */
  lemma InPeriod(start: nat, c: nat, p: nat, x: nat)
    requires p > 0 && start <= x
    ensures c == (x - start) / p <==> start + c * p <= x < start + c * p + p
    ensures c == (x - start) / p ==> (x - start) % p == x - start - c * p
  {
    DivFloor(x - start, p);
    if start + c * p <= x < start + c * p + p {
      DivUnique(x - start, p, c, x - start - c * p);
    }
  }

  // ---------------------------------------------------------------------------
  // Byte sequences
  // ---------------------------------------------------------------------------

  type Checksum = Bytes -> u32

  function Zeros(n: nat): Bytes { seq(n, _ => 0) }

  /** The pieces one after the other. */
  function Concat(ps: seq<Bytes>): Bytes {
    if ps == [] then [] else ps[0] + Concat(ps[1..])
  }

  lemma {:induction false} ConcatAppend(a: seq<Bytes>, b: seq<Bytes>)
    ensures Concat(a + b) == Concat(a) + Concat(b)
  {
    if a == [] {
      assert a + b == b;
    } else {
      assert (a + b)[0] == a[0] && (a + b)[1..] == a[1..] + b;
      ConcatAppend(a[1..], b);
    }
  }

  lemma ConcatOne(ps: seq<Bytes>, p: Bytes)
    ensures Concat(ps + [p]) == Concat(ps) + p
  {
    ConcatAppend(ps, [p]);
    assert Concat([p]) == p + [];
  }

  lemma ConcatSplit(ps: seq<Bytes>, j: nat)
    requires j <= |ps|
    ensures Concat(ps) == Concat(ps[..j]) + Concat(ps[j..])
  {
    ConcatTwo(ps, ps[..j], ps[j..]);
  }

  lemma ConcatTwo(ps: seq<Bytes>, a: seq<Bytes>, b: seq<Bytes>)
    requires ps == a + b
    ensures Concat(ps) == Concat(a) + Concat(b)
  {
    ConcatAppend(a, b);
  }

  /** A slice of a prefix is a slice. */
  lemma SliceOfTake<T>(s: seq<T>, n: nat, i: nat, j: nat)
    requires i <= j <= n <= |s|
    ensures s[..n][i..j] == s[i..j]
  {
  }

  lemma Regroup<T>(a: seq<T>, b: seq<T>, c: seq<T>)
    ensures a + (b + c) == (a + b) + c
  {
  }

  // ---------------------------------------------------------------------------
  // Little-endian words in a byte sequence
  // ---------------------------------------------------------------------------

  /** The number the bytes make, lowest first. */
  function LeValue(b: Bytes): nat {
    if b == [] then 0 else b[0] + 0x100 * LeValue(b[1..])
  }

  lemma LeValue4(b: Bytes)
    requires |b| == 4
    ensures LeValue(b) == b[0] as int + 0x100 * b[1] as int + 0x1_0000 * b[2] as int + 0x100_0000 * b[3] as int
    ensures LeValue(b) < 0x1_0000_0000
  {
    assert b[1..][0] == b[1] && b[1..][1..] == b[2..];
    assert b[2..][0] == b[2] && b[2..][1..] == b[3..];
    assert b[3..][0] == b[3] && b[3..][1..] == [];
    assert LeValue(b[3..]) == b[3] as int;
    assert LeValue(b[2..]) == b[2] as int + 0x100 * b[3] as int;
    assert LeValue(b[1..]) == b[1] as int + 0x100 * b[2] as int + 0x1_0000 * b[3] as int;
  }

  /** The 32-bit word at byte `at`. */
  function LeWord(p: Bytes, at: nat): u32
    requires at + 4 <= |p|
  {
    LeValue4(p[at..at + 4]);
    LeValue(p[at..at + 4])
  }

  /** A word's bytes. */
  method ToBytes(w: u32) returns (b: Bytes)
    ensures |b| == 4 && LeValue(b) == w && b == LeBytes(w)
  {
    Base256(w);
    b := [w % 0x100, w / 0x100 % 0x100, w / 0x1_0000 % 0x100, w / 0x100_0000];
    LeValue4(b);
    LeValueInjective(b, LeBytes(w));
  }

  lemma LeBytesExist(w: u32)
    ensures exists b: Bytes :: |b| == 4 && LeValue(b) == w
  {
    Base256(w);
    var b := [w % 0x100, w / 0x100 % 0x100, w / 0x1_0000 % 0x100, w / 0x100_0000];
    LeValue4(b);
  }

  /** The four bytes that make the word; LeValueInjective says there are no others. */
  ghost function LeBytes(w: u32): (b: Bytes)
    ensures |b| == 4 && LeValue(b) == w
  {
    LeBytesExist(w);
    var b: Bytes :| |b| == 4 && LeValue(b) == w;
    b
  }

  lemma Base256(w: u32)
    ensures w / 0x100_0000 < 0x100
    ensures w == w % 0x100 + 0x100 * (w / 0x100 % 0x100) + 0x1_0000 * (w / 0x1_0000 % 0x100) + 0x100_0000 * (w / 0x100_0000)
  {
    var q := w / 0x100;
    assert w == w % 0x100 + 0x100 * q && q / 0x100 == w / 0x1_0000;
    var r := q / 0x100;
    assert q == q % 0x100 + 0x100 * r && r / 0x100 == w / 0x100_0000;
  }

  /** A word is the same wherever its four bytes are. */
  lemma LeWordMoves(p: Bytes, at: nat, b: Bytes)
    requires at + 4 <= |p| && |b| == 4 && p[at..at + 4] == b
    ensures LeWord(p, at) == LeValue(b)
  {
  }

  /** Only these four bytes make the word they make. */
  lemma {:induction false} LeValueInjective(a: Bytes, b: Bytes)
    requires |a| == |b| && LeValue(a) == LeValue(b)
    ensures a == b
  {
    if a != [] {
      assert a[0] == b[0] && LeValue(a[1..]) == LeValue(b[1..]) by { SameDigit(a[0], LeValue(a[1..]), b[0], LeValue(b[1..])); }
      LeValueInjective(a[1..], b[1..]);
      assert a == [a[0]] + a[1..] && b == [b[0]] + b[1..];
    }
  }

  lemma SameDigit(x: u8, m: nat, y: u8, n: nat)
    requires x + 0x100 * m == y + 0x100 * n
    ensures x == y && m == n
  {
  }
}
