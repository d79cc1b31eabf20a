/**
 * The icon baker's one-bit run-length code (encode_1bpp_rle in
 * tools/icon_bake.py): bytes of a colour bit and a run of 1 to 128, less one.
 */
module Rle {
  import opened Words

  const MAX_RUN: nat := 128

  type Bit = n: int | n == 0 || n == 1

  /** `pixels[i] & 1` for each of the first n pixels. */
  function LowBits(pixels: seq<int>, n: nat): (r: seq<Bit>)
    requires n <= |pixels|
    ensures |r| == n
  {
    seq(n, i requires 0 <= i < n => pixels[i] % 2)
  }

  function Repeat(c: Bit, n: nat): (r: seq<Bit>)
    ensures |r| == n && forall i :: 0 <= i < n ==> r[i] == c
  {
    seq(n, _ => c)
  }

  // ---------------------------------------------------------------------------
  // What the bytes mean
  // ---------------------------------------------------------------------------

  /** Bit 7. */
  function Color(b: u8): Bit { if b >= 0x80 then 1 else 0 }

  /** The low seven bits, and one. */
  function Run(b: u8): nat { 1 + if b >= 0x80 then b - 0x80 else b }

  function Decode(bs: Bytes): seq<Bit> {
    if bs == [] then [] else Repeat(Color(bs[0]), Run(bs[0])) + Decode(bs[1..])
  }

  /** The byte of a run. */
  function Code(c: Bit, run: nat): u8
    requires 1 <= run <= MAX_RUN
  {
    (if c == 1 then 0x80 else 0) + (run - 1)
  }

  // ---------------------------------------------------------------------------
  // Greedy encoding
  // ---------------------------------------------------------------------------

  /** How far the pixels go on in the first one's colour, up to 128. */
  function RunFrom(px: seq<Bit>, run: nat): (r: nat)
    requires 1 <= run <= |px| && run <= MAX_RUN && forall i :: 0 <= i < run ==> px[i] == px[0]
    ensures run <= r <= |px| && r <= MAX_RUN && (forall i :: 0 <= i < r ==> px[i] == px[0])
    ensures r == |px| || r == MAX_RUN || px[r] != px[0]
    decreases |px| - run
  {
    if run < |px| && px[run] == px[0] && run < MAX_RUN then RunFrom(px, run + 1) else run
  }

  function Greedy(px: seq<Bit>): Bytes
    decreases |px|
  {
    if px == [] then [] else var run := RunFrom(px, 1); [Code(px[0], run)] + Greedy(px[run..])
  }

  lemma GreedyStep(px: seq<Bit>, run: nat)
    requires px != [] && run == RunFrom(px, 1)
    ensures Greedy(px) == [Code(px[0], run)] + Greedy(px[run..])
  {
  }

  /** One more byte behind those already put out. */
  lemma OutputGrows(out: Bytes, px: seq<Bit>, i: nat, run: nat, b: u8)
    requires i < |px| && run == RunFrom(px[i..], 1) && b == Code(px[i], run)
    ensures i + run <= |px| && out + Greedy(px[i..]) == (out + [b]) + Greedy(px[i + run..])
  {
    var rest := px[i..];
    GreedyStep(rest, run);
    assert rest[run..] == px[i + run..] && rest[0] == px[i];
    Regroup(out, [b], Greedy(px[i + run..]));
  }

  lemma Start(px: seq<Bit>)
    ensures [] + Greedy(px[0..]) == Greedy(px)
  {
    assert px[0..] == px;
  }

  lemma Finish(out: Bytes, px: seq<Bit>)
    ensures out + Greedy(px[|px|..]) == out
  {
  }

  /** The inner loop: the run that starts at pixel i. */
  method RunAt(pixels: seq<int>, n: nat, i: nat) returns (c: Bit, run: nat)
    requires i < n <= |pixels|
    ensures c == LowBits(pixels, n)[i] && run == RunFrom(LowBits(pixels, n)[i..], 1)
  {
    ghost var px := LowBits(pixels, n);
    ghost var rest := px[i..];
    c, run := pixels[i] % 2, 1;
    while i + run < n && pixels[i + run] % 2 == c && run < MAX_RUN
      invariant 1 <= run <= |rest| && run <= MAX_RUN && forall k :: 0 <= k < run ==> rest[k] == rest[0]
      invariant RunFrom(rest, run) == RunFrom(rest, 1)
      decreases n - run
    {
      assert rest[run] == px[i + run];
      run := run + 1;
    }
    assert i + run < n ==> rest[run] == px[i + run];
  }

  /** With the first i pixels encoded, the rest makes the output complete. */
  predicate Encoded(out: Bytes, px: seq<Bit>, i: nat) {
    i <= |px| && out + Greedy(px[i..]) == Greedy(px)
  }

  lemma EncodedOn(out: Bytes, px: seq<Bit>, i: nat, run: nat, b: u8)
    requires i < |px| && Encoded(out, px, i) && run == RunFrom(px[i..], 1) && b == Code(px[i], run)
    ensures Encoded(out + [b], px, i + run)
  {
    OutputGrows(out, px, i, run, b);
  }

  /** One round of the outer loop. */
  method EncodeRun(pixels: seq<int>, n: nat, i: nat, out: Bytes) returns (i': nat, out': Bytes)
    requires i < n <= |pixels| && Encoded(out, LowBits(pixels, n), i)
    ensures i < i' && Encoded(out', LowBits(pixels, n), i')
  {
    var c, run := RunAt(pixels, n, i);
    var b := Code(c, run);
    EncodedOn(out, LowBits(pixels, n), i, run, b);
    i', out' := i + run, out + [b];
  }

  /** encode_1bpp_rle over the first n pixels. */
  method EncodeFirst(pixels: seq<int>, n: nat) returns (out: Bytes)
    requires n <= |pixels|
    ensures out == Greedy(LowBits(pixels, n))
  {
    out := [];
    var i: nat := 0;
    Start(LowBits(pixels, n));
    while i < n
      invariant Encoded(out, LowBits(pixels, n), i)
      decreases n - i
    {
      i, out := EncodeRun(pixels, n, i, out);
    }
    Finish(out, LowBits(pixels, n));
  }

  /** encode_1bpp_rle; None is the IndexError of a pixel list that is too short. */
  method Encode(pixels: seq<int>, w: nat, h: nat) returns (r: Option<Bytes>)
    ensures r == if w * h <= |pixels| then Some(Greedy(LowBits(pixels, w * h))) else None
  {
    if w * h > |pixels| { return None; }
    var out := EncodeFirst(pixels, w * h);
    r := Some(out);
  }

  lemma CodeReadsBack(c: Bit, run: nat)
    requires 1 <= run <= MAX_RUN
    ensures Color(Code(c, run)) == c && Run(Code(c, run)) == run
  {
  }

  lemma DecodesOn(px: seq<Bit>, run: nat, rest: Bytes)
    requires px != [] && run == RunFrom(px, 1) && Decode(rest) == px[run..]
    ensures Decode([Code(px[0], run)] + rest) == px
  {
    var b := Code(px[0], run);
    CodeReadsBack(px[0], run);
    assert ([b] + rest)[1..] == rest;
    assert Repeat(px[0], run) == px[..run];
  }

  /** The encoding decodes to the pixels. */
  lemma {:induction false} RoundTrip(px: seq<Bit>)
    ensures Decode(Greedy(px)) == px
    decreases |px|
  {
    if px != [] {
      var run := RunFrom(px, 1);
      RoundTrip(px[run..]);
      DecodesOn(px, run, Greedy(px[run..]));
      GreedyStep(px, run);
    }
  }

  // ---------------------------------------------------------------------------
  // Optimality
  // ---------------------------------------------------------------------------

  lemma DroppedRun(px: seq<Bit>, g: nat, g': nat)
    requires px != [] && g == RunFrom(px, 1) > 1 && g' == RunFrom(px[1..], 1)
    ensures g - 1 <= g' < |px|
  {
    var s := px[1..];
    assert forall i :: 0 <= i < |s| ==> s[i] == px[i + 1];
  }

  /** Dropping pixels from the front never makes the greedy code longer. */
  lemma {:induction false} SuffixIsNoLonger(px: seq<Bit>, k: nat)
    requires k <= |px|
    ensures |Greedy(px[k..])| <= |Greedy(px)|
    decreases |px|, k
  {
    if k == 0 {
      assert px[0..] == px;
    } else if k > 1 {
      SuffixIsNoLonger(px, 1);
      SuffixIsNoLonger(px[1..], k - 1);
      assert px[1..][k - 1..] == px[k..];
    } else {
      var g, s := RunFrom(px, 1), px[1..];
      if g > 1 {
        var g' := RunFrom(s, 1);
        DroppedRun(px, g, g');
        SuffixIsNoLonger(px[g..], g' + 1 - g);
        assert px[g..][g' + 1 - g..] == s[g'..];
      }
    }
  }

  /** A first byte of any other encoding covers no more than the greedy one. */
  lemma FirstRunIsShorter(px: seq<Bit>, bs: Bytes)
    requires px != [] && Decode(bs) == px
    ensures bs != [] && Run(bs[0]) <= RunFrom(px, 1) && Decode(bs[1..]) == px[Run(bs[0])..]
  {
    var n := Run(bs[0]);
    var first := Repeat(Color(bs[0]), n);
    assert px == first + Decode(bs[1..]);
    assert forall i :: 0 <= i < n ==> px[i] == first[i];
  }

  /** No other byte sequence that decodes to the pixels is shorter. */
  lemma {:induction false} GreedyIsOptimal(px: seq<Bit>, bs: Bytes)
    requires Decode(bs) == px
    ensures |Greedy(px)| <= |bs|
    decreases |px|
  {
    if px != [] {
      FirstRunIsShorter(px, bs);
      var n, g := Run(bs[0]), RunFrom(px, 1);
      var rest, others := px[n..], bs[1..];
      GreedyIsOptimal(rest, others);
      SuffixIsNoLonger(rest, g - n);
      assert rest[g - n..] == px[g..];
      GreedyStep(px, g);
    }
  }
}
