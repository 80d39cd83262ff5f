/** The convolution engine: a square integer kernel applied to every interior
    pixel of a row-major, 3-channel byte buffer, with each channel's weighted
    sum saturated to [0, 255]. Pixels within kernelSize/2 of an edge are never
    written, so they keep whatever the output buffer held. */
module Convolution {
  import opened Bytes

  /** One call's inputs: the source buffer, its dimensions and the kernel. */
  datatype Params = Params(input: seq<byte>, width: int, height: int, kernel: seq<int>, kSize: int)

  predicate OddSize(kSize: int) {
    kSize >= 1 && kSize % 2 == 1
  }

  /** Whether some pixel has its whole kernel neighbourhood inside the image. */
  predicate HasInterior(p: Params) {
    p.width >= p.kSize && p.height >= p.kSize
  }

  /** What a call needs: an odd kernel size, an input of width*height*3 bytes and,
      when some pixel is convolved, kSize*kSize weights to read. */
  predicate WellShaped(p: Params) {
    && OddSize(p.kSize)
    && |p.input| == p.width * p.height * 3
    && (HasInterior(p) ==> |p.kernel| >= p.kSize * p.kSize)
  }

  predicate Interior(p: Params, x: int, y: int) {
    var h := p.kSize / 2;
    h <= x < p.width - h && h <= y < p.height - h
  }

  /** The buffer index of channel c of pixel (x, y). */
  function Idx(width: int, x: int, y: int, c: int): int {
    (y * width + x) * 3 + c
  }

  function RowOf(width: int, i: int): int
    requires width > 0
  {
    (i / 3) / width
  }

  function ColOf(width: int, i: int): int
    requires width > 0
  {
    (i / 3) % width
  }

  // ---------------------------------------------------------------------------
  // Index arithmetic

  lemma MulMono(a: int, b: int, k: int)
    requires a <= b && k >= 0
    ensures a * k <= b * k
  {
  }

  lemma Distrib(v: int, a: int, b: int)
    ensures v * (a + b) == v * a + v * b
  {
  }

  lemma DivModUnique(q: int, r: int, d: int)
    requires d > 0 && 0 <= r < d
    ensures (q * d + r) / d == q && (q * d + r) % d == r
  {
    var a := q * d + r;
    var k := a / d - q;
    assert k * d == r - a % d;
    if k >= 1 { MulMono(1, k, d); }
    if k <= -1 { MulMono(k, -1, d); }
  }

  /** A pixel inside the image addresses a byte inside the buffer. */
  lemma IdxInBounds(width: int, height: int, x: int, y: int, c: int)
    requires 0 <= x < width && 0 <= y < height && 0 <= c < 3
    ensures 0 <= Idx(width, x, y, c) < width * height * 3
  {
    MulMono(y, height - 1, width);
    MulMono(0, y, width);
  }

  /** The coordinates recovered from the index of a pixel's channel. */
  lemma CoordsOfIdx(width: int, x: int, y: int, c: int)
    requires width > 0 && 0 <= x < width && 0 <= y && 0 <= c < 3
    ensures var i := Idx(width, x, y, c);
      i / 3 == y * width + x && i % 3 == c && RowOf(width, i) == y && ColOf(width, i) == x
  {
    MulMono(0, y, width);
    DivModUnique(y * width + x, c, 3);
    DivModUnique(y, x, width);
  }

  /** Every index is the index of its own coordinates. */
  lemma IdxOfCoords(width: int, i: int)
    requires width > 0 && i >= 0
    ensures 0 <= ColOf(width, i) < width && 0 <= RowOf(width, i)
    ensures i == Idx(width, ColOf(width, i), RowOf(width, i), i % 3)
  {
  }

  lemma KernelIdxInBounds(k: int, r: int, q: int)
    requires 0 <= r < k && 0 <= q < k
    ensures 0 <= r * k + q < k * k
  {
    MulMono(r, k - 1, k);
    MulMono(0, r, k);
  }

  lemma InteriorHasInterior(p: Params, x: int, y: int)
    requires OddSize(p.kSize) && Interior(p, x, y)
    ensures HasInterior(p)
  {
  }

  // ---------------------------------------------------------------------------
  // The per-pixel rule

  /** Saturation of a weighted sum to a byte: min(max(s, 0), 255). */
  function Clamp(s: int): (r: byte)
    ensures s <= 0 ==> r == 0
    ensures s >= 255 ==> r == 255
    ensures 0 <= s <= 255 ==> r == s
  {
    var atLeastZero := if s > 0 then s else 0;
    if atLeastZero < 255 then atLeastZero else 255
  }

  /** One term of the weighted sum of channel c at (x, y): the neighbour at
      offset (kx, ky) times its kernel weight. */
  function Tap(p: Params, x: int, y: int, c: int, ky: int, kx: int): int
    requires WellShaped(p) && Interior(p, x, y) && 0 <= c < 3
    requires -(p.kSize / 2) <= ky <= p.kSize / 2 && -(p.kSize / 2) <= kx <= p.kSize / 2
  {
    var h := p.kSize / 2;
    IdxInBounds(p.width, p.height, x + kx, y + ky, c);
    KernelIdxInBounds(p.kSize, ky + h, kx + h);
    InteriorHasInterior(p, x, y);
    p.input[((y + ky) * p.width + (x + kx)) * 3 + c] * p.kernel[(ky + h) * p.kSize + (kx + h)]
  }

  /** The taps of kernel row ky with column offsets in [-h, kxEnd). */
  function RowTaps(p: Params, x: int, y: int, c: int, ky: int, kxEnd: int): int
    requires WellShaped(p) && Interior(p, x, y) && 0 <= c < 3
    requires -(p.kSize / 2) <= ky <= p.kSize / 2
    requires -(p.kSize / 2) <= kxEnd <= p.kSize / 2 + 1
    decreases kxEnd + p.kSize / 2
  {
    if kxEnd == -(p.kSize / 2) then 0
    else RowTaps(p, x, y, c, ky, kxEnd - 1) + Tap(p, x, y, c, ky, kxEnd - 1)
  }

  /** The taps of the kernel rows with offsets in [-h, kyEnd). */
  function WindowSum(p: Params, x: int, y: int, c: int, kyEnd: int): int
    requires WellShaped(p) && Interior(p, x, y) && 0 <= c < 3
    requires -(p.kSize / 2) <= kyEnd <= p.kSize / 2 + 1
    decreases kyEnd + p.kSize / 2
  {
    if kyEnd == -(p.kSize / 2) then 0
    else WindowSum(p, x, y, c, kyEnd - 1) + RowTaps(p, x, y, c, kyEnd - 1, p.kSize / 2 + 1)
  }

  /** The full weighted sum of channel c over the neighbourhood of (x, y). */
  function ChannelSum(p: Params, x: int, y: int, c: int): int
    requires WellShaped(p) && Interior(p, x, y) && 0 <= c < 3
  {
    WindowSum(p, x, y, c, p.kSize / 2 + 1)
  }

  function ExpectedChannel(p: Params, x: int, y: int, c: int): byte
    requires WellShaped(p) && Interior(p, x, y) && 0 <= c < 3
  {
    Clamp(ChannelSum(p, x, y, c))
  }

  // ---------------------------------------------------------------------------
  // The whole buffer

  /** Whether buffer index i belongs to an interior pixel. */
  predicate InteriorIndex(p: Params, i: int) {
    p.width > 0 && i >= 0 && Interior(p, ColOf(p.width, i), RowOf(p.width, i))
  }

  function ExpectedAt(p: Params, i: int): byte
    requires WellShaped(p) && InteriorIndex(p, i)
  {
    IdxOfCoords(p.width, i);
    ExpectedChannel(p, ColOf(p.width, i), RowOf(p.width, i), i % 3)
  }

  /** The buffer out after the interior pixels on the rows in `rows` have been
      written; every other byte is as in out. */
  function RowsUpdated(out: seq<byte>, p: Params, rows: set<int>): (r: seq<byte>)
    requires WellShaped(p)
    ensures |r| == |out|
  {
    seq(|out|, i requires 0 <= i < |out| =>
      if InteriorIndex(p, i) && RowOf(p.width, i) in rows then ExpectedAt(p, i) else out[i])
  }

  /** The row numbers lo <= y < hi. */
  function RowRange(lo: int, hi: int): (r: set<int>)
    ensures forall y :: y in r <==> lo <= y < hi
    decreases hi - lo
  {
    if lo >= hi then {} else RowRange(lo, hi - 1) + {hi - 1}
  }

  /** The interior row numbers: kHalf <= y < height - kHalf. */
  function InteriorRows(p: Params): set<int> {
    RowRange(p.kSize / 2, p.height - p.kSize / 2)
  }

  /** The buffer after a complete convolution into out. */
  function Convolved(out: seq<byte>, p: Params): (r: seq<byte>)
    requires WellShaped(p)
    ensures |r| == |out|
  {
    RowsUpdated(out, p, InteriorRows(p))
  }

  // ---------------------------------------------------------------------------
  // The engine

  /** The three channel sums of pixel (x, y), accumulated over the kernel rows
      and columns in order. */
  method PixelSums(input: seq<byte>, width: int, height: int, kernel: seq<int>, kSize: int, x: int, y: int)
    returns (sumR: int, sumG: int, sumB: int)
    requires WellShaped(Params(input, width, height, kernel, kSize))
    requires Interior(Params(input, width, height, kernel, kSize), x, y)
    ensures sumR == ChannelSum(Params(input, width, height, kernel, kSize), x, y, 0)
    ensures sumG == ChannelSum(Params(input, width, height, kernel, kSize), x, y, 1)
    ensures sumB == ChannelSum(Params(input, width, height, kernel, kSize), x, y, 2)
  {
    ghost var p := Params(input, width, height, kernel, kSize);
    var kHalf := kSize / 2;
    InteriorHasInterior(p, x, y);
    sumR, sumG, sumB := 0, 0, 0;
    var ky := -kHalf;
    while ky <= kHalf
      invariant -kHalf <= ky <= kHalf + 1
      invariant sumR == WindowSum(p, x, y, 0, ky)
      invariant sumG == WindowSum(p, x, y, 1, ky)
      invariant sumB == WindowSum(p, x, y, 2, ky)
    {
      var kx := -kHalf;
      while kx <= kHalf
        invariant -kHalf <= kx <= kHalf + 1
        invariant sumR == WindowSum(p, x, y, 0, ky) + RowTaps(p, x, y, 0, ky, kx)
        invariant sumG == WindowSum(p, x, y, 1, ky) + RowTaps(p, x, y, 1, ky, kx)
        invariant sumB == WindowSum(p, x, y, 2, ky) + RowTaps(p, x, y, 2, ky, kx)
      {
        IdxInBounds(width, height, x + kx, y + ky, 2);
        KernelIdxInBounds(kSize, ky + kHalf, kx + kHalf);
        var pixelIndex := ((y + ky) * width + (x + kx)) * 3;
        var kernelValue := kernel[(ky + kHalf) * kSize + (kx + kHalf)];
        sumR := sumR + input[pixelIndex] * kernelValue;
        sumG := sumG + input[pixelIndex + 1] * kernelValue;
        sumB := sumB + input[pixelIndex + 2] * kernelValue;
        kx := kx + 1;
      }
      ky := ky + 1;
    }
  }

  /** One iteration of the parallel row loop: it writes the interior pixels of
      row y and no byte outside that row. */
  method ConvolveRow(input: seq<byte>, output: array<byte>, width: int, height: int, kernel: seq<int>, kSize: int, y: int)
    requires WellShaped(Params(input, width, height, kernel, kSize))
    requires output.Length == |input|
    requires kSize / 2 <= y < height - kSize / 2
    modifies output
    ensures output[..] == RowsUpdated(old(output[..]), Params(input, width, height, kernel, kSize), {y})
  {
    ghost var p := Params(input, width, height, kernel, kSize);
    var kHalf := kSize / 2;
    var x := kHalf;
    while x < width - kHalf
      invariant kHalf <= x
      invariant x > kHalf ==> x <= width - kHalf
      invariant forall i :: 0 <= i < output.Length ==>
        output[i] == if InteriorIndex(p, i) && RowOf(width, i) == y && ColOf(width, i) < x
                     then ExpectedAt(p, i) else old(output[i])
    {
      var sumR, sumG, sumB := PixelSums(input, width, height, kernel, kSize, x, y);
      IdxInBounds(width, height, x, y, 2);
      var outputIndex := (y * width + x) * 3;
      output[outputIndex] := Clamp(sumR);
      output[outputIndex + 1] := Clamp(sumG);
      output[outputIndex + 2] := Clamp(sumB);
      forall i | 0 <= i < output.Length
        ensures output[i] == if InteriorIndex(p, i) && RowOf(width, i) == y && ColOf(width, i) < x + 1
                             then ExpectedAt(p, i) else old(output[i])
      {
        PixelStep(p, x, y, i);
      }
      x := x + 1;
    }
    assert output[..] == RowsUpdated(old(output[..]), p, {y});
  }

  /** The bytes of pixel (x, y) are exactly the indices whose coordinates are (x, y). */
  lemma PixelStep(p: Params, x: int, y: int, i: int)
    requires WellShaped(p) && Interior(p, x, y) && i >= 0
    ensures (RowOf(p.width, i) == y && ColOf(p.width, i) == x) <==>
            Idx(p.width, x, y, 0) <= i < Idx(p.width, x, y, 0) + 3
    ensures Idx(p.width, x, y, 0) <= i < Idx(p.width, x, y, 0) + 3 ==>
            InteriorIndex(p, i) && ExpectedAt(p, i) == ExpectedChannel(p, x, y, i - Idx(p.width, x, y, 0))
  {
    IdxOfCoords(p.width, i);
    var c := i - Idx(p.width, x, y, 0);
    if 0 <= c < 3 {
      CoordsOfIdx(p.width, x, y, c);
    }
  }

  /** applyConvolution: every interior pixel of output receives the clamped
      weighted sum of its neighbourhood in input; every other byte keeps its value. */
  method ApplyConvolution(input: seq<byte>, output: array<byte>, width: int, height: int, kernel: seq<int>, kSize: int)
    requires WellShaped(Params(input, width, height, kernel, kSize))
    requires output.Length == |input|
    modifies output
    ensures output[..] == Convolved(old(output[..]), Params(input, width, height, kernel, kSize))
  {
    ghost var p := Params(input, width, height, kernel, kSize);
    var kHalf := kSize / 2;
    var y := kHalf;
    while y < height - kHalf
      invariant kHalf <= y
      invariant y > kHalf ==> y <= height - kHalf
      invariant output[..] == RowsUpdated(old(output[..]), p, RowRange(kHalf, y))
    {
      ghost var before := output[..];
      ConvolveRow(input, output, width, height, kernel, kSize, y);
      RowsUpdatedAddRow(old(output[..]), p, RowRange(kHalf, y), y);
      assert (RowRange(kHalf, y)) + {y} == RowRange(kHalf, y + 1);
      y := y + 1;
    }
    RowsUpdatedSameInterior(old(output[..]), p, RowRange(kHalf, y), InteriorRows(p));
  }

  /** Updating one more row after a set of rows is updating the enlarged set. */
  lemma RowsUpdatedAddRow(out: seq<byte>, p: Params, rows: set<int>, y: int)
    requires WellShaped(p)
    ensures RowsUpdated(RowsUpdated(out, p, rows), p, {y}) == RowsUpdated(out, p, rows + {y})
  {
  }

  /** Two row sets that select the same interior rows give the same buffer. */
  lemma RowsUpdatedSameInterior(out: seq<byte>, p: Params, rows1: set<int>, rows2: set<int>)
    requires WellShaped(p)
    requires forall r :: p.kSize / 2 <= r < p.height - p.kSize / 2 ==> (r in rows1 <==> r in rows2)
    ensures RowsUpdated(out, p, rows1) == RowsUpdated(out, p, rows2)
  {
  }
}

module ConvolutionLaws {
  import opened Bytes
  import opened Convolution

  /** Every interior pixel's channel holds the clamped weighted sum. */
  lemma ConvolvedInterior(out: seq<byte>, p: Params, x: int, y: int, c: int)
    requires WellShaped(p) && |out| == |p.input|
    requires Interior(p, x, y) && 0 <= c < 3
    ensures 0 <= Idx(p.width, x, y, c) < |out|
    ensures Convolved(out, p)[Idx(p.width, x, y, c)] == ExpectedChannel(p, x, y, c)
  {
    IdxInBounds(p.width, p.height, x, y, c);
    PixelStep(p, x, y, Idx(p.width, x, y, c));
    CoordsOfIdx(p.width, x, y, c);
  }

  /** Every byte of a pixel within kernelSize/2 of an edge keeps its value. */
  lemma ConvolvedBorder(out: seq<byte>, p: Params, x: int, y: int, c: int)
    requires WellShaped(p) && |out| == |p.input|
    requires 0 <= x < p.width && 0 <= y < p.height && 0 <= c < 3
    requires !Interior(p, x, y)
    ensures 0 <= Idx(p.width, x, y, c) < |out|
    ensures Convolved(out, p)[Idx(p.width, x, y, c)] == out[Idx(p.width, x, y, c)]
  {
    IdxInBounds(p.width, p.height, x, y, c);
    CoordsOfIdx(p.width, x, y, c);
  }

  /** An image narrower or shorter than the kernel is left untouched. */
  lemma SmallImageUntouched(out: seq<byte>, p: Params)
    requires WellShaped(p) && |out| == |p.input|
    requires p.width < p.kSize || p.height < p.kSize
    ensures Convolved(out, p) == out
  {
    forall i | 0 <= i < |out|
      ensures Convolved(out, p)[i] == out[i]
    {
      assert !InteriorIndex(p, i);
    }
  }

  /** Convolving again into the same buffer changes nothing: interior bytes are
      overwritten with the same values and border bytes are never written. */
  lemma ConvolveIdempotent(out: seq<byte>, p: Params)
    requires WellShaped(p)
    ensures Convolved(Convolved(out, p), p) == Convolved(out, p)
  {
  }

  /** The interior of the result does not depend on the buffer's previous contents. */
  lemma InteriorIndependentOfOutput(out1: seq<byte>, out2: seq<byte>, p: Params, i: int)
    requires WellShaped(p) && |out1| == |out2| && 0 <= i < |out1|
    requires InteriorIndex(p, i)
    ensures Convolved(out1, p)[i] == Convolved(out2, p)[i]
  {
  }

  // ---------------------------------------------------------------------------
  // Row-parallel execution

  /** The first buffer index of row y and the first index past it. */
  function RowStart(width: int, y: int): int {
    y * width * 3
  }

  /** The iteration for row y writes only bytes of row y: the index range
      [y*width*3, (y+1)*width*3), so iterations for different rows never write
      the same byte. */
  lemma RowWriteFootprint(out: seq<byte>, p: Params, y: int, i: int)
    requires WellShaped(p) && 0 <= i < |out|
    requires RowsUpdated(out, p, {y})[i] != out[i]
    ensures p.width > 0
    ensures RowStart(p.width, y) <= i < RowStart(p.width, y + 1)
  {
    IdxOfCoords(p.width, i);
    assert RowOf(p.width, i) == y;
    RowBounds(p.width, y, ColOf(p.width, i), i % 3);
  }

  /** The bytes of pixel x on row y lie in that row's index range. */
  lemma RowBounds(w: int, y: int, x: int, c: int)
    requires 0 <= x < w && 0 <= c < 3
    ensures RowStart(w, y) <= (y * w + x) * 3 + c < RowStart(w, y + 1)
  {
    assert (y * w + x) * 3 == y * w * 3 + x * 3;
    assert (y + 1) * w * 3 == y * w * 3 + w * 3;
    MulMono(x + 1, w, 3);
  }

  lemma RowWritesDisjoint(out: seq<byte>, p: Params, y1: int, y2: int, i: int)
    requires WellShaped(p) && 0 <= i < |out| && y1 != y2
    ensures RowsUpdated(out, p, {y1})[i] == out[i] || RowsUpdated(out, p, {y2})[i] == out[i]
  {
    if RowsUpdated(out, p, {y1})[i] != out[i] && RowsUpdated(out, p, {y2})[i] != out[i] {
      RowWriteFootprint(out, p, y1, i);
      RowWriteFootprint(out, p, y2, i);
      if y1 < y2 {
        MulMono(y1 + 1, y2, p.width * 3);
      } else {
        MulMono(y2 + 1, y1, p.width * 3);
      }
      assert false;
    }
  }

  /** The buffer after running the row iterations in the order ys. */
  function RunRows(out: seq<byte>, p: Params, ys: seq<int>): (r: seq<byte>)
    requires WellShaped(p)
    ensures |r| == |out|
    decreases |ys|
  {
    if ys == [] then out else RunRows(RowsUpdated(out, p, {ys[0]}), p, ys[1..])
  }

  lemma RowsUpdatedCompose(out: seq<byte>, p: Params, a: set<int>, b: set<int>)
    requires WellShaped(p)
    ensures RowsUpdated(RowsUpdated(out, p, a), p, b) == RowsUpdated(out, p, a + b)
  {
  }

  /** Running the row iterations in any order, even repeating some, updates
      exactly the rows named. */
  lemma {:induction false} RunRowsAnyOrder(out: seq<byte>, p: Params, ys: seq<int>)
    requires WellShaped(p)
    ensures RunRows(out, p, ys) == RowsUpdated(out, p, set y | y in ys)
    decreases |ys|
  {
    if ys == [] {
      assert RowsUpdated(out, p, {}) == out;
    } else {
      var rest := set y | y in ys[1..];
      RunRowsAnyOrder(RowsUpdated(out, p, {ys[0]}), p, ys[1..]);
      RowsUpdatedCompose(out, p, {ys[0]}, rest);
      assert {ys[0]} + rest == set y | y in ys;
    }
  }

  /** Determinism under the parallel row loop: any schedule that runs each
      interior row (in any order) produces the sequential result. */
  lemma AnyScheduleConvolves(out: seq<byte>, p: Params, ys: seq<int>)
    requires WellShaped(p)
    requires forall y :: y in ys <==> p.kSize / 2 <= y < p.height - p.kSize / 2
    ensures RunRows(out, p, ys) == Convolved(out, p)
  {
    RunRowsAnyOrder(out, p, ys);
    RowsUpdatedSameInterior(out, p, (set y | y in ys), InteriorRows(p));
  }

  // ---------------------------------------------------------------------------
  // Particular kernels

  /** The sum of a sequence of weights. */
  function Sum(s: seq<int>): int {
    if s == [] then 0 else Sum(s[..|s| - 1]) + s[|s| - 1]
  }

  lemma {:induction false} SumConcat(s: seq<int>, t: seq<int>)
    ensures Sum(s + t) == Sum(s) + Sum(t)
  {
    if t != [] {
      SumConcat(s, t[..|t| - 1]);
      assert (s + t)[..|s + t| - 1] == s + t[..|t| - 1];
      assert (s + t)[|s + t| - 1] == t[|t| - 1];
      assert Sum(s + t) == Sum(s + t[..|t| - 1]) + t[|t| - 1];
    } else {
      assert s + t == s;
    }
  }

  lemma SumPrefix(s: seq<int>, k: int)
    requires 0 < k <= |s|
    ensures Sum(s[..k]) == Sum(s[..k - 1]) + s[k - 1]
  {
    assert s[..k][..k - 1] == s[..k - 1];
  }

  /** A uniform image: every byte has value v. */
  predicate Uniform(input: seq<byte>, v: byte) {
    forall j :: 0 <= j < |input| ==> input[j] == v
  }

  /** On a uniform image every tap is v times its kernel weight. */
  lemma UniformTap(p: Params, x: int, y: int, c: int, v: byte, ky: int, kx: int)
    requires WellShaped(p) && Interior(p, x, y) && 0 <= c < 3 && Uniform(p.input, v)
    requires -(p.kSize / 2) <= ky <= p.kSize / 2 && -(p.kSize / 2) <= kx <= p.kSize / 2
    ensures 0 <= (ky + p.kSize / 2) * p.kSize + (kx + p.kSize / 2) < |p.kernel|
    ensures Tap(p, x, y, c, ky, kx) == v * p.kernel[(ky + p.kSize / 2) * p.kSize + (kx + p.kSize / 2)]
  {
    IdxInBounds(p.width, p.height, x + kx, y + ky, c);
    KernelIdxInBounds(p.kSize, ky + p.kSize / 2, kx + p.kSize / 2);
    InteriorHasInterior(p, x, y);
  }

  /** The first kernel row's base index and the row's extent are in bounds. */
  lemma KernelRowInBounds(k: int, r: int)
    requires 0 <= r < k
    ensures 0 <= r * k && r * k + k <= k * k
  {
    MulMono(0, r, k);
    MulMono(r, k - 1, k);
  }

  /** The next kernel row starts kSize weights further on. */
  lemma NextRowBase(r: int, k: int)
    ensures (r + 1) * k == r * k + k
  {
  }

  lemma {:induction false} UniformRowTaps(p: Params, x: int, y: int, c: int, v: byte, ky: int, kxEnd: int, base: int)
    requires WellShaped(p) && Interior(p, x, y) && 0 <= c < 3 && Uniform(p.input, v)
    requires -(p.kSize / 2) <= ky <= p.kSize / 2
    requires -(p.kSize / 2) <= kxEnd <= p.kSize / 2 + 1
    requires base == (ky + p.kSize / 2) * p.kSize && 0 <= base && base + p.kSize <= |p.kernel|
    ensures RowTaps(p, x, y, c, ky, kxEnd) == v * Sum(p.kernel[base..base + kxEnd + p.kSize / 2])
    decreases kxEnd + p.kSize / 2
  {
    var h := p.kSize / 2;
    if kxEnd > -h {
      UniformRowTaps(p, x, y, c, v, ky, kxEnd - 1, base);
      UniformTap(p, x, y, c, v, ky, kxEnd - 1);
      var s := p.kernel[base..base + kxEnd + h];
      var last := s[|s| - 1];
      assert s[..|s| - 1] == p.kernel[base..base + kxEnd - 1 + h];
      assert last == p.kernel[base + (kxEnd - 1 + h)];
      Distrib(v, Sum(s[..|s| - 1]), last);
    }
  }

  lemma {:induction false} UniformWindowSum(p: Params, x: int, y: int, c: int, v: byte, kyEnd: int, top: int)
    requires WellShaped(p) && Interior(p, x, y) && 0 <= c < 3 && Uniform(p.input, v)
    requires -(p.kSize / 2) <= kyEnd <= p.kSize / 2 + 1
    requires top == (kyEnd + p.kSize / 2) * p.kSize && 0 <= top <= |p.kernel|
    ensures WindowSum(p, x, y, c, kyEnd) == v * Sum(p.kernel[..top])
    decreases kyEnd + p.kSize / 2
  {
    var h := p.kSize / 2;
    if kyEnd > -h {
      var lo := (kyEnd - 1 + h) * p.kSize;
      NextRowBase(kyEnd - 1 + h, p.kSize);
      KernelRowInBounds(p.kSize, kyEnd - 1 + h);
      UniformWindowSum(p, x, y, c, v, kyEnd - 1, lo);
      UniformRowTaps(p, x, y, c, v, kyEnd - 1, h + 1, lo);
      var a, b := Sum(p.kernel[..lo]), Sum(p.kernel[lo..top]);
      assert lo + (h + 1) + h == top;
      assert WindowSum(p, x, y, c, kyEnd) == v * a + v * b;
      assert p.kernel[..top] == p.kernel[..lo] + p.kernel[lo..top];
      SumConcat(p.kernel[..lo], p.kernel[lo..top]);
      Distrib(v, a, b);
    }
  }

  /** On a uniform image of value v, every interior channel is v times the sum of
      the kernel's weights, saturated. */
  lemma UniformImage(out: seq<byte>, p: Params, v: byte, x: int, y: int, c: int)
    requires WellShaped(p) && |out| == |p.input| && Uniform(p.input, v)
    requires Interior(p, x, y) && 0 <= c < 3
    ensures 0 <= Idx(p.width, x, y, c) < |out| && p.kSize * p.kSize <= |p.kernel|
    ensures Convolved(out, p)[Idx(p.width, x, y, c)] == Clamp(v * Sum(p.kernel[..p.kSize * p.kSize]))
  {
    ConvolvedInterior(out, p, x, y, c);
    InteriorHasInterior(p, x, y);
    assert p.kSize / 2 + 1 + p.kSize / 2 == p.kSize;
    UniformWindowSum(p, x, y, c, v, p.kSize / 2 + 1, p.kSize * p.kSize);
  }

  /** The default sharpening kernel {0,-1,0, -1,5,-1, 0,-1,0}. */
  const Sharpen: seq<int> := [0, -1, 0, -1, 5, -1, 0, -1, 0]
  /** The default edge-detection kernel {-1,-1,-1, -1,8,-1, -1,-1,-1}. */
  const EdgeDetect: seq<int> := [-1, -1, -1, -1, 8, -1, -1, -1, -1]

  /** The sharpening kernel's weights sum to 1, so a uniform image keeps its
      value at every interior pixel (a 5x5 gray image stays 128 inside). */
  lemma SharpenKeepsUniform(out: seq<byte>, input: seq<byte>, width: int, height: int, v: byte, x: int, y: int, c: int)
    requires |input| == width * height * 3 && |out| == |input| && Uniform(input, v)
    requires Interior(Params(input, width, height, Sharpen, 3), x, y) && 0 <= c < 3
    ensures WellShaped(Params(input, width, height, Sharpen, 3))
    ensures 0 <= Idx(width, x, y, c) < |out|
    ensures Convolved(out, Params(input, width, height, Sharpen, 3))[Idx(width, x, y, c)] == v
  {
    var p := Params(input, width, height, Sharpen, 3);
    assert Sharpen[..9] == Sharpen;
    SumPrefix(Sharpen, 9);
    assert Sum(Sharpen) == 1 by {
      SumPrefix(Sharpen, 1);
      assert Sum(Sharpen[..1]) == 0;
      SumPrefix(Sharpen, 2);
      assert Sum(Sharpen[..2]) == -1;
      SumPrefix(Sharpen, 3);
      assert Sum(Sharpen[..3]) == -1;
      SumPrefix(Sharpen, 4);
      assert Sum(Sharpen[..4]) == -2;
      SumPrefix(Sharpen, 5);
      assert Sum(Sharpen[..5]) == 3;
      SumPrefix(Sharpen, 6);
      assert Sum(Sharpen[..6]) == 2;
      SumPrefix(Sharpen, 7);
      assert Sum(Sharpen[..7]) == 2;
      SumPrefix(Sharpen, 8);
      assert Sum(Sharpen[..8]) == 1;
    }
    UniformImage(out, p, v, x, y, c);
  }

  /** The edge-detection kernel's weights sum to 0, so a uniform image becomes 0
      at every interior pixel. */
  lemma EdgeDetectZeroesUniform(out: seq<byte>, input: seq<byte>, width: int, height: int, v: byte, x: int, y: int, c: int)
    requires |input| == width * height * 3 && |out| == |input| && Uniform(input, v)
    requires Interior(Params(input, width, height, EdgeDetect, 3), x, y) && 0 <= c < 3
    ensures WellShaped(Params(input, width, height, EdgeDetect, 3))
    ensures 0 <= Idx(width, x, y, c) < |out|
    ensures Convolved(out, Params(input, width, height, EdgeDetect, 3))[Idx(width, x, y, c)] == 0
  {
    var p := Params(input, width, height, EdgeDetect, 3);
    assert EdgeDetect[..9] == EdgeDetect;
    SumPrefix(EdgeDetect, 9);
    assert Sum(EdgeDetect) == 0 by {
      SumPrefix(EdgeDetect, 1);
      assert Sum(EdgeDetect[..1]) == -1;
      SumPrefix(EdgeDetect, 2);
      assert Sum(EdgeDetect[..2]) == -2;
      SumPrefix(EdgeDetect, 3);
      assert Sum(EdgeDetect[..3]) == -3;
      SumPrefix(EdgeDetect, 4);
      assert Sum(EdgeDetect[..4]) == -4;
      SumPrefix(EdgeDetect, 5);
      assert Sum(EdgeDetect[..5]) == 4;
      SumPrefix(EdgeDetect, 6);
      assert Sum(EdgeDetect[..6]) == 3;
      SumPrefix(EdgeDetect, 7);
      assert Sum(EdgeDetect[..7]) == 2;
      SumPrefix(EdgeDetect, 8);
      assert Sum(EdgeDetect[..8]) == 1;
    }
    UniformImage(out, p, v, x, y, c);
  }
}

module IdentityKernel {
  import opened Bytes
  import opened Convolution
  import opened ConvolutionLaws

  /** A kernel whose only non-zero weight is a 1 at its centre ({1} for size 1). */
  predicate IsIdentityKernel(kernel: seq<int>, k: int) {
    && |kernel| >= k * k
    && forall j :: 0 <= j < k * k ==> kernel[j] == (if j == (k / 2) * k + k / 2 then 1 else 0)
  }

  lemma IdentityTap(p: Params, x: int, y: int, c: int, ky: int, kx: int)
    requires WellShaped(p) && Interior(p, x, y) && 0 <= c < 3 && IsIdentityKernel(p.kernel, p.kSize)
    requires -(p.kSize / 2) <= ky <= p.kSize / 2 && -(p.kSize / 2) <= kx <= p.kSize / 2
    ensures 0 <= Idx(p.width, x, y, c) < |p.input|
    ensures Tap(p, x, y, c, ky, kx) == if ky == 0 && kx == 0 then p.input[Idx(p.width, x, y, c)] else 0
  {
    var h := p.kSize / 2;
    IdxInBounds(p.width, p.height, x, y, c);
    KernelIdxInBounds(p.kSize, ky + h, kx + h);
    DivModUnique(ky + h, kx + h, p.kSize);
    DivModUnique(h, h, p.kSize);
  }

  lemma {:induction false} IdentityRowTaps(p: Params, x: int, y: int, c: int, ky: int, kxEnd: int)
    requires WellShaped(p) && Interior(p, x, y) && 0 <= c < 3 && IsIdentityKernel(p.kernel, p.kSize)
    requires -(p.kSize / 2) <= ky <= p.kSize / 2
    requires -(p.kSize / 2) <= kxEnd <= p.kSize / 2 + 1
    ensures 0 <= Idx(p.width, x, y, c) < |p.input|
    ensures RowTaps(p, x, y, c, ky, kxEnd) == if ky == 0 && kxEnd > 0 then p.input[Idx(p.width, x, y, c)] else 0
    decreases kxEnd + p.kSize / 2
  {
    IdxInBounds(p.width, p.height, x, y, c);
    if kxEnd > -(p.kSize / 2) {
      IdentityRowTaps(p, x, y, c, ky, kxEnd - 1);
      IdentityTap(p, x, y, c, ky, kxEnd - 1);
    }
  }

  lemma {:induction false} IdentityWindowSum(p: Params, x: int, y: int, c: int, kyEnd: int)
    requires WellShaped(p) && Interior(p, x, y) && 0 <= c < 3 && IsIdentityKernel(p.kernel, p.kSize)
    requires -(p.kSize / 2) <= kyEnd <= p.kSize / 2 + 1
    ensures 0 <= Idx(p.width, x, y, c) < |p.input|
    ensures WindowSum(p, x, y, c, kyEnd) == if kyEnd > 0 then p.input[Idx(p.width, x, y, c)] else 0
    decreases kyEnd + p.kSize / 2
  {
    IdxInBounds(p.width, p.height, x, y, c);
    if kyEnd > -(p.kSize / 2) {
      IdentityWindowSum(p, x, y, c, kyEnd - 1);
      IdentityRowTaps(p, x, y, c, kyEnd - 1, p.kSize / 2 + 1);
    }
  }

  /** Convolving with the identity kernel copies every interior byte of the input. */
  lemma IdentityKernelCopiesInterior(out: seq<byte>, p: Params, x: int, y: int, c: int)
    requires WellShaped(p) && |out| == |p.input| && IsIdentityKernel(p.kernel, p.kSize)
    requires Interior(p, x, y) && 0 <= c < 3
    ensures 0 <= Idx(p.width, x, y, c) < |out|
    ensures Convolved(out, p)[Idx(p.width, x, y, c)] == p.input[Idx(p.width, x, y, c)]
  {
    ConvolvedInterior(out, p, x, y, c);
    IdentityWindowSum(p, x, y, c, p.kSize / 2 + 1);
  }
}
