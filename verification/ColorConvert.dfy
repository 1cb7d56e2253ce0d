/** Conversion of a BGRA picture to planar YUV 4:2:0 in fixed-point BT.601 arithmetic. */
module ColorConvert {
  import opened Words

  // ---------- The formulas ----------

  /** An arithmetic shift right by eight: division rounding down, also of negative values. */
  function ShiftRight8(x: int): int {
    x / 256
  }

  function Luma(r: int, g: int, b: int): int {
    ShiftRight8(77 * r + 150 * g + 29 * b + 128)
  }

  function ChromaU(r: int, g: int, b: int): int {
    ShiftRight8(-43 * r - 85 * g + 128 * b + 32768)
  }

  function ChromaV(r: int, g: int, b: int): int {
    ShiftRight8(128 * r - 107 * g - 21 * b + 32768)
  }

  predicate IsByte(x: int) {
    0 <= x < 256
  }

  /** No value computed from bytes leaves the byte range, so narrowing it to a byte never wraps. */
  lemma NeverWraps(r: int, g: int, b: int)
    requires IsByte(r) && IsByte(g) && IsByte(b)
    ensures IsByte(Luma(r, g, b)) && IsByte(ChromaU(r, g, b)) && IsByte(ChromaV(r, g, b))
  {
  }

  /** A grey keeps its brightness and has no colour. */
  lemma GreyIsNeutral(v: int)
    requires IsByte(v)
    ensures Luma(v, v, v) == v && ChromaU(v, v, v) == 128 && ChromaV(v, v, v) == 128
  {
  }

  function Average(a: int, b: int, c: int, d: int): int {
    (a + b + c + d + 2) / 4
  }

  // ---------- The picture ----------

  /** Byte `channel` of pixel `i`: 0 is blue, 1 green, 2 red. */
  function Sample(bgra: Bytes, i: nat, channel: nat): int
    requires channel < 4 && 4 * i + 3 < |bgra|
  {
    bgra[4 * i + channel]
  }

  function PixelLuma(bgra: Bytes, i: nat): int
    requires 4 * i + 3 < |bgra|
  {
    Luma(Sample(bgra, i, 2), Sample(bgra, i, 1), Sample(bgra, i, 0))
  }

  /** Mean of a channel over the 2x2 block whose top left pixel is `i`, in a picture `w` wide. */
  function Mean(bgra: Bytes, w: nat, i: nat, channel: nat): int
    requires channel < 4 && 4 * (i + w + 1) + 3 < |bgra|
  {
    Average(Sample(bgra, i, channel), Sample(bgra, i + 1, channel),
            Sample(bgra, i + w, channel), Sample(bgra, i + w + 1, channel))
  }

  function BlockU(bgra: Bytes, w: nat, i: nat): int
    requires 4 * (i + w + 1) + 3 < |bgra|
  {
    ChromaU(Mean(bgra, w, i, 2), Mean(bgra, w, i, 1), Mean(bgra, w, i, 0))
  }

  function BlockV(bgra: Bytes, w: nat, i: nat): int
    requires 4 * (i + w + 1) + 3 < |bgra|
  {
    ChromaV(Mean(bgra, w, i, 2), Mean(bgra, w, i, 1), Mean(bgra, w, i, 0))
  }

  // ---------- The colours of BT.601 ----------

  function RealLuma(r: real, g: real, b: real): real {
    0.299 * r + 0.587 * g + 0.114 * b
  }

  function RealU(r: real, g: real, b: real): real {
    128.0 - 0.168736 * r - 0.331264 * g + 0.5 * b
  }

  function RealV(r: real, g: real, b: real): real {
    128.0 + 0.5 * r - 0.418688 * g - 0.081312 * b
  }

  /** The integer formulas follow the full-range BT.601 matrix, luma to less than one step and chroma, which is rounded
      down, to less than one step below and a fifth above the loss in its coefficients. */
  lemma FollowsBt601(r: int, g: int, b: int)
    requires IsByte(r) && IsByte(g) && IsByte(b)
    ensures -1.0 < Luma(r, g, b) as real - RealLuma(r as real, g as real, b as real) < 1.0
    ensures -1.2 < ChromaU(r, g, b) as real - RealU(r as real, g as real, b as real) < 0.2
    ensures -1.2 < ChromaV(r, g, b) as real - RealV(r as real, g as real, b as real) < 0.2
  {
    ShiftRounds(77 * r + 150 * g + 29 * b + 128);
    ShiftRounds(-43 * r - 85 * g + 128 * b + 32768);
    ShiftRounds(128 * r - 107 * g - 21 * b + 32768);
  }

  lemma ShiftRounds(x: int)
    ensures 256.0 * (ShiftRight8(x) as real) <= x as real < 256.0 * (ShiftRight8(x) as real) + 256.0
  {
    assert 256 * (x / 256) <= x < 256 * (x / 256) + 256;
  }

  /** The luma of a pixel is that of its bytes, blue first. */
  lemma PixelFollowsBt601(bgra: Bytes, i: nat)
    requires 4 * i + 3 < |bgra|
    ensures -1.0 < PixelLuma(bgra, i) as real
                   - RealLuma(bgra[4 * i + 2] as real, bgra[4 * i + 1] as real, bgra[4 * i] as real) < 1.0
  {
    FollowsBt601(bgra[4 * i + 2], bgra[4 * i + 1], bgra[4 * i]);
  }

  /** The mean of byte `channel` over the pixels `i`, the one right of it and the two below, in a picture `w` wide. */
  function RealMean(bgra: Bytes, w: nat, i: nat, channel: nat): real
    requires channel < 4 && 4 * (i + w + 1) + 3 < |bgra|
  {
    (bgra[4 * i + channel] as real + bgra[4 * (i + 1) + channel] as real
     + bgra[4 * (i + w) + channel] as real + bgra[4 * (i + w + 1) + channel] as real) / 4.0
  }

  lemma MeanIsNearest(bgra: Bytes, w: nat, i: nat, channel: nat)
    requires channel < 4 && 4 * (i + w + 1) + 3 < |bgra|
    ensures IsByte(Mean(bgra, w, i, channel))
    ensures -0.5 <= RealMean(bgra, w, i, channel) - Mean(bgra, w, i, channel) as real <= 0.25
  {
    var sum := Sample(bgra, i, channel) + Sample(bgra, i + 1, channel) + Sample(bgra, i + w, channel) + Sample(bgra, i + w + 1, channel);
    assert 4 * ((sum + 2) / 4) - 2 <= sum <= 4 * ((sum + 2) / 4) + 1;
  }

  /** And the chroma of a block that of the mean of its four pixels. */
  lemma BlockFollowsBt601(bgra: Bytes, w: nat, i: nat)
    requires 4 * (i + w + 1) + 3 < |bgra|
    ensures var r, g, b := RealMean(bgra, w, i, 2), RealMean(bgra, w, i, 1), RealMean(bgra, w, i, 0);
            && -1.7 < BlockU(bgra, w, i) as real - RealU(r, g, b) < 0.7
            && -1.7 < BlockV(bgra, w, i) as real - RealV(r, g, b) < 0.7
  {
    MeanIsNearest(bgra, w, i, 2);
    MeanIsNearest(bgra, w, i, 1);
    MeanIsNearest(bgra, w, i, 0);
    FollowsBt601(Mean(bgra, w, i, 2), Mean(bgra, w, i, 1), Mean(bgra, w, i, 0));
  }

  /** Top left pixel of chroma block `j`, counted row by row. */
  function BlockTop(w: nat, j: nat): nat
    requires w >= 2
  {
    2 * (j / (w / 2)) * w + 2 * (j % (w / 2))
  }

  /** Block `c` of the pair of rows `row` and `row + 1` starts at column `2 * c`. */
  lemma BlockTopAt(w: nat, row: nat, c: nat)
    requires w % 2 == 0 && row % 2 == 0 && c < w / 2
    ensures BlockTop(w, (row / 2) * (w / 2) + c) == row * w + 2 * c
  {
    ModUnique((row / 2) * (w / 2) + c, w / 2, row / 2, c);
    assert 2 * (row / 2) == row;
  }

  /** Chroma block `j` lies inside the picture. */
  predicate BlockFits(bgra: Bytes, w: nat, j: nat) {
    w >= 2 && 4 * (BlockTop(w, j) + w + 1) + 3 < |bgra|
  }

  // ---------- What is written so far ----------

  /** In raster order up to `from + col`, and `col` pixels of the row below. */
  predicate Passed(i: int, from: nat, w: nat, col: nat) {
    i < from + col || from + w <= i < from + w + col
  }

  /** A luma cell passed was written once, with its pixel's luma; one not passed was not written. */
  predicate LumaCell(bgra: Bytes, size: nat, yuv: Bytes, hits: seq<nat>, i: nat, passed: bool)
    requires 4 * size <= |bgra| && i < size <= |yuv| == |hits|
  {
    if passed then hits[i] == 1 && yuv[i] == PixelLuma(bgra, i) else hits[i] == 0
  }

  ghost predicate LumaSoFar(bgra: Bytes, w: nat, size: nat, yuv: Bytes, hits: seq<nat>, from: nat, col: nat)
    requires 4 * size <= |bgra| && size <= |yuv| == |hits|
  {
    forall i :: 0 <= i < size ==> LumaCell(bgra, size, yuv, hits, i, Passed(i, from, w, col))
  }

  /** The two cells of one of the first `blocks` chroma blocks were written once each, with the block's values. */
  predicate ChromaCells(bgra: Bytes, w: nat, size: nat, yuv: Bytes, hits: seq<nat>, j: nat, blocks: nat)
    requires size + size / 4 * 2 == |yuv| == |hits| && j < size / 4
  {
    if j < blocks then
      && BlockFits(bgra, w, j)
      && hits[size + j] == 1 && yuv[size + j] == BlockU(bgra, w, BlockTop(w, j))
      && hits[size + size / 4 + j] == 1 && yuv[size + size / 4 + j] == BlockV(bgra, w, BlockTop(w, j))
    else hits[size + j] == 0 && hits[size + size / 4 + j] == 0
  }

  ghost predicate ChromaSoFar(bgra: Bytes, w: nat, size: nat, yuv: Bytes, hits: seq<nat>, blocks: nat)
    requires size + size / 4 * 2 == |yuv| == |hits|
  {
    forall j :: 0 <= j < size / 4 ==> ChromaCells(bgra, w, size, yuv, hits, j, blocks)
  }

  // ---------- One block ----------

  /** The four luma cells of the block with top left pixel `i`. */
  function PaintedLuma(yuv: Bytes, bgra: Bytes, w: nat, i: nat): (r: Bytes)
    requires 4 * (i + w + 1) + 3 < |bgra| && i + w + 1 < |yuv|
    ensures |r| == |yuv|
  {
    NeverWrapsAt(bgra, w, i);
    yuv[i := PixelLuma(bgra, i)][i + 1 := PixelLuma(bgra, i + 1)]
       [i + w := PixelLuma(bgra, i + w)][i + w + 1 := PixelLuma(bgra, i + w + 1)]
  }

  /** Its two chroma cells `u` and `v`. */
  function PaintedChroma(yuv: Bytes, bgra: Bytes, w: nat, i: nat, u: nat, v: nat): (r: Bytes)
    requires 4 * (i + w + 1) + 3 < |bgra| && u < |yuv| && v < |yuv|
    ensures |r| == |yuv|
  {
    NeverWrapsAt(bgra, w, i);
    yuv[u := BlockU(bgra, w, i)][v := BlockV(bgra, w, i)]
  }

  function Painted(yuv: Bytes, bgra: Bytes, w: nat, size: nat, i: nat, j: nat): Bytes
    requires 4 * (i + w + 1) + 3 < |bgra| && i + w + 1 < size && j < size / 4 && size + size / 4 * 2 == |yuv|
  {
    PaintedChroma(PaintedLuma(yuv, bgra, w, i), bgra, w, i, size + j, size + size / 4 + j)
  }

  function Once(hits: seq<nat>, k: nat): seq<nat>
    requires k < |hits|
  {
    hits[k := hits[k] + 1]
  }

  function HitLuma(hits: seq<nat>, w: nat, i: nat): (r: seq<nat>)
    requires i + w + 1 < |hits|
    ensures |r| == |hits|
  {
    Once(Once(Once(Once(hits, i), i + 1), i + w), i + w + 1)
  }

  function Hit(hits: seq<nat>, w: nat, size: nat, i: nat, j: nat): seq<nat>
    requires i + w + 1 < size && j < size / 4 && size + size / 4 * 2 == |hits|
  {
    HitChroma(HitLuma(hits, w, i), size + j, size + size / 4 + j)
  }

  function HitChroma(hits: seq<nat>, u: nat, v: nat): (r: seq<nat>)
    requires u < |hits| && v < |hits|
    ensures |r| == |hits|
  {
    Once(Once(hits, u), v)
  }

  lemma NeverWrapsAt(bgra: Bytes, w: nat, i: nat)
    requires 4 * (i + w + 1) + 3 < |bgra|
    ensures IsByte(PixelLuma(bgra, i)) && IsByte(PixelLuma(bgra, i + 1))
    ensures IsByte(PixelLuma(bgra, i + w)) && IsByte(PixelLuma(bgra, i + w + 1))
    ensures IsByte(BlockU(bgra, w, i)) && IsByte(BlockV(bgra, w, i))
  {
    NeverWraps(Sample(bgra, i, 2), Sample(bgra, i, 1), Sample(bgra, i, 0));
    NeverWraps(Sample(bgra, i + 1, 2), Sample(bgra, i + 1, 1), Sample(bgra, i + 1, 0));
    NeverWraps(Sample(bgra, i + w, 2), Sample(bgra, i + w, 1), Sample(bgra, i + w, 0));
    NeverWraps(Sample(bgra, i + w + 1, 2), Sample(bgra, i + w + 1, 1), Sample(bgra, i + w + 1, 0));
    NeverWraps(Mean(bgra, w, i, 2), Mean(bgra, w, i, 1), Mean(bgra, w, i, 0));
  }

  /** One of the four pixels of the block at `i`. */
  predicate InBlock(k: int, w: nat, i: nat) {
    k == i || k == i + 1 || k == i + w || k == i + w + 1
  }

  lemma PaintAt(bgra: Bytes, w: nat, size: nat, yuv: Bytes, hits: seq<nat>, i: nat, j: nat, k: nat)
    requires 4 * size <= |bgra| && size + size / 4 * 2 == |yuv| == |hits| && j < size / 4
    requires w >= 2 && i + w + 1 < size && k < size
    ensures Hit(hits, w, size, i, j)[k] == if InBlock(k, w, i) then hits[k] + 1 else hits[k]
    ensures Painted(yuv, bgra, w, size, i, j)[k] == if InBlock(k, w, i) then PixelLuma(bgra, k) else yuv[k]
  {
  }

  lemma PassedNext(k: int, from: nat, w: nat, col: nat)
    requires col + 2 <= w
    ensures Passed(k, from, w, col + 2) <==> Passed(k, from, w, col) || InBlock(k, w, from + col)
    ensures !(Passed(k, from, w, col) && InBlock(k, w, from + col))
  {
  }

  lemma PaintLuma(bgra: Bytes, w: nat, size: nat, yuv: Bytes, hits: seq<nat>, from: nat, col: nat, j: nat)
    requires 4 * size <= |bgra| && size + size / 4 * 2 == |yuv| == |hits| && j < size / 4
    requires col + 2 <= w && from + w + w <= size
    requires LumaSoFar(bgra, w, size, yuv, hits, from, col)
    ensures LumaSoFar(bgra, w, size, Painted(yuv, bgra, w, size, from + col, j), Hit(hits, w, size, from + col, j), from, col + 2)
  {
    var yuv', hits', next := Painted(yuv, bgra, w, size, from + col, j), Hit(hits, w, size, from + col, j), col + 2;
    forall k | 0 <= k < size ensures LumaCell(bgra, size, yuv', hits', k, Passed(k, from, w, next)) {
      assert LumaCell(bgra, size, yuv, hits, k, Passed(k, from, w, col));
      PaintAt(bgra, w, size, yuv, hits, from + col, j, k);
      PassedNext(k, from, w, col);
    }
  }

  lemma PaintChromaAt(bgra: Bytes, w: nat, size: nat, yuv: Bytes, hits: seq<nat>, i: nat, j: nat, k: nat)
    requires 4 * size <= |bgra| && size + size / 4 * 2 == |yuv| == |hits| && j < size / 4 && k < size / 4
    requires w >= 2 && BlockTop(w, j) == i && i + w + 1 < size
    requires ChromaCells(bgra, w, size, yuv, hits, k, j)
    ensures ChromaCells(bgra, w, size, Painted(yuv, bgra, w, size, i, j), Hit(hits, w, size, i, j), k, j + 1)
  {
  }

  lemma PaintChroma(bgra: Bytes, w: nat, size: nat, yuv: Bytes, hits: seq<nat>, i: nat, j: nat)
    requires 4 * size <= |bgra| && size + size / 4 * 2 == |yuv| == |hits| && j < size / 4
    requires w >= 2 && BlockTop(w, j) == i && i + w + 1 < size
    requires ChromaSoFar(bgra, w, size, yuv, hits, j)
    ensures ChromaSoFar(bgra, w, size, Painted(yuv, bgra, w, size, i, j), Hit(hits, w, size, i, j), j + 1)
  {
    var yuv', hits', next := Painted(yuv, bgra, w, size, i, j), Hit(hits, w, size, i, j), j + 1;
    forall k | 0 <= k < size / 4 ensures ChromaCells(bgra, w, size, yuv', hits', k, next) {
      PaintChromaAt(bgra, w, size, yuv, hits, i, j, k);
    }
  }

  // ---------- The conversion ----------

  /** Every write goes through here and is counted. */
  method Put(yuv: array<Byte>, k: nat, value: Byte, ghost hits: seq<nat>) returns (ghost hits': seq<nat>)
    requires k < yuv.Length == |hits|
    modifies yuv
    ensures yuv[..] == old(yuv[..])[k := value] && hits' == Once(hits, k)
  {
    yuv[k] := value;
    hits' := Once(hits, k);
  }

  /** The six values of a block. */
  method BlockValues(bgra: Bytes, w: nat, i: nat) returns (y00: Byte, y01: Byte, y10: Byte, y11: Byte, u: Byte, v: Byte)
    requires 4 * (i + w + 1) + 3 < |bgra|
    ensures y00 == PixelLuma(bgra, i) && y01 == PixelLuma(bgra, i + 1)
    ensures y10 == PixelLuma(bgra, i + w) && y11 == PixelLuma(bgra, i + w + 1)
    ensures u == BlockU(bgra, w, i) && v == BlockV(bgra, w, i)
  {
    NeverWrapsAt(bgra, w, i);
    var b00, g00, r00 := Sample(bgra, i, 0), Sample(bgra, i, 1), Sample(bgra, i, 2);
    var b01, g01, r01 := Sample(bgra, i + 1, 0), Sample(bgra, i + 1, 1), Sample(bgra, i + 1, 2);
    var b10, g10, r10 := Sample(bgra, i + w, 0), Sample(bgra, i + w, 1), Sample(bgra, i + w, 2);
    var b11, g11, r11 := Sample(bgra, i + w + 1, 0), Sample(bgra, i + w + 1, 1), Sample(bgra, i + w + 1, 2);
    y00, y01 := Luma(r00, g00, b00), Luma(r01, g01, b01);
    y10, y11 := Luma(r10, g10, b10), Luma(r11, g11, b11);
    var rAvg, gAvg, bAvg := Average(r00, r01, r10, r11), Average(g00, g01, g10, g11), Average(b00, b01, b10, b11);
    u, v := ChromaU(rAvg, gAvg, bAvg), ChromaV(rAvg, gAvg, bAvg);
  }

  /** Writes the four luma cells. */
  method PutLuma(bgra: Bytes, yuv: array<Byte>, w: nat, i: nat, y00: Byte, y01: Byte, y10: Byte, y11: Byte, ghost hits: seq<nat>)
    returns (ghost hits': seq<nat>)
    requires 4 * (i + w + 1) + 3 < |bgra| && i + w + 1 < yuv.Length == |hits|
    requires y00 == PixelLuma(bgra, i) && y01 == PixelLuma(bgra, i + 1)
    requires y10 == PixelLuma(bgra, i + w) && y11 == PixelLuma(bgra, i + w + 1)
    modifies yuv
    ensures yuv[..] == PaintedLuma(old(yuv[..]), bgra, w, i) && hits' == HitLuma(hits, w, i)
  {
    hits' := Put(yuv, i, y00, hits);
    hits' := Put(yuv, i + 1, y01, hits');
    hits' := Put(yuv, i + w, y10, hits');
    hits' := Put(yuv, i + w + 1, y11, hits');
  }

  /** Writes the two chroma cells. */
  method PutChroma(bgra: Bytes, yuv: array<Byte>, w: nat, i: nat, uAt: nat, vAt: nat, u: Byte, v: Byte, ghost hits: seq<nat>)
    returns (ghost hits': seq<nat>)
    requires 4 * (i + w + 1) + 3 < |bgra| && uAt < yuv.Length && vAt < yuv.Length == |hits|
    requires u == BlockU(bgra, w, i) && v == BlockV(bgra, w, i)
    modifies yuv
    ensures yuv[..] == PaintedChroma(old(yuv[..]), bgra, w, i, uAt, vAt) && hits' == HitChroma(hits, uAt, vAt)
  {
    hits' := Put(yuv, uAt, u, hits);
    hits' := Put(yuv, vAt, v, hits');
  }

  /** Writes one block. */
  method ConvertBlock(bgra: Bytes, yuv: array<Byte>, w: nat, i: nat, uAt: nat, vAt: nat, ghost hits: seq<nat>)
    returns (ghost hits': seq<nat>)
    requires 4 * (i + w + 1) + 3 < |bgra| && i + w + 1 < yuv.Length == |hits| && uAt < |hits| && vAt < |hits|
    modifies yuv
    ensures yuv[..] == PaintedChroma(PaintedLuma(old(yuv[..]), bgra, w, i), bgra, w, i, uAt, vAt)
    ensures hits' == HitChroma(HitLuma(hits, w, i), uAt, vAt)
  {
    var y00, y01, y10, y11, u, v := BlockValues(bgra, w, i);
    hits' := PutLuma(bgra, yuv, w, i, y00, y01, y10, y11, hits);
    hits' := PutChroma(bgra, yuv, w, i, uAt, vAt, u, v, hits');
  }

  /** A pair of rows lies inside the picture, and its chroma cells inside the planes. */
  lemma RowsInside(w: nat, h: nat, row: nat)
    requires w % 2 == 0 && h % 2 == 0 && row % 2 == 0 && row < h
    ensures row * w + w + w <= w * h
    ensures (row / 2) * (w / 2) + w / 2 <= w * h / 4
  {
    var a, b, r := w / 2, h / 2, row / 2;
    assert (row + 2) * w <= h * w;
    assert (r + 1) * a <= b * a;
    Quarter(w, h);
    assert (r + 1) * a == r * a + a;
  }

  lemma RowDone(w: nat, row: nat)
    requires w % 2 == 0 && row % 2 == 0
    ensures (row + 2) * w == row * w + w + w
    ensures ((row + 2) / 2) * (w / 2) == (row / 2) * (w / 2) + w / 2
  {
    assert (row + 2) / 2 == row / 2 + 1;
    assert (row / 2 + 1) * (w / 2) == (row / 2) * (w / 2) + w / 2;
  }

  ghost predicate SoFar(bgra: Bytes, w: nat, size: nat, yuv: Bytes, hits: seq<nat>, from: nat, col: nat, blocks: nat) {
    && 4 * size <= |bgra| && size + size / 4 * 2 == |yuv| == |hits|
    && LumaSoFar(bgra, w, size, yuv, hits, from, col)
    && ChromaSoFar(bgra, w, size, yuv, hits, blocks)
  }

  lemma PaintBoth(bgra: Bytes, w: nat, size: nat, yuv: Bytes, hits: seq<nat>, from: nat, col: nat, j: nat)
    requires SoFar(bgra, w, size, yuv, hits, from, col, j)
    requires col + 2 <= w && from + w + w <= size && j < size / 4
    requires BlockTop(w, j) == from + col
    ensures SoFar(bgra, w, size, Painted(yuv, bgra, w, size, from + col, j), Hit(hits, w, size, from + col, j), from, col + 2, j + 1)
  {
    PaintLuma(bgra, w, size, yuv, hits, from, col, j);
    PaintChroma(bgra, w, size, yuv, hits, from + col, j);
  }

  /** Converts the pair of rows that starts at `row`, whose first pixel is `from` and first block `uvRow`. */
  method ConvertRows(bgra: Bytes, yuv: array<Byte>, w: nat, size: nat, row: nat, from: nat, uvRow: nat, ghost hits: seq<nat>)
    returns (ghost hits': seq<nat>)
    requires w % 2 == 0 && row % 2 == 0 && from == row * w && uvRow == (row / 2) * (w / 2)
    requires from + w + w <= size && uvRow + w / 2 <= size / 4
    requires SoFar(bgra, w, size, yuv[..], hits, from, 0, uvRow)
    modifies yuv
    ensures SoFar(bgra, w, size, yuv[..], hits', from, w, uvRow + w / 2)
  {
    hits' := hits;
    var col := 0;
    ghost var c := 0;
    while col < w
      invariant col == 2 * c && c <= w / 2
      invariant SoFar(bgra, w, size, yuv[..], hits', from, col, uvRow + c)
    {
      BlockTopAt(w, row, c);
      hits' := ConvertNext(bgra, yuv, w, size, from, col, uvRow + col / 2, hits');
      col := col + 2;
      c := c + 1;
    }
  }

  /** Writes the next block and so takes the conversion one block further. */
  method ConvertNext(bgra: Bytes, yuv: array<Byte>, w: nat, size: nat, from: nat, col: nat, j: nat, ghost hits: seq<nat>)
    returns (ghost hits': seq<nat>)
    requires SoFar(bgra, w, size, yuv[..], hits, from, col, j)
    requires col + 2 <= w && from + w + w <= size && j < size / 4 && BlockTop(w, j) == from + col
    modifies yuv
    ensures SoFar(bgra, w, size, yuv[..], hits', from, col + 2, j + 1)
  {
    PaintBoth(bgra, w, size, yuv[..], hits, from, col, j);
    hits' := ConvertBlock(bgra, yuv, w, from + col, size + j, size + size / 4 + j, hits);
  }

  /** Main result: for even sides and a large enough buffer every access is in bounds, every cell of the three
      planes is written exactly once, and holds its pixel's luma or its block's chroma. */
  method BgraToYuv420p(bgra: Bytes, w: nat, h: nat) returns (yuv: array<Byte>, ghost hits: seq<nat>)
    requires w % 2 == 0 && h % 2 == 0 && w * h < U32 && 4 * (w * h) <= |bgra|
    ensures fresh(yuv) && yuv.Length == |hits| == w * h + w * h / 4 * 2
    ensures forall k :: 0 <= k < |hits| ==> hits[k] == 1
    ensures forall i :: 0 <= i < w * h ==> yuv[i] == PixelLuma(bgra, i)
    ensures forall j :: 0 <= j < w * h / 4 ==> ChromaCells(bgra, w, w * h, yuv[..], hits, j, w * h / 4)
  {
    var size := w * h;
    Quarter(w, h);
    yuv := new Byte[size + size / 4 * 2](_ => 0);
    hits := seq(yuv.Length, _ => 0);
    NothingYet(bgra, w, size, yuv[..], hits);
    hits := ConvertAll(bgra, yuv, w, h, size, hits);
    AllDone(bgra, w, size, yuv[..], hits);
  }

  /** Goes over the picture two rows at a time. */
  method ConvertAll(bgra: Bytes, yuv: array<Byte>, w: nat, h: nat, size: nat, ghost hits: seq<nat>)
    returns (ghost hits': seq<nat>)
    requires w % 2 == 0 && h % 2 == 0 && size == w * h && size / 4 == (h / 2) * (w / 2)
    requires SoFar(bgra, w, size, yuv[..], hits, 0, 0, 0)
    modifies yuv
    ensures SoFar(bgra, w, size, yuv[..], hits', size, 0, size / 4)
  {
    hits' := hits;
    var row := 0;
    while row < h
      invariant row <= h && row % 2 == 0
      invariant SoFar(bgra, w, size, yuv[..], hits', row * w, 0, (row / 2) * (w / 2))
    {
      hits' := ConvertPair(bgra, yuv, w, h, size, row, hits');
      row := row + 2;
    }
  }

  /** The two rows at `row`. */
  method ConvertPair(bgra: Bytes, yuv: array<Byte>, w: nat, h: nat, size: nat, row: nat, ghost hits: seq<nat>)
    returns (ghost hits': seq<nat>)
    requires w % 2 == 0 && h % 2 == 0 && size == w * h && row % 2 == 0 && row < h
    requires SoFar(bgra, w, size, yuv[..], hits, row * w, 0, (row / 2) * (w / 2))
    modifies yuv
    ensures SoFar(bgra, w, size, yuv[..], hits', (row + 2) * w, 0, ((row + 2) / 2) * (w / 2))
  {
    RowsInside(w, h, row);
    RowDone(w, row);
    var from, uvRow := row * w, (row / 2) * (w / 2);
    hits' := ConvertRows(bgra, yuv, w, size, row, from, uvRow, hits);
    NextRows(bgra, w, size, yuv[..], hits', from, uvRow + w / 2);
  }

  lemma NothingYet(bgra: Bytes, w: nat, size: nat, yuv: Bytes, hits: seq<nat>)
    requires 4 * size <= |bgra| && size + size / 4 * 2 == |yuv| == |hits| && forall k :: 0 <= k < |hits| ==> hits[k] == 0
    ensures SoFar(bgra, w, size, yuv, hits, 0, 0, 0)
  {
  }

  lemma NextRows(bgra: Bytes, w: nat, size: nat, yuv: Bytes, hits: seq<nat>, from: nat, blocks: nat)
    requires SoFar(bgra, w, size, yuv, hits, from, w, blocks)
    ensures SoFar(bgra, w, size, yuv, hits, from + w + w, 0, blocks)
  {
    var next := from + w + w;
    forall i | 0 <= i < size ensures LumaCell(bgra, size, yuv, hits, i, Passed(i, next, w, 0)) {
      assert LumaCell(bgra, size, yuv, hits, i, Passed(i, from, w, w));
    }
  }

  lemma AllDone(bgra: Bytes, w: nat, size: nat, yuv: Bytes, hits: seq<nat>)
    requires size % 4 == 0 && SoFar(bgra, w, size, yuv, hits, size, 0, size / 4)
    ensures forall k :: 0 <= k < |hits| ==> hits[k] == 1
    ensures forall i :: 0 <= i < size ==> yuv[i] == PixelLuma(bgra, i)
    ensures forall j :: 0 <= j < size / 4 ==> ChromaCells(bgra, w, size, yuv, hits, j, size / 4)
  {
    forall k | 0 <= k < |hits| ensures hits[k] == 1 {
      if k < size {
        assert LumaCell(bgra, size, yuv, hits, k, Passed(k, size, w, 0));
      } else {
        var j := if k < size + size / 4 then k - size else k - size - size / 4;
        assert ChromaCells(bgra, w, size, yuv, hits, j, size / 4);
      }
    }
    forall i | 0 <= i < size ensures yuv[i] == PixelLuma(bgra, i) {
      assert LumaCell(bgra, size, yuv, hits, i, Passed(i, size, w, 0));
    }
  }

  lemma Quarter(w: nat, h: nat)
    requires w % 2 == 0 && h % 2 == 0
    ensures w * h / 4 == (h / 2) * (w / 2) && w * h % 4 == 0
  {
    var a, b := w / 2, h / 2;
    assert w * h == 4 * (b * a) by { assert w == 2 * a && h == 2 * b; }
  }

  // ---------- Any sides at all ----------

  /** The reads and writes of the block at (row, col) stay inside a buffer of `len` bytes and inside the planes. */
  predicate BlockInBounds(w: nat, h: nat, len: nat, row: nat, col: nat) {
    var last := (row + 1) * w + col + 1;
    && 4 * last + 2 < len
    && last < w * h + w * h / 4 * 2
    && (row / 2) * (w / 2) + col / 2 < w * h / 4
  }

  /** The conversion of a picture with these sides touches nothing out of bounds. */
  ghost predicate InBounds(w: nat, h: nat, len: nat) {
    forall row: nat, col: nat :: row < h && col < w && row % 2 == 0 && col % 2 == 0 ==> BlockInBounds(w, h, len, row, col)
  }

  /** The pixels of the block at (row, col). */
  function BlockPixels(w: nat, row: nat, col: nat): set<nat> {
    {row * w + col, row * w + col + 1, (row + 1) * w + col, (row + 1) * w + col + 1}
  }

  /** Where the block's two chroma values go. */
  function BlockChroma(w: nat, h: nat, row: nat, col: nat): set<nat> {
    var uv := (row / 2) * (w / 2) + col / 2;
    {w * h + uv, w * h + w * h / 4 + uv}
  }

  /** Blue, green and red of the pixel lie inside the buffer, its luma inside the planes. */
  predicate PixelInBounds(w: nat, h: nat, len: nat, p: nat) {
    4 * p < len && 4 * p + 1 < len && 4 * p + 2 < len && p < w * h + w * h / 4 * 2
  }

  /** So a block is in bounds exactly when its four pixels are and its two chroma values lie inside the planes. */
  lemma TouchedExactly(w: nat, h: nat, len: nat, row: nat, col: nat)
    ensures BlockInBounds(w, h, len, row, col) <==>
              && (forall p :: p in BlockPixels(w, row, col) ==> PixelInBounds(w, h, len, p))
              && (forall q :: q in BlockChroma(w, h, row, col) ==> q < w * h + w * h / 4 * 2)
  {
    var last, uv := (row + 1) * w + col + 1, (row / 2) * (w / 2) + col / 2;
    assert (row + 1) * w == row * w + w;
    assert last in BlockPixels(w, row, col) && w * h + w * h / 4 + uv in BlockChroma(w, h, row, col);
    if BlockInBounds(w, h, len, row, col) {
      forall p | p in BlockPixels(w, row, col) ensures PixelInBounds(w, h, len, p) { assert p <= last; }
    }
  }

  function LastEven(n: nat): nat
    requires n > 0
  {
    (n - 1) / 2 * 2
  }

  /** That the last block does, or that there is none. */
  predicate LastInBounds(w: nat, h: nat, len: nat) {
    w == 0 || h == 0 || BlockInBounds(w, h, len, LastEven(h), LastEven(w))
  }

  /** Exactly then, whatever the sides. */
  lemma InBoundsExactly(w: nat, h: nat, len: nat)
    ensures InBounds(w, h, len) <==> LastInBounds(w, h, len)
  {
    if w > 0 && h > 0 {
      if BlockInBounds(w, h, len, LastEven(h), LastEven(w)) {
        LastIsEnough(w, h, len);
      }
    }
  }

  lemma LastIsEnough(w: nat, h: nat, len: nat)
    requires w > 0 && h > 0 && BlockInBounds(w, h, len, LastEven(h), LastEven(w))
    ensures InBounds(w, h, len)
  {
    forall row: nat, col: nat | row < h && col < w && row % 2 == 0 && col % 2 == 0
      ensures BlockInBounds(w, h, len, row, col)
    {
      EarlierInBounds(w, h, len, row, col, LastEven(h), LastEven(w));
    }
  }

  lemma EarlierInBounds(w: nat, h: nat, len: nat, row: nat, col: nat, row': nat, col': nat)
    requires row <= row' && col <= col' && BlockInBounds(w, h, len, row', col')
    ensures BlockInBounds(w, h, len, row, col)
  {
    ScaleUp(row + 1, row' + 1, w);
    ScaleUp(row / 2, row' / 2, w / 2);
  }

  lemma ScaleUp(a: nat, b: nat, n: nat)
    requires a <= b
    ensures a * n <= b * n
  {
  }

  /** With four bytes for each pixel and no more, exactly when both sides are even or there are no pixels. */
  lemma ExactBufferInBounds(w: nat, h: nat)
    ensures InBounds(w, h, 4 * (w * h)) <==> w == 0 || h == 0 || (w % 2 == 0 && h % 2 == 0)
  {
    InBoundsExactly(w, h, 4 * (w * h));
    if w > 0 && h > 0 {
      if w % 2 == 0 && h % 2 == 0 {
        EvenInBounds(w, h, 4 * (w * h));
      } else {
        OddReadsPast(w, h);
      }
    }
  }

  lemma EvenInBounds(w: nat, h: nat, len: nat)
    requires w > 0 && h > 0 && w % 2 == 0 && h % 2 == 0 && 4 * (w * h) <= len
    ensures BlockInBounds(w, h, len, LastEven(h), LastEven(w))
  {
    Quarter(w, h);
    assert LastEven(h) == h - 2 && LastEven(w) == w - 2;
    assert (h - 1) * w == h * w - w;
    assert (h / 2 - 1) * (w / 2) == (h / 2) * (w / 2) - w / 2;
  }

  lemma OddReadsPast(w: nat, h: nat)
    requires w > 0 && h > 0 && !(w % 2 == 0 && h % 2 == 0)
    ensures (LastEven(h) + 1) * w + LastEven(w) + 1 >= w * h
  {
    if h % 2 == 1 {
      assert LastEven(h) + 1 == h;
    } else {
      assert LastEven(h) + 1 == h - 1 && LastEven(w) == w - 1;
      assert (h - 1) * w == h * w - w;
    }
  }
}
