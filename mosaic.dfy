/** `reconstructAsMosaic`: the image is cut into `blockSize` by `blockSize` tiles (narrower at
    the right edge, shorter at the bottom), each filled with the floor mean colour of its
    pixels; one row of tiles per frame, `isCancelled()` polled before each row. */
module Mosaic {
  import opened Pixels
  import opened Canvas

  /** Per-channel totals (red, green, blue) of the pixels visited so far. */
  datatype Totals = Totals(r: nat, g: nat, b: nat)

  function Plus(s: Totals, t: Totals): Totals {
    Totals(s.r + t.r, s.g + t.g, s.b + t.b)
  }

  function TotalOf(t: Totals, ch: nat): nat
    requires ch < 3
  {
    if ch == 0 then t.r else if ch == 1 then t.g else t.b
  }

  /** The totals over the whole pixels of `region`, first pixel first. */
  function PixelSums(region: seq<Byte>): Totals
    decreases |region|
  {
    if |region| < 4 then Totals(0, 0, 0)
    else Plus(Totals(region[0], region[1], region[2]), PixelSums(region[4..]))
  }

  /** `Math.floor(sum / pixelCount)` per channel. */
  function MeanOf(t: Totals, n: nat): Rgb
    requires n > 0
  {
    Rgb(FloorDiv(t.r, n), FloorDiv(t.g, n), FloorDiv(t.b, n))
  }

  /** The floor mean colour of the bytes `getImageData` returned. */
  function MeanColor(region: seq<Byte>): Rgb
    requires |region| / 4 > 0
  {
    MeanOf(PixelSums(region), |region| / 4)
  }

  lemma {:induction false} PixelSumsAppend(a: seq<Byte>, b: seq<Byte>)
    requires |a| % 4 == 0
    ensures PixelSums(a + b) == Plus(PixelSums(a), PixelSums(b))
    decreases |a|
  {
    if |a| == 0 {
      assert a + b == b;
    } else {
      assert (a + b)[4..] == a[4..] + b;
      PixelSumsAppend(a[4..], b);
    }
  }

  /** Each total is at most 255 per pixel. */
  lemma {:induction false} PixelSumsBound(region: seq<Byte>)
    ensures var t, n := PixelSums(region), |region| / 4;
      t.r <= 255 * n && t.g <= 255 * n && t.b <= 255 * n
    decreases |region|
  {
    if |region| >= 4 {
      assert |region[4..]| / 4 == |region| / 4 - 1;
      PixelSumsBound(region[4..]);
    }
  }

  /** In a one-colour region each total is the pixel count times that colour's channel. */
  lemma {:induction false} SolidSums(region: seq<Byte>, c: Rgb)
    requires Solid(region, c)
    ensures var t, n := PixelSums(region), |region| / 4;
      t.r == n * c.r && t.g == n * c.g && t.b == n * c.b
    decreases |region|
  {
    if |region| >= 4 {
      var rest, n := region[4..], |region| / 4;
      assert |rest| / 4 == n - 1;
      forall p | 0 <= p < |rest| / 4 ensures PixelColor(rest, p) == c {
        assert PixelColor(rest, p) == PixelColor(region, p + 1);
      }
      SolidSums(rest, c);
      assert PixelColor(region, 0) == c;
      MulSucc(n - 1, c.r);
      MulSucc(n - 1, c.g);
      MulSucc(n - 1, c.b);
    }
  }

  lemma {:induction false} MeanChannel(region: seq<Byte>, ch: nat)
    requires |region| / 4 > 0 && ch < 3
    ensures var m, n := ChannelOf(MeanColor(region), ch), |region| / 4;
      0 <= m <= 255 && m * n <= TotalOf(PixelSums(region), ch) < m * n + n
  {
    var n := |region| / 4;
    var s := TotalOf(PixelSums(region), ch);
    PixelSumsBound(region);
    assert ChannelOf(MeanColor(region), ch) == FloorDiv(s, n);
    FloorDivQuotient(s, n);
    FloorDivBounds(s, n, 255);
  }

  /** Each channel of the mean is the floor of the channel's average, hence a channel value. */
  lemma {:induction false} MeanColorSpec(region: seq<Byte>)
    requires |region| / 4 > 0
    ensures IsByteColor(MeanColor(region))
    ensures forall ch :: 0 <= ch < 3 ==>
              var m, n := ChannelOf(MeanColor(region), ch), |region| / 4;
              m * n <= TotalOf(PixelSums(region), ch) < m * n + n
  {
    MeanChannel(region, 0);
    MeanChannel(region, 1);
    MeanChannel(region, 2);
  }

  /** The mean of a one-colour region is that colour. */
  lemma {:induction false} SolidMean(region: seq<Byte>, c: Rgb)
    requires |region| / 4 > 0 && Solid(region, c)
    ensures MeanColor(region) == c
  {
    var n := |region| / 4;
    assert PixelColor(region, 0) == c;
    SolidSums(region, c);
    forall ch | 0 <= ch < 3 ensures ChannelOf(MeanColor(region), ch) == ChannelOf(c, ch) {
      var s := TotalOf(PixelSums(region), ch);
      assert s == n * ChannelOf(c, ch);
      assert ChannelOf(MeanColor(region), ch) == FloorDiv(s, n);
      FloorDivQuotient(s, n);
      MulDivCancel(n, ChannelOf(c, ch));
    }
    assert ChannelOf(MeanColor(region), 0) == c.r;
    assert ChannelOf(MeanColor(region), 1) == c.g;
    assert ChannelOf(MeanColor(region), 2) == c.b;
  }

  // ---------------------------------------------------------------------------------------
  // The totals of a tile, read from the image
  // ---------------------------------------------------------------------------------------

  /** The totals of the `len` pixels of `data` starting at byte `start`. */
  function RowTotals(data: seq<Byte>, start: nat, len: nat): Totals
    requires start + 4 * len <= |data|
    decreases len
  {
    if len == 0 then Totals(0, 0, 0)
    else Plus(Totals(data[start], data[start + 1], data[start + 2]),
              RowTotals(data, start + 4, len - 1))
  }

  /** The totals of `h` runs of `len` pixels, `stride` bytes apart, the first at `start`. */
  function StripTotals(data: seq<Byte>, stride: nat, start: nat, len: nat, h: nat): Totals
    requires h == 0 || start + Times(h - 1, stride) + 4 * len <= |data|
    decreases h
  {
    if h == 0 then Totals(0, 0, 0)
    else
      CropFromRest(|data|, stride, start, 4 * len, h);
      Plus(RowTotals(data, start, len), StripTotals(data, stride, start + stride, len, h - 1))
  }

  /** The totals of the `w` by `h` block at `(x, y)` of a `width`-pixel-wide image. */
  function TileTotals(data: seq<Byte>, width: nat, height: nat, x: nat, y: nat, w: nat, h: nat)
    : Totals
    requires |data| == width * height * 4 && x + w <= width && y + h <= height
  {
    CropFits(width, height, x, y, w, h);
    StripTotals(data, 4 * width, 4 * (y * width + x), w, h)
  }

  lemma {:induction false} RowTotalsIs(data: seq<Byte>, start: nat, len: nat)
    requires start + 4 * len <= |data|
    ensures PixelSums(data[start .. start + 4 * len]) == RowTotals(data, start, len)
    decreases len
  {
    if len > 0 {
      var s := data[start .. start + 4 * len];
      assert s[4..] == data[start + 4 .. start + 4 + 4 * (len - 1)];
      RowTotalsIs(data, start + 4, len - 1);
    }
  }

  lemma {:induction false} StripTotalsIs(data: seq<Byte>, stride: nat, start: nat, len: nat,
                                         h: nat)
    requires h == 0 || start + Times(h - 1, stride) + 4 * len <= |data|
    ensures PixelSums(CropFrom(data, stride, start, 4 * len, h))
         == StripTotals(data, stride, start, len, h)
    decreases h
  {
    if h > 0 {
      CropFromRest(|data|, stride, start, 4 * len, h);
      var first := data[start .. start + 4 * len];
      PixelSumsAppend(first, CropFrom(data, stride, start + stride, 4 * len, h - 1));
      RowTotalsIs(data, start, len);
      StripTotalsIs(data, stride, start + stride, len, h - 1);
    }
  }

  /** The bytes `getImageData` returns for a block are `w * h` pixels whose totals are the
      block's totals in the image. */
  lemma {:induction false} TileTotalsAreCrop(data: seq<Byte>, width: nat, height: nat, x: nat,
                                             y: nat, w: nat, h: nat)
    requires |data| == width * height * 4 && x + w <= width && y + h <= height
    ensures |Crop(data, width, height, x, y, w, h)| / 4 == w * h
    ensures PixelSums(Crop(data, width, height, x, y, w, h))
         == TileTotals(data, width, height, x, y, w, h)
  {
    CropLength(data, width, height, x, y, w, h);
    CropFits(width, height, x, y, w, h);
    StripTotalsIs(data, 4 * width, 4 * (y * width + x), w, h);
  }

  /** The tile with top-left corner `(x, y)`: `w = min(blockSize, width - x)`,
      `h = min(blockSize, height - y)`, filled with the floor mean of its pixels if it has any. */
  function TileEffects(data: seq<Byte>, width: nat, height: nat, blockSize: nat, x: nat, y: nat)
    : seq<Effect>
    requires |data| == width * height * 4 && blockSize >= 1 && x < width && y < height
  {
    var w := Min(blockSize, width - x);
    var h := Min(blockSize, height - y);
    var pixelCount := w * h;
    if pixelCount > 0
    then [Draw(FillRect(x, y, w, h,
                        MeanOf(TileTotals(data, width, height, x, y, w, h), pixelCount)))]
    else []
  }

  /** The fills of the tiles at columns `xs` of the tile row at line `y`, in order. */
  function TilesOf(data: seq<Byte>, width: nat, height: nat, blockSize: nat, y: nat,
                   xs: seq<nat>): seq<Effect>
    requires |data| == width * height * 4 && blockSize >= 1 && y < height
    requires forall k :: 0 <= k < |xs| ==> xs[k] < width
    decreases |xs|
  {
    if xs == [] then []
    else TileEffects(data, width, height, blockSize, xs[0], y)
         + TilesOf(data, width, height, blockSize, y, xs[1..])
  }

  /** The fills of the tile row at line `y`, left to right: the inner loop. */
  function RowEffects(data: seq<Byte>, width: nat, height: nat, blockSize: nat, y: nat)
    : seq<Effect>
    requires |data| == width * height * 4 && blockSize >= 1 && y < height
  {
    TilesOf(data, width, height, blockSize, y, Steps(width, blockSize, 0))
  }

  /** The tile rows at lines `ys`, in order. */
  function RowsOf(data: seq<Byte>, width: nat, height: nat, blockSize: nat, ys: seq<nat>)
    : (rows: seq<seq<Effect>>)
    requires |data| == width * height * 4 && blockSize >= 1
    requires forall k :: 0 <= k < |ys| ==> ys[k] < height
    ensures |rows| == |ys|
    decreases |ys|
  {
    if ys == [] then []
    else [RowEffects(data, width, height, blockSize, ys[0])]
         + RowsOf(data, width, height, blockSize, ys[1..])
  }

  /** Row `k` is the tile row at line `ys[k]`. */
  lemma {:induction false} RowsOfAt(data: seq<Byte>, width: nat, height: nat, blockSize: nat,
                                    ys: seq<nat>)
    requires |data| == width * height * 4 && blockSize >= 1
    requires forall k :: 0 <= k < |ys| ==> ys[k] < height
    ensures forall k :: 0 <= k < |ys| ==>
      RowsOf(data, width, height, blockSize, ys)[k]
      == RowEffects(data, width, height, blockSize, ys[k])
    decreases |ys|
  {
    if ys != [] {
      var rows := RowsOf(data, width, height, blockSize, ys);
      RowsOfAt(data, width, height, blockSize, ys[1..]);
      forall k | 0 <= k < |ys|
        ensures rows[k] == RowEffects(data, width, height, blockSize, ys[k])
      {
        if k > 0 {
          assert rows[k] == RowsOf(data, width, height, blockSize, ys[1..])[k - 1];
        }
      }
    }
  }

  /** The fills of every tile row, top to bottom: the outer loop. */
  function RowList(data: seq<Byte>, width: nat, height: nat, blockSize: nat)
    : seq<seq<Effect>>
    requires |data| == width * height * 4 && blockSize >= 1
  {
    RowsOf(data, width, height, blockSize, Steps(height, blockSize, 0))
  }

  /** The rows `rows`, the first of them the `row`-th of `totalRows`: each row's fills,
      `onProgress((row + 1) / totalRows)` and a yield, unless `isCancelled()` says otherwise
      before the row starts. */
  function MosaicFrom(rows: seq<seq<Effect>>, totalRows: nat, isCancelled: nat -> bool,
                      row: nat): Run
    requires row + |rows| == totalRows
    decreases |rows|
  {
    if rows == [] then Run([], true, row, row)
    else if isCancelled(row) then Run([], false, row, row)
    else
      var rest := MosaicFrom(rows[1..], totalRows, isCancelled, row + 1);
      Run(rows[0] + [Progress((row + 1) as real / totalRows as real), Yield] + rest.effects,
          rest.completed, rest.yieldCount, rest.steps)
  }

  /** The whole of `reconstructAsMosaic`, with `totalRows = ceil(height / blockSize)`. */
  function MosaicRun(data: seq<Byte>, width: nat, height: nat, blockSize: nat,
                     isCancelled: nat -> bool): Run
    requires |data| == width * height * 4 && blockSize >= 1
  {
    StepsCount(height, blockSize, 0);
    MosaicFrom(RowList(data, width, height, blockSize), CeilDiv(height, blockSize),
               isCancelled, 0)
  }

  /** The tiles of a row are single fills, in column order. */
  lemma {:induction false} TilesOfFills(data: seq<Byte>, width: nat, height: nat,
                                        blockSize: nat, y: nat, xs: seq<nat>)
    requires |data| == width * height * 4 && blockSize >= 1 && y < height
    requires forall k :: 0 <= k < |xs| ==> xs[k] < width
    ensures |TilesOf(data, width, height, blockSize, y, xs)| == |xs|
    ensures forall k :: 0 <= k < |xs| ==>
      TilesOf(data, width, height, blockSize, y, xs)[k]
      == Draw(TileFill(data, width, height, blockSize, xs[k], y))
    decreases |xs|
  {
    if xs != [] {
      var rest := TilesOf(data, width, height, blockSize, y, xs[1..]);
      TilesOfFills(data, width, height, blockSize, y, xs[1..]);
      TileFilled(data, width, height, blockSize, xs[0], y);
      forall k | 0 <= k < |xs|
        ensures TilesOf(data, width, height, blockSize, y, xs)[k]
             == Draw(TileFill(data, width, height, blockSize, xs[k], y))
      {
        if k > 0 {
          assert TilesOf(data, width, height, blockSize, y, xs)[k] == rest[k - 1];
          assert xs[1..][k - 1] == xs[k];
        }
      }
    }
  }


  lemma {:induction false} Associative(a: seq<Effect>, b: seq<Effect>, c: seq<Effect>)
    ensures a + (b + c) == (a + b) + c
  {
  }

  // ---------------------------------------------------------------------------------------
  // The loops
  // ---------------------------------------------------------------------------------------

  /** The accumulation loop over the bytes of a tile. */
  method ChannelSums(region: seq<Byte>) returns (r: nat, g: nat, b: nat)
    requires |region| % 4 == 0
    ensures Totals(r, g, b) == PixelSums(region)
  {
    r, g, b := 0, 0, 0;
    var i := 0;
    while i < |region|
      invariant 0 <= i <= |region| && i % 4 == 0
      invariant Totals(r, g, b) == PixelSums(region[..i])
    {
      SumsStep(region, i, r, g, b);
      r := r + region[i];
      g := g + region[i + 1];
      b := b + region[i + 2];
      i := i + 4;
    }
    assert region[..i] == region;
  }

  lemma {:induction false} SumsStep(region: seq<Byte>, i: nat, r: nat, g: nat, b: nat)
    requires |region| % 4 == 0 && i % 4 == 0 && i < |region|
    requires Totals(r, g, b) == PixelSums(region[..i])
    ensures i + 4 <= |region|
    ensures Totals(r + region[i], g + region[i + 1], b + region[i + 2])
         == PixelSums(region[..i + 4])
  {
    var px := region[i..i + 4];
    assert region[..i + 4] == region[..i] + px;
    PixelSumsAppend(region[..i], px);
    assert px[4..] == [];
  }

  /** The body of the inner loop: the tile at `(x, y)`, filled with the floor mean of the
      pixels `getImageData` returned, if it returned any. */
  method DrawTile(data: seq<Byte>, width: nat, height: nat, blockSize: nat, x: nat, y: nat)
    returns (fill: seq<Effect>)
    requires |data| == width * height * 4 && blockSize >= 1 && x < width && y < height
    ensures fill == TileEffects(data, width, height, blockSize, x, y)
  {
    var w := Min(blockSize, width - x);
    var h := Min(blockSize, height - y);
    var region := Crop(data, width, height, x, y, w, h);
    CropLength(data, width, height, x, y, w, h);
    TileTotalsAreCrop(data, width, height, x, y, w, h);
    var r, g, b := ChannelSums(region);
    var pixelCount := |region| / 4;
    fill := [];
    if pixelCount > 0 {
      FloorDivQuotient(r, pixelCount);
      FloorDivQuotient(g, pixelCount);
      FloorDivQuotient(b, pixelCount);
      fill := [Draw(FillRect(x, y, w, h, Rgb(r / pixelCount, g / pixelCount, b / pixelCount)))];
    }
  }

  /** One pass of the inner loop keeps its invariant. */
  lemma {:induction false} InnerStep(data: seq<Byte>, width: nat, height: nat, blockSize: nat,
                                     y: nat, x: nat, whole: seq<Effect>, fills: seq<Effect>,
                                     fill: seq<Effect>)
    requires |data| == width * height * 4 && blockSize >= 1 && x < width && y < height
    requires whole == fills + TilesOf(data, width, height, blockSize, y,
                                      Steps(width, blockSize, x))
    requires fill == TileEffects(data, width, height, blockSize, x, y)
    ensures whole == (fills + fill) + TilesOf(data, width, height, blockSize, y,
                                              Steps(width, blockSize, x + blockSize))
  {
    var xs := Steps(width, blockSize, x);
    assert xs[1..] == Steps(width, blockSize, x + blockSize);
    Associative(fills, fill, TilesOf(data, width, height, blockSize, y, xs[1..]));
  }

  /** The inner loop: the tiles of the row at `y`, left to right. */
  method DrawRow(data: seq<Byte>, width: nat, height: nat, blockSize: nat, y: nat)
    returns (fills: seq<Effect>)
    requires |data| == width * height * 4 && blockSize >= 1 && y < height
    ensures fills == RowEffects(data, width, height, blockSize, y)
  {
    ghost var whole := RowEffects(data, width, height, blockSize, y);
    fills := [];
    var x := 0;
    assert [] + whole == whole;
    while x < width
      invariant whole == fills + TilesOf(data, width, height, blockSize, y,
                                         Steps(width, blockSize, x))
      decreases width - x
    {
      var fill := DrawTile(data, width, height, blockSize, x, y);
      InnerStep(data, width, height, blockSize, y, x, whole, fills, fill);
      fills := fills + fill;
      x := x + blockSize;
    }
    assert fills + [] == fills;
  }

  /** Drawing the first of `rows` and reporting it keeps the outer loop's invariant. */
  lemma {:induction false} RowStep(rows: seq<seq<Effect>>, totalRows: nat,
                                   isCancelled: nat -> bool, row: nat, whole: seq<Effect>,
                                   trace: seq<Effect>, fills: seq<Effect>)
    requires rows != [] && row + |rows| == totalRows && !isCancelled(row)
    requires trace + MosaicFrom(rows, totalRows, isCancelled, row).effects == whole
    requires fills == rows[0]
    ensures trace + fills + [Progress((row + 1) as real / totalRows as real), Yield]
            + MosaicFrom(rows[1..], totalRows, isCancelled, row + 1).effects
         == whole
  {
    var rest := MosaicFrom(rows[1..], totalRows, isCancelled, row + 1).effects;
    var progress := [Progress((row + 1) as real / totalRows as real), Yield];
    MosaicUnfold(rows, totalRows, isCancelled, row);
    Associative(trace, fills + progress, rest);
    Associative(trace, fills, progress);
  }

  /** One pass of the outer loop that `isCancelled()` let through: the row's tiles, then
      `onProgress(currentRow / totalRows)` and a yield. */
  method PaintRow(data: seq<Byte>, width: nat, height: nat, blockSize: nat,
                  isCancelled: nat -> bool, y: nat, row: nat, totalRows: nat,
                  ghost rows: seq<seq<Effect>>, ghost whole: seq<Effect>, trace: seq<Effect>)
    returns (trace': seq<Effect>)
    requires |data| == width * height * 4 && blockSize >= 1 && y < height
    requires row < |rows| == totalRows && rows[row] == RowEffects(data, width, height, blockSize, y)
    requires !isCancelled(row)
    requires trace + MosaicFrom(rows[row..], totalRows, isCancelled, row).effects == whole
    ensures trace' + MosaicFrom(rows[row + 1..], totalRows, isCancelled, row + 1).effects == whole
  {
    var fills := DrawRow(data, width, height, blockSize, y);
    assert rows[row..][1..] == rows[row + 1..];
    RowStep(rows[row..], totalRows, isCancelled, row, whole, trace, fills);
    trace' := trace + fills + [Progress((row + 1) as real / totalRows as real), Yield];
  }

  method ReconstructAsMosaic(data: seq<Byte>, width: nat, height: nat, blockSize: nat,
                             isCancelled: nat -> bool) returns (trace: seq<Effect>)
    requires |data| == width * height * 4 && blockSize >= 1
    ensures trace == MosaicRun(data, width, height, blockSize, isCancelled).effects
  {
    var totalRows := CeilDiv(height, blockSize);
    ghost var rows := RowList(data, width, height, blockSize);
    ghost var whole := MosaicRun(data, width, height, blockSize, isCancelled).effects;
    RowListShape(data, width, height, blockSize);
    assert rows[0..] == rows;
    var currentRow := 0;
    var y := 0;
    trace := [];
    while y < height
      invariant currentRow <= totalRows && y == currentRow * blockSize
      invariant trace + MosaicFrom(rows[currentRow..], totalRows, isCancelled, currentRow).effects
             == whole
      decreases height - y
    {
      CeilDivBound(height, blockSize, currentRow);
      if isCancelled(currentRow) {
        MosaicStops(rows[currentRow..], totalRows, isCancelled, currentRow, whole, trace);
        return;
      }
      trace := PaintRow(data, width, height, blockSize, isCancelled, y, currentRow, totalRows,
                        rows, whole, trace);
      MulSucc(currentRow, blockSize);
      currentRow := currentRow + 1;
      y := y + blockSize;
    }
    CeilDivBound(height, blockSize, currentRow);
    MosaicStops(rows[currentRow..], totalRows, isCancelled, currentRow, whole, trace);
  }

  lemma {:induction false} MosaicStops(rows: seq<seq<Effect>>, totalRows: nat,
                                       isCancelled: nat -> bool, row: nat, whole: seq<Effect>,
                                       trace: seq<Effect>)
    requires row + |rows| == totalRows && (rows == [] || isCancelled(row))
    requires trace + MosaicFrom(rows, totalRows, isCancelled, row).effects == whole
    ensures trace == whole
  {
    MosaicStopsEmpty(rows, totalRows, isCancelled, row);
    assert trace + [] == trace;
  }

  // ---------------------------------------------------------------------------------------
  // Tiling
  // ---------------------------------------------------------------------------------------

  /** Along one axis of length `n`, the tile starting at `t * blockSize` and of extent
      `min(blockSize, n - t * blockSize)` holds exactly the coordinates `p` with
      `p / blockSize == t`. */
  lemma {:induction false} AxisTile(n: nat, blockSize: nat, t: nat, p: nat)
    requires blockSize >= 1 && t * blockSize < n && p < n
    ensures var start := t * blockSize;
      (start <= p < start + Min(blockSize, n - start)) <==> p / blockSize == t
  {
    FloorDivBounds(p, blockSize, 0);
    if t * blockSize <= p < t * blockSize + blockSize {
      DivUnique(p, blockSize, t);
    }
  }

  /** The tile `(tx, ty)` is non-empty, lies inside the image, and holds exactly the pixels
      `(px, py)` with `px / blockSize == tx` and `py / blockSize == ty`; so the tiles are
      pairwise disjoint and together cover every pixel. */
  lemma {:induction false} TileGeometry(width: nat, height: nat, blockSize: nat, tx: nat, ty: nat)
    requires blockSize >= 1 && tx * blockSize < width && ty * blockSize < height
    ensures var x, y := tx * blockSize, ty * blockSize;
      var w, h := Min(blockSize, width - x), Min(blockSize, height - y);
      && 1 <= w <= blockSize && 1 <= h <= blockSize && x + w <= width && y + h <= height
      && forall px, py :: 0 <= px < width && 0 <= py < height ==>
           ((x <= px < x + w && y <= py < y + h) <==> (px / blockSize == tx && py / blockSize == ty))
  {
    forall px, py | 0 <= px < width && 0 <= py < height
      ensures var x, y := tx * blockSize, ty * blockSize;
              ((x <= px < x + Min(blockSize, width - x) && y <= py < y + Min(blockSize, height - y))
               <==> (px / blockSize == tx && py / blockSize == ty))
    {
      AxisTile(width, blockSize, tx, px);
      AxisTile(height, blockSize, ty, py);
    }
  }

  /** The fill of the tile at `(x, y)`. */
  function TileFill(data: seq<Byte>, width: nat, height: nat, blockSize: nat, x: nat, y: nat)
    : Command
    requires |data| == width * height * 4 && blockSize >= 1 && x < width && y < height
  {
    var w, h := Min(blockSize, width - x), Min(blockSize, height - y);
    MulMonotone(1, h, w);
    FillRect(x, y, w, h, MeanOf(TileTotals(data, width, height, x, y, w, h), w * h))
  }

  /** Every tile has pixels, so every tile is filled, and with the floor mean colour of the
      bytes `getImageData` returns for it. */
  lemma {:induction false} TileFilled(data: seq<Byte>, width: nat, height: nat, blockSize: nat, x: nat, y: nat)
    requires |data| == width * height * 4 && blockSize >= 1 && x < width && y < height
    ensures TileEffects(data, width, height, blockSize, x, y)
         == [Draw(TileFill(data, width, height, blockSize, x, y))]
    ensures var w, h := Min(blockSize, width - x), Min(blockSize, height - y);
      var region := Crop(data, width, height, x, y, w, h);
      |region| / 4 > 0 && TileFill(data, width, height, blockSize, x, y).color == MeanColor(region)
  {
    var w, h := Min(blockSize, width - x), Min(blockSize, height - y);
    MulMonotone(1, h, w);
    TileTotalsAreCrop(data, width, height, x, y, w, h);
  }

  /** A tile row: `ceil(width / blockSize)` fills in column order, the `tx`-th one the tile
      starting at column `tx * blockSize`. */
  lemma {:induction false} RowTiles(data: seq<Byte>, width: nat, height: nat, blockSize: nat,
                                    y: nat)
    requires |data| == width * height * 4 && blockSize >= 1 && y < height
    ensures var row := RowEffects(data, width, height, blockSize, y);
      && |row| == CeilDiv(width, blockSize)
      && forall tx :: 0 <= tx < |row| ==>
           && 0 <= tx * blockSize < width
           && row[tx] == Draw(TileFill(data, width, height, blockSize, tx * blockSize, y))
  {
    var xs := Steps(width, blockSize, 0);
    var row := RowEffects(data, width, height, blockSize, y);
    StepsCount(width, blockSize, 0);
    StepsAt(width, blockSize, 0);
    TilesOfFills(data, width, height, blockSize, y, xs);
    assert |row| == |xs|;
    forall tx | 0 <= tx < |row|
      ensures 0 <= tx * blockSize < width
      ensures row[tx] == Draw(TileFill(data, width, height, blockSize, tx * blockSize, y))
    {
      assert xs[tx] == tx * blockSize;
      assert row[tx] == Draw(TileFill(data, width, height, blockSize, xs[tx], y));
    }
  }

  /** The tile rows: `ceil(height / blockSize)` of them, the `ty`-th the row at line
      `ty * blockSize`. */
  lemma {:induction false} RowListShape(data: seq<Byte>, width: nat, height: nat,
                                        blockSize: nat)
    requires |data| == width * height * 4 && blockSize >= 1
    ensures |RowList(data, width, height, blockSize)| == CeilDiv(height, blockSize)
    ensures forall ty :: 0 <= ty < |RowList(data, width, height, blockSize)| ==>
      && 0 <= ty * blockSize < height
      && RowList(data, width, height, blockSize)[ty]
         == RowEffects(data, width, height, blockSize, ty * blockSize)
  {
    var ys := Steps(height, blockSize, 0);
    var rows := RowList(data, width, height, blockSize);
    StepsCount(height, blockSize, 0);
    StepsAt(height, blockSize, 0);
    assert rows == RowsOf(data, width, height, blockSize, ys);
    RowsOfAt(data, width, height, blockSize, ys);
    forall ty | 0 <= ty < |rows|
      ensures 0 <= ty * blockSize < height
      ensures rows[ty] == RowEffects(data, width, height, blockSize, ty * blockSize)
    {
      assert ys[ty] == ty * blockSize;
      assert rows[ty] == RowEffects(data, width, height, blockSize, ys[ty]);
    }
    if height == 0 {
      assert CeilDiv(height, blockSize) == 0;
    }
  }

  /** In a one-colour image every tile is filled with that colour. */
  lemma {:induction false} SolidTile(data: seq<Byte>, width: nat, height: nat, blockSize: nat, x: nat, y: nat,
                  c: Rgb)
    requires |data| == width * height * 4 && blockSize >= 1 && x < width && y < height
    requires Solid(data, c)
    ensures TileFill(data, width, height, blockSize, x, y).color == c
  {
    var w, h := Min(blockSize, width - x), Min(blockSize, height - y);
    TileFilled(data, width, height, blockSize, x, y);
    SolidCrop(data, width, height, x, y, w, h, c);
    SolidMean(Crop(data, width, height, x, y, w, h), c);
  }

  // ---------------------------------------------------------------------------------------
  // Rows, progress and cancellation
  // ---------------------------------------------------------------------------------------

  /** Every effect of `t` is a drawing. */
  predicate AllDraws(t: seq<Effect>) {
    forall j :: 0 <= j < |t| ==> t[j].Draw?
  }

  /** Every row only draws. */
  predicate RowsOnlyDraw(rows: seq<seq<Effect>>) {
    forall k :: 0 <= k < |rows| ==> AllDraws(rows[k])
  }

  lemma {:induction false} RowDraws(data: seq<Byte>, width: nat, height: nat, blockSize: nat,
                                    y: nat)
    requires |data| == width * height * 4 && blockSize >= 1 && y < height
    ensures AllDraws(RowEffects(data, width, height, blockSize, y))
  {
    RowTiles(data, width, height, blockSize, y);
  }

  lemma {:induction false} RowListDraws(data: seq<Byte>, width: nat, height: nat,
                                        blockSize: nat)
    requires |data| == width * height * 4 && blockSize >= 1
    ensures RowsOnlyDraw(RowList(data, width, height, blockSize))
  {
    var rows := RowList(data, width, height, blockSize);
    RowListShape(data, width, height, blockSize);
    forall k | 0 <= k < |rows| ensures AllDraws(rows[k]) {
      RowDraws(data, width, height, blockSize, k * blockSize);
    }
  }

  /** The run stops at the first row whose poll says cancelled, else after the last row; it
      completes exactly when all rows were drawn. */
  lemma {:induction false} MosaicSteps(rows: seq<seq<Effect>>, totalRows: nat,
                                       isCancelled: nat -> bool, row: nat)
    requires row + |rows| == totalRows
    ensures var r := MosaicFrom(rows, totalRows, isCancelled, row);
      && r.yieldCount == r.steps && row <= r.steps <= totalRows
      && (r.completed <==> r.steps == totalRows)
      && (forall k :: row <= k < r.steps ==> !isCancelled(k))
      && (r.steps < totalRows ==> isCancelled(r.steps))
    decreases |rows|
  {
    if rows != [] && !isCancelled(row) {
      MosaicSteps(rows[1..], totalRows, isCancelled, row + 1);
    }
  }

  /** The progress values reported after rows `from, ..., from + count - 1`. */
  function RowFractions(from: nat, count: nat, totalRows: nat): seq<real>
    requires count == 0 || totalRows > 0
    decreases count
  {
    if count == 0 then []
    else [(from + 1) as real / totalRows as real] + RowFractions(from + 1, count - 1, totalRows)
  }

  lemma {:induction false} RowFractionsCons(from: nat, count: nat, count': nat, totalRows: nat)
    requires totalRows > 0 && count == count' + 1
    ensures RowFractions(from, count, totalRows)
         == [(from + 1) as real / totalRows as real] + RowFractions(from + 1, count', totalRows)
  {
  }

  lemma {:induction false} RowFractionsIndex(from: nat, count: nat, totalRows: nat)
    requires count == 0 || totalRows > 0
    ensures |RowFractions(from, count, totalRows)| == count
    ensures forall k :: 0 <= k < count ==>
      RowFractions(from, count, totalRows)[k] == (from + k + 1) as real / totalRows as real
    decreases count
  {
    if count > 0 {
      RowFractionsIndex(from + 1, count - 1, totalRows);
    }
  }

  /** A row's fills, its progress report and its yield, followed by the rest of the run. */
  lemma {:induction false} RowBlock(draws: seq<Effect>, v: real, rest: seq<Effect>)
    requires AllDraws(draws)
    ensures Yields(draws + [Progress(v), Yield] + rest) == 1 + Yields(rest)
    ensures Progresses(draws + [Progress(v), Yield] + rest) == [v] + Progresses(rest)
  {
    DrawsThenReport(draws, v, rest);
  }

  /** The same, for a row that starts while the run is not cancelled. */
  lemma {:induction false} RowBlockRespects(draws: seq<Effect>, v: real,
                                            isCancelled: nat -> bool, row: nat,
                                            rest: seq<Effect>)
    requires AllDraws(draws)
    requires !isCancelled(row) && RespectsFrom(rest, isCancelled, row + 1)
    ensures RespectsFrom(draws + [Progress(v), Yield] + rest, isCancelled, row)
  {
    DrawsThenReportRespects(draws, v, isCancelled, row, rest);
  }

  /** The rows after the first still only draw. */
  lemma {:induction false} RowsOnlyDrawTail(rows: seq<seq<Effect>>)
    requires rows != [] && RowsOnlyDraw(rows)
    ensures AllDraws(rows[0]) && RowsOnlyDraw(rows[1..])
  {
    forall k | 0 <= k < |rows[1..]| ensures AllDraws(rows[1..][k]) {
      assert rows[1..][k] == rows[k + 1];
    }
  }

  /** From row `row` on the run yields once per row drawn. */
  lemma {:induction false} MosaicYields(rows: seq<seq<Effect>>, totalRows: nat,
                                        isCancelled: nat -> bool, row: nat)
    requires row + |rows| == totalRows && RowsOnlyDraw(rows)
    ensures row <= MosaicFrom(rows, totalRows, isCancelled, row).steps
    ensures Yields(MosaicFrom(rows, totalRows, isCancelled, row).effects)
         == MosaicFrom(rows, totalRows, isCancelled, row).steps - row
    decreases |rows|
  {
    if rows != [] && !isCancelled(row) {
      var rest := MosaicFrom(rows[1..], totalRows, isCancelled, row + 1);
      RowsOnlyDrawTail(rows);
      MosaicYields(rows[1..], totalRows, isCancelled, row + 1);
      MosaicUnfold(rows, totalRows, isCancelled, row);
      RowBlock(rows[0], (row + 1) as real / totalRows as real, rest.effects);
    } else {
      MosaicStopsEmpty(rows, totalRows, isCancelled, row);
    }
  }

  /** After row `k` the run reports `(k + 1) / totalRows`. */
  lemma {:induction false} MosaicReports(rows: seq<seq<Effect>>, totalRows: nat,
                                         isCancelled: nat -> bool, row: nat)
    requires row + |rows| == totalRows && RowsOnlyDraw(rows)
    ensures row <= MosaicFrom(rows, totalRows, isCancelled, row).steps
    ensures Progresses(MosaicFrom(rows, totalRows, isCancelled, row).effects)
         == RowFractions(row, MosaicFrom(rows, totalRows, isCancelled, row).steps - row,
                         totalRows)
    decreases |rows|
  {
    if rows != [] && !isCancelled(row) {
      RowsOnlyDrawTail(rows);
      MosaicReports(rows[1..], totalRows, isCancelled, row + 1);
      MosaicUnfold(rows, totalRows, isCancelled, row);
      var r := MosaicFrom(rows, totalRows, isCancelled, row);
      var rest := MosaicFrom(rows[1..], totalRows, isCancelled, row + 1);
      var v := (row + 1) as real / totalRows as real;
      RowBlock(rows[0], v, rest.effects);
      RowFractionsCons(row, r.steps - row, rest.steps - (row + 1), totalRows);
    } else {
      MosaicStopsEmpty(rows, totalRows, isCancelled, row);
    }
  }

  /** The run draws or reports nothing at a yield count at which it was cancelled. */
  lemma {:induction false} MosaicRespects(rows: seq<seq<Effect>>, totalRows: nat,
                                          isCancelled: nat -> bool, row: nat)
    requires row + |rows| == totalRows && RowsOnlyDraw(rows)
    ensures RespectsFrom(MosaicFrom(rows, totalRows, isCancelled, row).effects, isCancelled,
                         row)
    decreases |rows|
  {
    if rows != [] && !isCancelled(row) {
      var rest := MosaicFrom(rows[1..], totalRows, isCancelled, row + 1).effects;
      RowsOnlyDrawTail(rows);
      MosaicRespects(rows[1..], totalRows, isCancelled, row + 1);
      MosaicUnfold(rows, totalRows, isCancelled, row);
      RowBlockRespects(rows[0], (row + 1) as real / totalRows as real, isCancelled, row, rest);
    } else {
      MosaicStopsEmpty(rows, totalRows, isCancelled, row);
      RespectsEmpty(isCancelled, row);
    }
  }

  lemma {:induction false} MosaicStopsEmpty(rows: seq<seq<Effect>>, totalRows: nat,
                                            isCancelled: nat -> bool, row: nat)
    requires row + |rows| == totalRows && (rows == [] || isCancelled(row))
    ensures MosaicFrom(rows, totalRows, isCancelled, row).effects == []
    ensures MosaicFrom(rows, totalRows, isCancelled, row).steps == row
  {
  }

  /** A row that is drawn, followed by the rest of the run. */
  lemma {:induction false} MosaicUnfold(rows: seq<seq<Effect>>, totalRows: nat,
                                        isCancelled: nat -> bool, row: nat)
    requires row + |rows| == totalRows && rows != [] && !isCancelled(row)
    ensures var r := MosaicFrom(rows, totalRows, isCancelled, row);
      var rest := MosaicFrom(rows[1..], totalRows, isCancelled, row + 1);
      && r.effects == rows[0] + [Progress((row + 1) as real / totalRows as real), Yield]
                      + rest.effects
      && r.steps == rest.steps && r.completed == rest.completed
      && r.yieldCount == rest.yieldCount
  {
  }

  /** The reports after the first `count` of `totalRows` rows: `k / totalRows` after the
      `k`-th, strictly increasing, in `(0, 1]`, and 1 among them exactly when there were rows
      and every one was drawn. */
  lemma {:induction false} RowFractionsShape(count: nat, totalRows: nat)
    requires count <= totalRows
    ensures |RowFractions(0, count, totalRows)| == count
    ensures forall k :: 0 <= k < count ==>
      RowFractions(0, count, totalRows)[k] == (k + 1) as real / totalRows as real
    ensures forall i, j :: 0 <= i < j < count ==>
      RowFractions(0, count, totalRows)[i] < RowFractions(0, count, totalRows)[j]
    ensures forall k :: 0 <= k < count ==>
      0.0 < RowFractions(0, count, totalRows)[k] <= 1.0
    ensures (exists k :: 0 <= k < count && RowFractions(0, count, totalRows)[k] == 1.0)
        <==> 0 < count == totalRows
  {
    var ps := RowFractions(0, count, totalRows);
    RowFractionsIndex(0, count, totalRows);
    forall k | 0 <= k < count ensures 0.0 < ps[k] <= 1.0 && (ps[k] == 1.0 <==> k + 1 == totalRows) {
      RealFraction(k + 1, totalRows);
    }
    forall i, j | 0 <= i < j < count ensures ps[i] < ps[j] {
      RealFractionMonotone(i + 1, j + 1, totalRows);
    }
    if count == totalRows && count > 0 {
      assert ps[count - 1] == 1.0;
    }
  }

  /** `reconstructAsMosaic` stops at the first row whose poll says cancelled, else after the
      last of the `ceil(height / blockSize)` rows; it yields once and reports once per row
      drawn, reporting `k / totalRows` after the `k`-th; and it draws or reports nothing at a
      yield count at which it was cancelled. */
  lemma {:induction false} MosaicRunShape(data: seq<Byte>, width: nat, height: nat,
                                          blockSize: nat, isCancelled: nat -> bool)
    requires |data| == width * height * 4 && blockSize >= 1
    ensures MosaicRun(data, width, height, blockSize, isCancelled).steps
         <= CeilDiv(height, blockSize)
    ensures MosaicRun(data, width, height, blockSize, isCancelled).completed
        <==> forall k :: 0 <= k < CeilDiv(height, blockSize) ==> !isCancelled(k)
    ensures MosaicRun(data, width, height, blockSize, isCancelled).completed
        <==> MosaicRun(data, width, height, blockSize, isCancelled).steps
             == CeilDiv(height, blockSize)
    ensures Yields(MosaicRun(data, width, height, blockSize, isCancelled).effects)
         == MosaicRun(data, width, height, blockSize, isCancelled).steps
    ensures Progresses(MosaicRun(data, width, height, blockSize, isCancelled).effects)
         == RowFractions(0, MosaicRun(data, width, height, blockSize, isCancelled).steps,
                         CeilDiv(height, blockSize))
    ensures RespectsCancellation(MosaicRun(data, width, height, blockSize, isCancelled).effects,
                                 isCancelled)
  {
    var rows := RowList(data, width, height, blockSize);
    var totalRows := CeilDiv(height, blockSize);
    RowListShape(data, width, height, blockSize);
    RowListDraws(data, width, height, blockSize);
    MosaicSteps(rows, totalRows, isCancelled, 0);
    MosaicYields(rows, totalRows, isCancelled, 0);
    MosaicReports(rows, totalRows, isCancelled, 0);
    MosaicRespects(rows, totalRows, isCancelled, 0);
  }

  /** `reconstructAsMosaic`'s progress reports are strictly increasing, all in `(0, 1]`, and
      reach 1 exactly when the run completed on an image with at least one row (an image of
      height 0 completes without any report). */
  lemma {:induction false} MosaicProgress(data: seq<Byte>, width: nat, height: nat, blockSize: nat,
                       isCancelled: nat -> bool)
    requires |data| == width * height * 4 && blockSize >= 1
    ensures forall i, j :: 0 <= i < j < |Progresses(MosaicRun(data, width, height, blockSize,
                                                              isCancelled).effects)| ==>
      Progresses(MosaicRun(data, width, height, blockSize, isCancelled).effects)[i]
      < Progresses(MosaicRun(data, width, height, blockSize, isCancelled).effects)[j]
    ensures forall k :: 0 <= k < |Progresses(MosaicRun(data, width, height, blockSize,
                                                       isCancelled).effects)| ==>
      0.0 < Progresses(MosaicRun(data, width, height, blockSize, isCancelled).effects)[k] <= 1.0
    ensures (exists k :: 0 <= k < |Progresses(MosaicRun(data, width, height, blockSize,
                                                        isCancelled).effects)|
                         && Progresses(MosaicRun(data, width, height, blockSize,
                                                 isCancelled).effects)[k] == 1.0)
        <==> MosaicRun(data, width, height, blockSize, isCancelled).completed && height > 0
  {
    CeilDivBound(height, blockSize, 0);
    MosaicRunShape(data, width, height, blockSize, isCancelled);
    RowFractionsShape(MosaicRun(data, width, height, blockSize, isCancelled).steps,
                      CeilDiv(height, blockSize));
  }

  // ---------------------------------------------------------------------------------------
  // A one-colour image
  // ---------------------------------------------------------------------------------------

  /** Every drawing effect of `t` fills a rectangle with colour `c`. */
  ghost predicate FillsWith(t: seq<Effect>, c: Rgb) {
    forall i :: 0 <= i < |t| && t[i].Draw? ==> t[i].cmd.FillRect? && t[i].cmd.color == c
  }

  lemma {:induction false} FillsWithAppend(a: seq<Effect>, b: seq<Effect>, c: Rgb)
    requires FillsWith(a, c) && FillsWith(b, c)
    ensures FillsWith(a + b, c)
  {
    forall i | 0 <= i < |a + b| && (a + b)[i].Draw?
      ensures (a + b)[i].cmd.FillRect? && (a + b)[i].cmd.color == c
    {
      if i < |a| {
        assert (a + b)[i] == a[i];
      } else {
        assert (a + b)[i] == b[i - |a|];
      }
    }
  }

  /** Every fill of a tile row of a one-colour image has that colour. */
  lemma {:induction false} SolidRow(data: seq<Byte>, width: nat, height: nat, blockSize: nat,
                                    y: nat, c: Rgb)
    requires |data| == width * height * 4 && blockSize >= 1 && y < height
    requires Solid(data, c)
    ensures FillsWith(RowEffects(data, width, height, blockSize, y), c)
  {
    var row := RowEffects(data, width, height, blockSize, y);
    RowTiles(data, width, height, blockSize, y);
    forall t | 0 <= t < |row|
      ensures row[t].Draw? && row[t].cmd.FillRect? && row[t].cmd.color == c
    {
      SolidTile(data, width, height, blockSize, t * blockSize, y, c);
    }
  }

  lemma {:induction false} SolidRows(data: seq<Byte>, width: nat, height: nat, blockSize: nat,
                                     c: Rgb)
    requires |data| == width * height * 4 && blockSize >= 1
    requires Solid(data, c)
    ensures forall k :: 0 <= k < |RowList(data, width, height, blockSize)| ==>
      FillsWith(RowList(data, width, height, blockSize)[k], c)
  {
    var rows := RowList(data, width, height, blockSize);
    RowListShape(data, width, height, blockSize);
    forall k | 0 <= k < |rows| ensures FillsWith(rows[k], c) {
      SolidRow(data, width, height, blockSize, k * blockSize, c);
    }
  }

  lemma {:induction false} SolidMosaicFrom(rows: seq<seq<Effect>>, totalRows: nat,
                                           isCancelled: nat -> bool, row: nat, c: Rgb)
    requires row + |rows| == totalRows
    requires forall k :: 0 <= k < |rows| ==> FillsWith(rows[k], c)
    ensures FillsWith(MosaicFrom(rows, totalRows, isCancelled, row).effects, c)
    decreases |rows|
  {
    if rows != [] && !isCancelled(row) {
      assert forall k :: 0 <= k < |rows[1..]| ==> rows[1..][k] == rows[k + 1];
      SolidMosaicFrom(rows[1..], totalRows, isCancelled, row + 1, c);
      MosaicUnfold(rows, totalRows, isCancelled, row);
      var rest := MosaicFrom(rows[1..], totalRows, isCancelled, row + 1).effects;
      var tail := [Progress((row + 1) as real / totalRows as real), Yield];
      assert FillsWith(tail, c);
      FillsWithAppend(rows[0], tail, c);
      FillsWithAppend(rows[0] + tail, rest, c);
    } else {
      MosaicStopsEmpty(rows, totalRows, isCancelled, row);
    }
  }

  /** Every tile of a one-colour image is filled with that colour. */
  lemma {:induction false} SolidMosaic(data: seq<Byte>, width: nat, height: nat, blockSize: nat,
                                       isCancelled: nat -> bool, c: Rgb)
    requires |data| == width * height * 4 && blockSize >= 1
    requires Solid(data, c)
    ensures forall i ::
      (0 <= i < |MosaicRun(data, width, height, blockSize, isCancelled).effects|
       && MosaicRun(data, width, height, blockSize, isCancelled).effects[i].Draw?) ==>
        (MosaicRun(data, width, height, blockSize, isCancelled).effects[i].cmd.FillRect?
         && MosaicRun(data, width, height, blockSize, isCancelled).effects[i].cmd.color == c)
  {
    RowListShape(data, width, height, blockSize);
    SolidRows(data, width, height, blockSize, c);
    SolidMosaicFrom(RowList(data, width, height, blockSize), CeilDiv(height, blockSize),
                    isCancelled, 0, c);
  }
}
