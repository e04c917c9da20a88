/** `reconstructWithPalette`: redraw the image using only the colours of the analysed palette.
    Each pixel's red, green and blue bytes are replaced, in place and row by row, by the
    palette colour nearest to them; the partly converted buffer is put on the canvas, and
    progress reported, once every ten rows, and the finished buffer at the end.

    `Math.sqrt` of the squared distance is monotone, and the squared distances of byte colours
    are integers far apart enough to keep their square roots distinct, so the nearest colour is
    found here with the squared distance itself. */
module PaletteReconstruction {
  import opened Pixels
  import opened Hex
  import opened Analyzer
  import opened Canvas

  /** The rows between two progress reports. */
  const RowsPerBatch := 10

  /** A distance beyond that of any two byte colours, standing for `Infinity`. */
  const Infinity := 3 * 255 * 255 + 1

  // ---------------------------------------------------------------------------------------
  // The palette and the nearest colour
  // ---------------------------------------------------------------------------------------

  /** `palette.map(p => hexToRgb(p.hex)).filter(Boolean)`. */
  function ParsePalette(palette: seq<ColorPaletteItem>): (colors: seq<Rgb>)
    ensures |colors| <= |palette|
    ensures forall k :: 0 <= k < |colors| ==> IsByteColor(colors[k])
  {
    if palette == [] then []
    else
      var first := HexToRgb(palette[0].hex);
      (if first.Some? then [first.value] else []) + ParsePalette(palette[1..])
  }

  /** `c` is the colour of some entry of `palette`. */
  ghost predicate DecodesTo(palette: seq<ColorPaletteItem>, c: Rgb) {
    exists i :: 0 <= i < |palette| && HexToRgb(palette[i].hex) == Some(c)
  }

  /** The parsed colours are exactly those of the well-formed entries. */
  lemma {:induction false} ParsePaletteColors(palette: seq<ColorPaletteItem>, c: Rgb)
    ensures c in ParsePalette(palette) <==> DecodesTo(palette, c)
  {
    if palette != [] {
      ParsePaletteColors(palette[1..], c);
      var first := HexToRgb(palette[0].hex);
      assert ParsePalette(palette)
          == (if first.Some? then [first.value] else []) + ParsePalette(palette[1..]);
      if DecodesTo(palette[1..], c) {
        var i :| 0 <= i < |palette[1..]| && HexToRgb(palette[1..][i].hex) == Some(c);
        assert HexToRgb(palette[i + 1].hex) == Some(c);
      }
      if DecodesTo(palette, c) && first != Some(c) {
        var i :| 0 <= i < |palette| && HexToRgb(palette[i].hex) == Some(c);
        assert i > 0 && HexToRgb(palette[1..][i - 1].hex) == Some(c);
      }
    }
  }

  /** Every entry of a palette written by `analyzeImage` is well formed. */
  lemma {:induction false} ParsePaletteOfHex(palette: seq<ColorPaletteItem>)
    requires forall i :: 0 <= i < |palette| ==> MatchesHexPattern(palette[i].hex)
    ensures |ParsePalette(palette)| == |palette|
    ensures forall i :: 0 <= i < |palette| ==>
      Some(ParsePalette(palette)[i]) == HexToRgb(palette[i].hex)
  {
    if palette != [] {
      ParsePaletteOfHex(palette[1..]);
      var rest := ParsePalette(palette[1..]);
      assert ParsePalette(palette) == [HexToRgb(palette[0].hex).value] + rest;
      forall i | 0 <= i < |palette|
        ensures Some(ParsePalette(palette)[i]) == HexToRgb(palette[i].hex)
      {
        if i > 0 {
          assert palette[1..][i - 1] == palette[i];
        }
      }
    }
  }

  function Square(v: int): nat {
    v * v
  }

  /** The squared Euclidean distance of two colours. */
  function SqDist(c: Rgb, d: Rgb): nat {
    Square(c.r - d.r) + Square(c.g - d.g) + Square(c.b - d.b)
  }

  lemma {:induction false} SquareBound(v: int)
    requires -255 <= v <= 255
    ensures Square(v) <= 255 * 255
  {
    if v >= 0 {
      MulMonotone(v, 255, v);
      MulMonotone(v, 255, 255);
    } else {
      MulMonotone(-v, 255, -v);
      MulMonotone(-v, 255, 255);
    }
  }

  lemma {:induction false} SqDistBelowInfinity(c: Rgb, d: Rgb)
    requires IsByteColor(c) && IsByteColor(d)
    ensures SqDist(c, d) < Infinity
  {
    SquareBound(c.r - d.r);
    SquareBound(c.g - d.g);
    SquareBound(c.b - d.b);
  }

  lemma {:induction false} SqDistZero(c: Rgb, d: Rgb)
    ensures SqDist(c, d) == 0 <==> c == d
  {
    if SqDist(c, d) == 0 {
      SquareZero(c.r - d.r);
      SquareZero(c.g - d.g);
      SquareZero(c.b - d.b);
    }
  }

  lemma {:induction false} SquareZero(v: int)
    requires Square(v) == 0
    ensures v == 0
  {
  }

  /** The index the scan of `findClosestColor` ends on, over the first `n` colours: a colour
      replaces the best so far only when strictly nearer. */
  function NearestIn(colors: seq<Rgb>, c: Rgb, n: nat): (j: nat)
    requires 0 < n <= |colors|
    ensures j < n
  {
    if n == 1 then 0
    else
      var best := NearestIn(colors, c, n - 1);
      if SqDist(c, colors[n - 1]) < SqDist(c, colors[best]) then n - 1 else best
  }

  function Nearest(colors: seq<Rgb>, c: Rgb): (j: nat)
    requires 0 < |colors|
    ensures j < |colors|
  {
    NearestIn(colors, c, |colors|)
  }

  /** `j` is the first of the colours among the first `n` nearest to `c`. */
  ghost predicate FirstNearest(colors: seq<Rgb>, c: Rgb, n: nat, j: nat)
    requires n <= |colors|
  {
    && j < n
    && (forall k :: 0 <= k < n ==> SqDist(c, colors[j]) <= SqDist(c, colors[k]))
    && (forall k :: 0 <= k < j ==> SqDist(c, colors[j]) < SqDist(c, colors[k]))
  }

  lemma {:induction false} NearestInIsFirstNearest(colors: seq<Rgb>, c: Rgb, n: nat)
    requires 0 < n <= |colors|
    ensures FirstNearest(colors, c, n, NearestIn(colors, c, n))
  {
    if n > 1 {
      NearestInIsFirstNearest(colors, c, n - 1);
    }
  }

  /** There is only one first nearest colour. */
  lemma {:induction false} FirstNearestUnique(colors: seq<Rgb>, c: Rgb, n: nat, j: nat, j': nat)
    requires n <= |colors|
    requires FirstNearest(colors, c, n, j) && FirstNearest(colors, c, n, j')
    ensures j == j'
  {
    FirstNearestOrder(colors, c, n, j, j');
    FirstNearestOrder(colors, c, n, j', j);
  }

  lemma {:induction false} FirstNearestOrder(colors: seq<Rgb>, c: Rgb, n: nat, j: nat, k: nat)
    requires n <= |colors| && FirstNearest(colors, c, n, j) && k < n
    ensures SqDist(c, colors[j]) <= SqDist(c, colors[k])
    ensures k < j ==> SqDist(c, colors[j]) < SqDist(c, colors[k])
  {
  }

  /** `Nearest` is the first of the nearest palette colours. */
  lemma {:induction false} NearestIsFirstNearest(colors: seq<Rgb>, c: Rgb)
    requires 0 < |colors|
    ensures FirstNearest(colors, c, |colors|, Nearest(colors, c))
    ensures forall j :: FirstNearest(colors, c, |colors|, j) ==> j == Nearest(colors, c)
  {
    NearestInIsFirstNearest(colors, c, |colors|);
    forall j | FirstNearest(colors, c, |colors|, j) ensures j == Nearest(colors, c) {
      FirstNearestUnique(colors, c, |colors|, j, Nearest(colors, c));
    }
  }

  /** A palette colour is its own nearest colour. */
  lemma {:induction false} NearestOfMember(colors: seq<Rgb>, c: Rgb)
    requires c in colors
    ensures colors[Nearest(colors, c)] == c
  {
    var k :| 0 <= k < |colors| && colors[k] == c;
    NearestIsFirstNearest(colors, c);
    SqDistZero(c, colors[k]);
    SqDistZero(c, colors[Nearest(colors, c)]);
  }

  /** `findClosestColor`. */
  method FindClosestColor(colors: seq<Rgb>, c: Rgb) returns (closest: Rgb)
    requires 0 < |colors| && IsByteColor(c)
    requires forall k :: 0 <= k < |colors| ==> IsByteColor(colors[k])
    ensures closest == colors[Nearest(colors, c)]
  {
    var minDistance := Infinity;
    closest := colors[0];
    ghost var best := 0;
    for k := 0 to |colors|
      invariant k == 0 ==> minDistance == Infinity && best == 0
      invariant k > 0 ==> best == NearestIn(colors, c, k)
                          && minDistance == SqDist(c, colors[best])
      invariant best < |colors| && closest == colors[best]
    {
      var distance := SqDist(c, colors[k]);
      SqDistBelowInfinity(c, colors[k]);
      if distance < minDistance {
        minDistance := distance;
        closest := colors[k];
        best := k;
      }
    }
  }

  // ---------------------------------------------------------------------------------------
  // The buffer, converted pixel by pixel
  // ---------------------------------------------------------------------------------------

  /** A palette to convert to: not empty (the source returns before converting anything when
      it is), and made of byte colours. */
  predicate Usable(colors: seq<Rgb>) {
    0 < |colors| && forall k :: 0 <= k < |colors| ==> IsByteColor(colors[k])
  }

  /** Byte `i` of `original` once its first `done` pixels have been converted. */
  function ConvertedByte(original: seq<Byte>, colors: seq<Rgb>, done: nat, i: nat): Byte
    requires |original| % 4 == 0 && i < |original| && Usable(colors)
  {
    if i / 4 < done && i % 4 < 3 then
      ChannelOf(colors[Nearest(colors, PixelColor(original, i / 4))], i % 4)
    else
      original[i]
  }

  /** `original` with its first `done` pixels converted to their nearest palette colours. */
  function Converted(original: seq<Byte>, colors: seq<Rgb>, done: nat): (image: seq<Byte>)
    requires |original| % 4 == 0 && Usable(colors)
    ensures |image| == |original|
  {
    seq(|original|, i requires 0 <= i < |original| => ConvertedByte(original, colors, done, i))
  }

  lemma {:induction false} ByteOfPixel(n: nat, ch: nat)
    requires ch < 4
    ensures (4 * n + ch) / 4 == n && (4 * n + ch) % 4 == ch
  {
  }

  /** Converting pixel `n` next: the buffer still holds its original colour, and writing the
      nearest palette colour over its red, green and blue bytes converts one more pixel. */
  lemma {:induction false} PixelStep(original: seq<Byte>, colors: seq<Rgb>, n: nat, before: seq<Byte>,
                  closest: Rgb, after: seq<Byte>)
    requires |original| % 4 == 0 && Usable(colors) && n < |original| / 4
    requires before == Converted(original, colors, n)
    requires closest == colors[Nearest(colors, PixelColor(original, n))]
    requires 4 * n + 3 < |before|
    requires after == before[4 * n := closest.r as Byte][4 * n + 1 := closest.g as Byte]
                            [4 * n + 2 := closest.b as Byte]
    ensures before[4 * n] == original[4 * n] && before[4 * n + 1] == original[4 * n + 1]
            && before[4 * n + 2] == original[4 * n + 2]
    ensures after == Converted(original, colors, n + 1)
  {
    ByteOfPixel(n, 0);
    ByteOfPixel(n, 1);
    ByteOfPixel(n, 2);
    ByteOfPixel(n, 3);
    var next := Converted(original, colors, n + 1);
    forall i | 0 <= i < |original| ensures after[i] == next[i] {
      if i / 4 != n {
        assert i != 4 * n && i != 4 * n + 1 && i != 4 * n + 2;
      }
    }
  }

  /** `before` with pixel `n` set to the palette colour nearest its original colour. */
  function ConvertPixel(before: seq<Byte>, colors: seq<Rgb>, original: seq<Byte>, n: nat)
    : seq<Byte>
    requires |original| % 4 == 0 && Usable(colors) && n < |original| / 4
    requires 4 * n + 3 < |before|
  {
    var closest := colors[Nearest(colors, PixelColor(original, n))];
    before[4 * n := closest.r as Byte][4 * n + 1 := closest.g as Byte]
          [4 * n + 2 := closest.b as Byte]
  }

  // ---------------------------------------------------------------------------------------
  // The rows and the trace
  // ---------------------------------------------------------------------------------------

  /** The rows from `y` on, `done == y * width` pixels and `yieldCount` yields into the run.
      After each row the buffer is put on the canvas and progress reported if the row number
      is a multiple of ten. */
  function RowsFrom(original: seq<Byte>, width: nat, height: nat, colors: seq<Rgb>,
                    isCancelled: nat -> bool, y: nat, done: nat, yieldCount: nat): Run
    requires |original| == width * height * 4 && Usable(colors)
    requires y <= height && done == y * width
    decreases height - y
  {
    if y >= height then Run([], true, yieldCount, y)
    else if isCancelled(yieldCount) then Run([], false, yieldCount, y)
    else
      var report := RowReport(original, width, height, colors, y, done + width);
      var rest := RowsFrom(original, width, height, colors, isCancelled, y + 1, done + width,
                           if Checkpoint(y, RowsPerBatch) then yieldCount + 1 else yieldCount);
      Run(report + rest.effects, rest.completed, rest.yieldCount, rest.steps)
  }

  /** What follows row `y`, once `done` pixels are converted. */
  function RowReport(original: seq<Byte>, width: nat, height: nat, colors: seq<Rgb>, y: nat,
                     done: nat): seq<Effect>
    requires |original| == width * height * 4 && Usable(colors) && y < height
  {
    if Checkpoint(y, RowsPerBatch) then
      [Draw(PutImage(Converted(original, colors, done))), Progress(y as real / height as real),
       Yield]
    else []
  }

  function Rows(original: seq<Byte>, width: nat, height: nat, colors: seq<Rgb>,
                isCancelled: nat -> bool): Run
    requires |original| == width * height * 4 && Usable(colors)
  {
    RowsFrom(original, width, height, colors, isCancelled, 0, 0, 0)
  }

  /** The whole of `reconstructWithPalette` as written: nothing at all for a palette with no
      well-formed colour; else the rows, then the final `putImageData` and `onProgress(1)`
      once all rows are done, without another poll. */
  function PaletteTrace(original: seq<Byte>, width: nat, height: nat,
                        palette: seq<ColorPaletteItem>, isCancelled: nat -> bool): seq<Effect>
    requires |original| == width * height * 4
  {
    var colors := ParsePalette(palette);
    if colors == [] then []
    else
      var rows := Rows(original, width, height, colors, isCancelled);
      rows.effects
      + (if rows.completed
         then [Draw(PutImage(Converted(original, colors, width * height))), Progress(1.0)]
         else [])
  }

  /** The same with `isCancelled()` polled once more before the final output. */
  function PaletteTraceGuarded(original: seq<Byte>, width: nat, height: nat,
                               palette: seq<ColorPaletteItem>, isCancelled: nat -> bool)
    : seq<Effect>
    requires |original| == width * height * 4
  {
    var colors := ParsePalette(palette);
    if colors == [] then []
    else
      var rows := Rows(original, width, height, colors, isCancelled);
      rows.effects
      + (if rows.completed && !isCancelled(rows.yieldCount)
         then [Draw(PutImage(Converted(original, colors, width * height))), Progress(1.0)]
         else [])
  }

  /** The buffer when `reconstructWithPalette` returns: the rows it finished converted. */
  function PaletteImage(original: seq<Byte>, width: nat, height: nat,
                        palette: seq<ColorPaletteItem>, isCancelled: nat -> bool): seq<Byte>
    requires |original| == width * height * 4
  {
    var colors := ParsePalette(palette);
    if colors == [] then original
    else Converted(original, colors, Rows(original, width, height, colors, isCancelled).steps
                                     * width)
  }

  // ---------------------------------------------------------------------------------------
  // The loop, in place
  // ---------------------------------------------------------------------------------------

  /** Pixel `(x, y)` is pixel `done + x`, inside the buffer. */
  lemma {:induction false} PixelInBuffer(width: nat, height: nat, y: nat, x: nat, done: nat)
    requires y < height && x < width && done == y * width
    ensures (y * width + x) * 4 == 4 * (done + x)
    ensures done + x < (width * height * 4) / 4
    ensures 4 * (done + x) + 3 < width * height * 4
  {
    RowInBounds(width, height, y, x, 1);
    QuarterOf(width * height);
  }

  /** Where the loop leaves: the trace is that of the whole run, which stopped at row `y`. */
  lemma {:induction false} RowsEnd(original: seq<Byte>, width: nat, height: nat, colors: seq<Rgb>,
                isCancelled: nat -> bool, whole: Run, y: nat, done: nat, yieldCount: nat,
                trace: seq<Effect>)
    requires |original| == width * height * 4 && Usable(colors)
    requires y <= height && done == y * width
    requires y == height || isCancelled(yieldCount)
    requires whole == After(trace, RowsFrom(original, width, height, colors, isCancelled, y,
                                            done, yieldCount))
    ensures trace == whole.effects && whole.steps == y && whole.completed == (y == height)
  {
    assert trace + [] == trace;
  }

  lemma {:induction false} RowStep(original: seq<Byte>, width: nat, height: nat, colors: seq<Rgb>,
                                   isCancelled: nat -> bool, y: nat, done: nat,
                                   yieldCount: nat, trace: seq<Effect>)
    requires |original| == width * height * 4 && Usable(colors)
    requires y < height && done == y * width && !isCancelled(yieldCount)
    ensures done + width == (y + 1) * width
    ensures After(trace, RowsFrom(original, width, height, colors, isCancelled, y, done,
                                  yieldCount))
         == After(trace + RowReport(original, width, height, colors, y, done + width),
                  RowsFrom(original, width, height, colors, isCancelled, y + 1, done + width,
                           if Checkpoint(y, RowsPerBatch) then yieldCount + 1 else yieldCount))
  {
    var report := RowReport(original, width, height, colors, y, done + width);
    var rest := RowsFrom(original, width, height, colors, isCancelled, y + 1, done + width,
                         if Checkpoint(y, RowsPerBatch) then yieldCount + 1 else yieldCount);
    assert trace + (report + rest.effects) == trace + report + rest.effects;
  }

  /** One pass of the inner loop: the pixel at byte offset `i`, pixel `n` of the image, set to
      the palette colour nearest its colour. */
  method ConvertPixelAt(data: array<Byte>, colors: seq<Rgb>, i: nat, ghost original: seq<Byte>,
                        ghost n: nat)
    requires |original| == data.Length && |original| % 4 == 0 && Usable(colors)
    requires n < |original| / 4 && i == 4 * n && i + 3 < data.Length
    requires data[..] == Converted(original, colors, n)
    modifies data
    ensures data[..] == Converted(original, colors, n + 1)
  {
    ghost var before := data[..];
    PixelStep(original, colors, n, before, colors[Nearest(colors, PixelColor(original, n))],
              ConvertPixel(before, colors, original, n));
    var closest := FindClosestColor(colors, Rgb(data[i], data[i + 1], data[i + 2]));
    assert closest == colors[Nearest(colors, PixelColor(original, n))];
    data[i] := closest.r;
    ghost var step: seq<Byte> := before[i := closest.r as Byte];
    assert data[..] == step;
    data[i + 1] := closest.g;
    step := step[i + 1 := closest.g as Byte];
    assert data[..] == step;
    data[i + 2] := closest.b;
    assert data[..] == ConvertPixel(before, colors, original, n);
  }

  /** The inner loop of `reconstructWithPalette`: row `y` converted in place. */
  method ConvertRow(data: array<Byte>, width: nat, height: nat, colors: seq<Rgb>, y: nat,
                    ghost original: seq<Byte>, ghost done: nat)
    requires data.Length == width * height * 4 && |original| == data.Length
    requires Usable(colors) && y < height && done == y * width
    requires data[..] == Converted(original, colors, done)
    modifies data
    ensures data[..] == Converted(original, colors, done + width)
  {
    var x := 0;
    while x < width
      invariant x <= width
      invariant data[..] == Converted(original, colors, done + x)
      decreases width - x
    {
      PixelInBuffer(width, height, y, x, done);
      ConvertPixelAt(data, colors, (y * width + x) * 4, original, done + x);
      x := x + 1;
    }
  }

  /** The row loop of `reconstructWithPalette`, converting `data` in place; it returns the
      run's trace and where it stopped. */
  method ConvertRows(data: array<Byte>, width: nat, height: nat, colors: seq<Rgb>,
                     isCancelled: nat -> bool) returns (run: Run)
    requires data.Length == width * height * 4 && Usable(colors)
    modifies data
    ensures run == Rows(old(data[..]), width, height, colors, isCancelled)
    ensures data[..] == Converted(old(data[..]), colors, run.steps * width)
  {
    ghost var original := data[..];
    ghost var whole := Rows(original, width, height, colors, isCancelled);
    var trace: seq<Effect> := [];
    var yieldCount := 0;
    var y := 0;
    ghost var done := 0;
    while y < height
      invariant y <= height && done == y * width
      invariant data[..] == Converted(original, colors, done)
      invariant whole == After(trace, RowsFrom(original, width, height, colors, isCancelled,
                                               y, done, yieldCount))
      decreases height - y
    {
      if isCancelled(yieldCount) {
        RowsEnd(original, width, height, colors, isCancelled, whole, y, done, yieldCount, trace);
        return Run(trace, false, yieldCount, y);
      }
      ConvertRow(data, width, height, colors, y, original, done);
      RowStep(original, width, height, colors, isCancelled, y, done, yieldCount, trace);
      var report: seq<Effect> := [];
      if y % RowsPerBatch == 0 {
        report := [Draw(PutImage(data[..])), Progress(y as real / height as real), Yield];
        yieldCount := yieldCount + 1;
      }
      assert report == RowReport(original, width, height, colors, y, done + width);
      trace := trace + report;
      y := y + 1;
      done := done + width;
    }
    RowsEnd(original, width, height, colors, isCancelled, whole, y, done, yieldCount, trace);
    run := Run(trace, true, yieldCount, y);
  }

  /** The outcome of both variants once the row loop has returned `run`. */
  lemma {:induction false} PaletteOutcome(original: seq<Byte>, width: nat, height: nat,
                                          palette: seq<ColorPaletteItem>,
                                          isCancelled: nat -> bool, run: Run)
    requires |original| == width * height * 4 && ParsePalette(palette) != []
    requires run == Rows(original, width, height, ParsePalette(palette), isCancelled)
    ensures PaletteImage(original, width, height, palette, isCancelled)
         == Converted(original, ParsePalette(palette), run.steps * width)
    ensures run.completed ==> run.steps * width == width * height
    ensures PaletteTrace(original, width, height, palette, isCancelled)
         == run.effects
            + if run.completed
              then [Draw(PutImage(Converted(original, ParsePalette(palette), width * height))),
                    Progress(1.0)]
              else []
    ensures PaletteTraceGuarded(original, width, height, palette, isCancelled)
         == run.effects
            + if run.completed && !isCancelled(run.yieldCount)
              then [Draw(PutImage(Converted(original, ParsePalette(palette), width * height))),
                    Progress(1.0)]
              else []
  {
    PaletteRunShape(original, width, height, ParsePalette(palette), isCancelled);
  }

  /** `reconstructWithPalette` as written, on the decoded `imageData.data`, which it converts
      in place. */
  method ReconstructWithPalette(data: array<Byte>, width: nat, height: nat,
                                palette: seq<ColorPaletteItem>, isCancelled: nat -> bool)
    returns (trace: seq<Effect>)
    requires data.Length == width * height * 4
    modifies data
    ensures trace == PaletteTrace(old(data[..]), width, height, palette, isCancelled)
    ensures data[..] == PaletteImage(old(data[..]), width, height, palette, isCancelled)
  {
    var colors := ParsePalette(palette);
    if |colors| == 0 {
      return [];
    }
    ghost var original := data[..];
    var rows := ConvertRows(data, width, height, colors, isCancelled);
    PaletteOutcome(original, width, height, palette, isCancelled, rows);
    trace := rows.effects;
    if rows.completed {
      trace := trace + [Draw(PutImage(data[..])), Progress(1.0)];
    }
  }

  /** `reconstructWithPalette` with the final output guarded by one more poll. */
  method ReconstructWithPaletteGuarded(data: array<Byte>, width: nat, height: nat,
                                       palette: seq<ColorPaletteItem>,
                                       isCancelled: nat -> bool)
    returns (trace: seq<Effect>)
    requires data.Length == width * height * 4
    modifies data
    ensures trace == PaletteTraceGuarded(old(data[..]), width, height, palette, isCancelled)
    ensures data[..] == PaletteImage(old(data[..]), width, height, palette, isCancelled)
  {
    var colors := ParsePalette(palette);
    if |colors| == 0 {
      return [];
    }
    ghost var original := data[..];
    var rows := ConvertRows(data, width, height, colors, isCancelled);
    PaletteOutcome(original, width, height, palette, isCancelled, rows);
    trace := rows.effects;
    if rows.completed && !isCancelled(rows.yieldCount) {
      trace := trace + [Draw(PutImage(data[..])), Progress(1.0)];
    }
  }

  // ---------------------------------------------------------------------------------------
  // The converted image
  // ---------------------------------------------------------------------------------------

  /** A converted pixel takes the first nearest palette colour, an unconverted one keeps its
      colour, and no alpha byte changes. */
  lemma {:induction false} ConvertedPixel(original: seq<Byte>, colors: seq<Rgb>, done: nat, p: nat)
    requires |original| % 4 == 0 && Usable(colors) && p < |original| / 4
    ensures p < |Converted(original, colors, done)| / 4
    ensures p < done ==> PixelColor(Converted(original, colors, done), p)
                         == colors[Nearest(colors, PixelColor(original, p))]
    ensures p >= done ==> PixelColor(Converted(original, colors, done), p)
                          == PixelColor(original, p)
    ensures Converted(original, colors, done)[4 * p + 3] == original[4 * p + 3]
  {
    ByteOfPixel(p, 0);
    ByteOfPixel(p, 1);
    ByteOfPixel(p, 2);
    ByteOfPixel(p, 3);
  }

  /** Every converted pixel has a colour of the palette, the first nearest to its own. */
  lemma {:induction false} ConvertedInPalette(original: seq<Byte>, width: nat, height: nat,
                           palette: seq<ColorPaletteItem>, done: nat, p: nat)
    requires |original| == width * height * 4 && Usable(ParsePalette(palette))
    requires p < done && p < width * height
    ensures p < |Converted(original, ParsePalette(palette), done)| / 4
    ensures DecodesTo(palette, PixelColor(Converted(original, ParsePalette(palette), done), p))
    ensures FirstNearest(ParsePalette(palette), PixelColor(original, p),
                         |ParsePalette(palette)|,
                         Nearest(ParsePalette(palette), PixelColor(original, p)))
  {
    var colors := ParsePalette(palette);
    QuarterOf(width * height);
    ConvertedPixel(original, colors, done, p);
    NearestIsFirstNearest(colors, PixelColor(original, p));
    ParsePaletteColors(palette, colors[Nearest(colors, PixelColor(original, p))]);
  }

  /** Converting an already converted image changes nothing. */
  lemma {:induction false} ConvertedIdempotent(original: seq<Byte>, colors: seq<Rgb>, done: nat)
    requires |original| % 4 == 0 && Usable(colors)
    ensures Converted(Converted(original, colors, done), colors, done)
         == Converted(original, colors, done)
  {
    var once := Converted(original, colors, done);
    var twice := Converted(once, colors, done);
    forall i | 0 <= i < |original| ensures twice[i] == once[i] {
      if i / 4 < done && i % 4 < 3 {
        var p := i / 4;
        ConvertedPixel(original, colors, done, p);
        NearestOfMember(colors, PixelColor(once, p));
        assert PixelColor(once, p) == colors[Nearest(colors, PixelColor(original, p))];
      }
    }
  }

  // ---------------------------------------------------------------------------------------
  // The shape of a run
  // ---------------------------------------------------------------------------------------

  lemma {:induction false} RowsUnfold(original: seq<Byte>, width: nat, height: nat, colors: seq<Rgb>,
                   isCancelled: nat -> bool, y: nat, done: nat, yieldCount: nat)
    requires |original| == width * height * 4 && Usable(colors)
    requires y < height && done == y * width && !isCancelled(yieldCount)
    ensures done + width == (y + 1) * width
    ensures var r := RowsFrom(original, width, height, colors, isCancelled, y, done,
                              yieldCount);
      var rest := RowsFrom(original, width, height, colors, isCancelled, y + 1, done + width,
                           if Checkpoint(y, RowsPerBatch) then yieldCount + 1 else yieldCount);
      && r.effects == RowReport(original, width, height, colors, y, done + width) + rest.effects
      && r.completed == rest.completed && r.yieldCount == rest.yieldCount
      && r.steps == rest.steps
  {
  }

  lemma {:induction false} RowsStop(original: seq<Byte>, width: nat, height: nat, colors: seq<Rgb>,
                 isCancelled: nat -> bool, y: nat, done: nat, yieldCount: nat)
    requires |original| == width * height * 4 && Usable(colors)
    requires y <= height && done == y * width && (y == height || isCancelled(yieldCount))
    ensures RowsFrom(original, width, height, colors, isCancelled, y, done, yieldCount)
         == Run([], y == height, yieldCount, y)
  {
  }

  lemma {:induction false} RowReportShape(original: seq<Byte>, width: nat, height: nat, colors: seq<Rgb>, y: nat,
                       done: nat, rest: seq<Effect>)
    requires |original| == width * height * 4 && Usable(colors) && y < height
    ensures Yields(RowReport(original, width, height, colors, y, done) + rest)
         == (if Checkpoint(y, RowsPerBatch) then 1 else 0) + Yields(rest)
    ensures Progresses(RowReport(original, width, height, colors, y, done) + rest)
         == (if Checkpoint(y, RowsPerBatch) then [y as real / height as real] else [])
            + Progresses(rest)
  {
    if Checkpoint(y, RowsPerBatch) {
      var put := [Draw(PutImage(Converted(original, colors, done)))];
      assert RowReport(original, width, height, colors, y, done)
          == put + [Progress(y as real / height as real), Yield];
      DrawsThenReport(put, y as real / height as real, rest);
    } else {
      assert RowReport(original, width, height, colors, y, done) + rest == rest;
    }
  }

  lemma {:induction false} RowReportRespects(original: seq<Byte>, width: nat, height: nat, colors: seq<Rgb>,
                          y: nat, done: nat, isCancelled: nat -> bool, yieldCount: nat,
                          rest: seq<Effect>)
    requires |original| == width * height * 4 && Usable(colors) && y < height
    requires !isCancelled(yieldCount)
    requires RespectsFrom(rest, isCancelled,
                          if Checkpoint(y, RowsPerBatch) then yieldCount + 1 else yieldCount)
    ensures RespectsFrom(RowReport(original, width, height, colors, y, done) + rest,
                         isCancelled, yieldCount)
  {
    if Checkpoint(y, RowsPerBatch) {
      var put := [Draw(PutImage(Converted(original, colors, done)))];
      assert RowReport(original, width, height, colors, y, done)
          == put + [Progress(y as real / height as real), Yield];
      DrawsThenReportRespects(put, y as real / height as real, isCancelled, yieldCount, rest);
    } else {
      assert RowReport(original, width, height, colors, y, done) + rest == rest;
    }
  }

  /** The rows stop early exactly when a poll says cancelled, and then at a yield count at
      which the run was cancelled; they yield once per checkpoint row. */
  lemma {:induction false} RowsSteps(original: seq<Byte>, width: nat, height: nat,
                                     colors: seq<Rgb>, isCancelled: nat -> bool, y: nat,
                                     done: nat, yieldCount: nat)
    requires |original| == width * height * 4 && Usable(colors)
    requires y <= height && done == y * width
    ensures var r := RowsFrom(original, width, height, colors, isCancelled, y, done,
                              yieldCount);
      && y <= r.steps <= height
      && r.yieldCount == yieldCount + Yields(r.effects)
      && (r.completed <==> r.steps == height)
      && (!r.completed ==> isCancelled(r.yieldCount))
    decreases height - y
  {
    if y < height && !isCancelled(yieldCount) {
      var yieldCount' := if Checkpoint(y, RowsPerBatch) then yieldCount + 1 else yieldCount;
      RowsUnfold(original, width, height, colors, isCancelled, y, done, yieldCount);
      RowsSteps(original, width, height, colors, isCancelled, y + 1, done + width,
                yieldCount');
      var rest := RowsFrom(original, width, height, colors, isCancelled, y + 1, done + width,
                           yieldCount');
      RowReportShape(original, width, height, colors, y, done + width, rest.effects);
    } else {
      RowsStop(original, width, height, colors, isCancelled, y, done, yieldCount);
    }
  }

  lemma {:induction false} RowsRespect(original: seq<Byte>, width: nat, height: nat,
                                       colors: seq<Rgb>, isCancelled: nat -> bool, y: nat,
                                       done: nat, yieldCount: nat)
    requires |original| == width * height * 4 && Usable(colors)
    requires y <= height && done == y * width
    ensures RespectsFrom(RowsFrom(original, width, height, colors, isCancelled, y, done,
                                  yieldCount).effects, isCancelled, yieldCount)
    decreases height - y
  {
    if y < height && !isCancelled(yieldCount) {
      var yieldCount' := if Checkpoint(y, RowsPerBatch) then yieldCount + 1 else yieldCount;
      RowsUnfold(original, width, height, colors, isCancelled, y, done, yieldCount);
      RowsRespect(original, width, height, colors, isCancelled, y + 1, done + width,
                  yieldCount');
      var rest := RowsFrom(original, width, height, colors, isCancelled, y + 1, done + width,
                           yieldCount');
      RowReportRespects(original, width, height, colors, y, done + width, isCancelled,
                        yieldCount, rest.effects);
    } else {
      RowsStop(original, width, height, colors, isCancelled, y, done, yieldCount);
    }
  }

  /** The rows report `y / height` after each row `y` that is a multiple of ten, and nothing
      else. */
  lemma {:induction false} RowsReports(original: seq<Byte>, width: nat, height: nat,
                                       colors: seq<Rgb>, isCancelled: nat -> bool, y: nat,
                                       done: nat, yieldCount: nat)
    requires |original| == width * height * 4 && Usable(colors)
    requires y <= height && done == y * width
    ensures y <= RowsFrom(original, width, height, colors, isCancelled, y, done,
                          yieldCount).steps
    ensures Progresses(RowsFrom(original, width, height, colors, isCancelled, y, done,
                                yieldCount).effects)
         == CheckpointFractions(y, RowsFrom(original, width, height, colors, isCancelled, y,
                                            done, yieldCount).steps,
                                RowsPerBatch, height)
    decreases height - y
  {
    RowsSteps(original, width, height, colors, isCancelled, y, done, yieldCount);
    if y < height && !isCancelled(yieldCount) {
      var yieldCount' := if Checkpoint(y, RowsPerBatch) then yieldCount + 1 else yieldCount;
      RowsUnfold(original, width, height, colors, isCancelled, y, done, yieldCount);
      RowsReports(original, width, height, colors, isCancelled, y + 1, done + width,
                  yieldCount');
      var rest := RowsFrom(original, width, height, colors, isCancelled, y + 1, done + width,
                           yieldCount');
      RowReportShape(original, width, height, colors, y, done + width, rest.effects);
    } else {
      RowsStop(original, width, height, colors, isCancelled, y, done, yieldCount);
    }
  }

  /** The shape of a whole run: it converts at most `height` rows, all of them exactly when no
      poll said cancelled, and stops only when one did; it draws and reports nothing at a yield
      count at which it was cancelled. */
  lemma {:induction false} PaletteRunShape(original: seq<Byte>, width: nat, height: nat, colors: seq<Rgb>,
                        isCancelled: nat -> bool)
    requires |original| == width * height * 4 && Usable(colors)
    ensures Rows(original, width, height, colors, isCancelled).steps <= height
    ensures Rows(original, width, height, colors, isCancelled).completed
        <==> Rows(original, width, height, colors, isCancelled).steps == height
    ensures !Rows(original, width, height, colors, isCancelled).completed
        ==> isCancelled(Rows(original, width, height, colors, isCancelled).yieldCount)
    ensures Yields(Rows(original, width, height, colors, isCancelled).effects)
         == Rows(original, width, height, colors, isCancelled).yieldCount
    ensures RespectsCancellation(Rows(original, width, height, colors, isCancelled).effects,
                                 isCancelled)
  {
    RowsSteps(original, width, height, colors, isCancelled, 0, 0, 0);
    RowsRespect(original, width, height, colors, isCancelled, 0, 0, 0);
  }

  /** The progress values `reconstructWithPalette` reports. */
  function PaletteReports(original: seq<Byte>, width: nat, height: nat,
                          palette: seq<ColorPaletteItem>, isCancelled: nat -> bool): seq<real>
    requires |original| == width * height * 4
  {
    Progresses(PaletteTrace(original, width, height, palette, isCancelled))
  }

  /** The reports are `y / height` for each tenth row `y` converted, then `1` once all rows
      are done. */
  lemma {:induction false} PaletteReportsAre(original: seq<Byte>, width: nat, height: nat,
                          palette: seq<ColorPaletteItem>, isCancelled: nat -> bool)
    requires |original| == width * height * 4 && ParsePalette(palette) != []
    ensures Rows(original, width, height, ParsePalette(palette), isCancelled).steps <= height
    ensures PaletteReports(original, width, height, palette, isCancelled)
         == BatchedReports(Rows(original, width, height, ParsePalette(palette),
                                isCancelled).steps,
                           RowsPerBatch, height,
                           Rows(original, width, height, ParsePalette(palette),
                                isCancelled).completed)
  {
    var colors := ParsePalette(palette);
    var rows := Rows(original, width, height, colors, isCancelled);
    RowsReports(original, width, height, colors, isCancelled, 0, 0, 0);
    RowsSteps(original, width, height, colors, isCancelled, 0, 0, 0);
    var put := Draw(PutImage(Converted(original, colors, width * height)));
    var last: seq<Effect> := if rows.completed then [put, Progress(1.0)] else [];
    if rows.completed {
      Single(put);
      Single(Progress(1.0));
      TraceAppend([put], [Progress(1.0)]);
      assert last == [put] + [Progress(1.0)];
    }
    TraceAppend(rows.effects, last);
    assert PaletteTrace(original, width, height, palette, isCancelled) == rows.effects + last;
  }

  /** With a usable palette, the reports rise strictly within `[0, 1]`; `1` is reported exactly
      when every row was converted; every tenth row converted is reported, and nothing else
      is. With no usable colour nothing is reported. */
  lemma {:induction false} PaletteProgress(original: seq<Byte>, width: nat, height: nat,
                        palette: seq<ColorPaletteItem>, isCancelled: nat -> bool)
    requires |original| == width * height * 4
    ensures ParsePalette(palette) == []
        ==> PaletteReports(original, width, height, palette, isCancelled) == []
    ensures forall i, j :: 0 <= i < j < |PaletteReports(original, width, height, palette,
                                                        isCancelled)| ==>
      PaletteReports(original, width, height, palette, isCancelled)[i]
      < PaletteReports(original, width, height, palette, isCancelled)[j]
    ensures forall k :: 0 <= k < |PaletteReports(original, width, height, palette,
                                                 isCancelled)| ==>
      0.0 <= PaletteReports(original, width, height, palette, isCancelled)[k] <= 1.0
    ensures ParsePalette(palette) != [] ==>
      ((exists k :: 0 <= k < |PaletteReports(original, width, height, palette, isCancelled)|
                    && PaletteReports(original, width, height, palette, isCancelled)[k] == 1.0)
       <==> Rows(original, width, height, ParsePalette(palette), isCancelled).steps == height)
    ensures ParsePalette(palette) != [] ==>
      forall y :: 0 <= y < Rows(original, width, height, ParsePalette(palette),
                                isCancelled).steps
                  && Checkpoint(y, RowsPerBatch) ==>
        y as real / height as real
        in PaletteReports(original, width, height, palette, isCancelled)
    ensures ParsePalette(palette) != [] && height > 0 ==>
      forall k :: 0 <= k < |PaletteReports(original, width, height, palette, isCancelled)| ==>
        PaletteReports(original, width, height, palette, isCancelled)[k] == 1.0
        || ReportOfSome(PaletteReports(original, width, height, palette, isCancelled)[k], 0,
                        Rows(original, width, height, ParsePalette(palette),
                             isCancelled).steps,
                        RowsPerBatch, height)
  {
    var colors := ParsePalette(palette);
    if colors != [] {
      var rows := Rows(original, width, height, colors, isCancelled);
      PaletteReportsAre(original, width, height, palette, isCancelled);
      PaletteRunShape(original, width, height, colors, isCancelled);
      BatchedReportsRise(rows.steps, RowsPerBatch, height, rows.completed);
      if height > 0 {
        BatchedReportsCheckpoints(rows.steps, RowsPerBatch, height, rows.completed);
      }
    }
  }

  // ---------------------------------------------------------------------------------------
  // Cancellation and the final output
  // ---------------------------------------------------------------------------------------

  /** With the final output guarded by a poll, a run started before it was cancelled draws and
      reports nothing once it has been cancelled. */
  lemma {:induction false} PaletteGuardedRespects(original: seq<Byte>, width: nat, height: nat,
                               palette: seq<ColorPaletteItem>, isCancelled: nat -> bool)
    requires |original| == width * height * 4
    ensures RespectsCancellation(PaletteTraceGuarded(original, width, height, palette,
                                                     isCancelled), isCancelled)
  {
    var colors := ParsePalette(palette);
    if colors != [] {
      var rows := Rows(original, width, height, colors, isCancelled);
      var last: seq<Effect> :=
        if rows.completed && !isCancelled(rows.yieldCount)
        then [Draw(PutImage(Converted(original, colors, width * height))), Progress(1.0)]
        else [];
      PaletteRunShape(original, width, height, colors, isCancelled);
      if last != [] {
        RespectsNoYield(last, isCancelled, rows.yieldCount);
      }
      RespectsAppend(rows.effects, last, isCancelled, 0);
      assert PaletteTraceGuarded(original, width, height, palette, isCancelled)
          == rows.effects + last;
    }
  }

  /** The guarded run is the run as written unless that run was cancelled after its last
      checkpoint; then it leaves out the final output. */
  lemma {:induction false} PaletteGuardedDiffers(original: seq<Byte>, width: nat, height: nat,
                              palette: seq<ColorPaletteItem>, isCancelled: nat -> bool)
    requires |original| == width * height * 4 && ParsePalette(palette) != []
    ensures var rows := Rows(original, width, height, ParsePalette(palette), isCancelled);
      && (!isCancelled(rows.yieldCount) ==>
            PaletteTraceGuarded(original, width, height, palette, isCancelled)
            == PaletteTrace(original, width, height, palette, isCancelled))
      && (isCancelled(rows.yieldCount) ==>
            PaletteTraceGuarded(original, width, height, palette, isCancelled)
            == rows.effects)
  {
    var rows := Rows(original, width, height, ParsePalette(palette), isCancelled);
    assert rows.effects + [] == rows.effects;
  }

  /** The palette of the counterexample: one black entry. */
  function BlackPalette(): seq<ColorPaletteItem> {
    [ColorPaletteItem(RgbToHex(0, 0, 0), 1)]
  }

  lemma {:induction false} BlackPaletteParses()
    ensures ParsePalette(BlackPalette()) == [Rgb(0, 0, 0)]
  {
    HexRoundTrip(0, 0, 0);
    assert BlackPalette()[1..] == [];
  }

  /** The trace of the run in `PaletteFinalOutputUnpolled`. */
  lemma {:induction false} UnpolledPaletteTrace()
    ensures var data: seq<Byte> := [9, 9, 9, 255];
      var put := Draw(PutImage(Converted(data, [Rgb(0, 0, 0)], 1)));
      PaletteTrace(data, 1, 1, BlackPalette(), k => k >= 1)
      == [put, Progress(0.0), Yield, put, Progress(1.0)]
  {
    var isCancelled: nat -> bool := k => k >= 1;
    var data: seq<Byte> := [9, 9, 9, 255];
    var colors := [Rgb(0, 0, 0)];
    BlackPaletteParses();
    RowsUnfold(data, 1, 1, colors, isCancelled, 0, 0, 0);
    RowsStop(data, 1, 1, colors, isCancelled, 1, 1, 1);
  }

  /** As written, the final `putImageData` and `onProgress(1)` are not polled: a one-pixel
      image, one palette colour, and a newer run that starts during the yield after row 0; the
      superseded run still draws its buffer and reports `1`. */
  lemma {:induction false} PaletteFinalOutputUnpolled()
    ensures !RespectsCancellation(PaletteTrace([9, 9, 9, 255], 1, 1, BlackPalette(),
                                               k => k >= 1),
                                  k => k >= 1)
  {
    var isCancelled: nat -> bool := k => k >= 1;
    UnpolledPaletteTrace();
    var trace := PaletteTrace([9, 9, 9, 255], 1, 1, BlackPalette(), isCancelled);
    var put := trace[0];
    assert trace[..3] == [put] + [Progress(0.0), Yield] + [];
    DrawsThenReport([put], 0.0, []);
    Violates(trace, isCancelled, 3);
  }
}
