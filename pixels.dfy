/** Pixel buffers shared by the analyzer and the three reconstructors: a decoded image is a
    flat row-major sequence of RGBA bytes, four per pixel. */
module Pixels {

  /** One byte of an RGBA sample (the elements of a `Uint8ClampedArray`). */
  type Byte = x: int | 0 <= x < 256

  /** A colour as a triple of channel values. */
  datatype Rgb = Rgb(r: int, g: int, b: int)

  predicate IsByteColor(c: Rgb) {
    0 <= c.r < 256 && 0 <= c.g < 256 && 0 <= c.b < 256
  }

  /** Channel `ch` (0 = red, 1 = green, 2 = blue, 3 = alpha) of every pixel, in pixel order. */
  function Channel(data: seq<Byte>, ch: nat): (s: seq<Byte>)
    requires ch < 4
    ensures |s| == |data| / 4
    ensures forall p :: 0 <= p < |s| ==> s[p] == data[4 * p + ch]
  {
    seq(|data| / 4, p requires 0 <= p < |data| / 4 => data[4 * p + ch])
  }

  /** Colour of pixel `p` (its alpha byte is not part of it). */
  function PixelColor(data: seq<Byte>, p: nat): (c: Rgb)
    requires p < |data| / 4
    ensures IsByteColor(c)
  {
    Rgb(data[4 * p], data[4 * p + 1], data[4 * p + 2])
  }

  /** Every pixel of the buffer has colour `c`. */
  ghost predicate Solid(data: seq<Byte>, c: Rgb) {
    forall p :: 0 <= p < |data| / 4 ==> PixelColor(data, p) == c
  }

  function ChannelOf(c: Rgb, ch: nat): int
    requires ch < 3
  {
    if ch == 0 then c.r else if ch == 1 then c.g else c.b
  }

  /** `Math.min` on naturals. */
  function Min(a: nat, b: nat): nat {
    if a <= b then a else b
  }

  /** `Math.ceil(n / d)` for naturals, counted one stride of `d` at a time. */
  function CeilDiv(n: nat, d: nat): nat
    requires d > 0
    decreases n
  {
    if n == 0 then 0 else if n <= d then 1 else 1 + CeilDiv(n - d, d)
  }

  /** One pass of a loop `for (v; v < n; v += d)` leaves `ceil((n - v - d) / d)` to go. */
  lemma {:induction false} CeilDivStep(n: nat, v: nat, d: nat)
    requires d > 0 && v < n
    ensures CeilDiv(n - v, d) == if v + d >= n then 1 else 1 + CeilDiv(n - (v + d), d)
  {
    assert CeilDiv(n - v, d) == if n - v <= d then 1 else 1 + CeilDiv(n - v - d, d);
  }

  /** The count is the rounded-up quotient. */
  lemma {:induction false} CeilDivQuotient(n: nat, d: nat)
    requires d > 0
    ensures CeilDiv(n, d) == (n + d - 1) / d
    decreases n
  {
    if n == 0 {
      DivUnique(d - 1, d, 0);
    } else if n <= d {
      DivUnique(n + d - 1, d, 1);
    } else {
      CeilDivQuotient(n - d, d);
      var q := (n - 1) / d;
      assert n - 1 == q * d + (n - 1) % d;
      DivUnique(n - 1, d, q);
      DivUnique(n + d - 1, d, q + 1);
      DivUnique(n - 1, d, q);
      DivUnique(n - d + d - 1, d, q);
    }
  }

  lemma {:induction false} MulMonotone(a: int, b: int, d: nat)
    ensures a <= b ==> a * d <= b * d
  {
  }

  /** A loop `for (k = 0; k * d < n; k++)` runs exactly `ceil(n / d)` times. */
  lemma {:induction false} CeilDivBound(n: nat, d: nat, k: nat)
    requires d > 0
    ensures k < CeilDiv(n, d) <==> k * d < n
    decreases n
  {
    if n > d && k > 0 {
      CeilDivBound(n - d, d, k - 1);
      assert (k - 1) * d == k * d - d;
    }
  }

  /** Integer division is determined by its bracketing multiples. */
  lemma {:induction false} DivUnique(a: nat, d: nat, q: nat)
    requires d > 0 && q * d <= a < q * d + d
    ensures a / d == q && a % d == a - q * d
  {
    var q', r' := a / d, a % d;
    assert a == q' * d + r' && 0 <= r' < d;
    assert (q' + 1) * d == q' * d + d && (q + 1) * d == q * d + d;
    MulMonotone(q' + 1, q, d);
    MulMonotone(q + 1, q', d);
  }

  /** `Math.floor(a / n)` lies between the multiples of `n` around `a`, so it is at most `k`
      when `a` is at most `k * n`. */
  lemma {:induction false} FloorDivBounds(a: nat, n: nat, k: nat)
    requires n > 0
    ensures (a / n) * n <= a < (a / n) * n + n
    ensures a <= k * n ==> a / n <= k
  {
    var q := a / n;
    assert a == q * n + a % n;
    MulMonotone(k + 1, q, n);
    assert (k + 1) * n == k * n + n;
  }

  /** `Math.floor(a / n)` for a natural `a`, one `n` at a time. */
  function FloorDiv(a: nat, n: nat): nat
    requires n > 0
    decreases a
  {
    if a < n then 0 else 1 + FloorDiv(a - n, n)
  }

  lemma {:induction false} FloorDivQuotient(a: nat, n: nat)
    requires n > 0
    ensures FloorDiv(a, n) == a / n
    decreases a
  {
    if a < n {
      DivUnique(a, n, 0);
    } else {
      FloorDivQuotient(a - n, n);
      var q := (a - n) / n;
      assert q * n <= a - n < q * n + n by { FloorDivBounds(a - n, n, 0); }
      assert (q + 1) * n == q * n + n;
      DivUnique(a, n, q + 1);
    }
  }

  lemma {:induction false} MulDivCancel(n: nat, c: nat)
    requires n > 0
    ensures (n * c) / n == c
  {
    assert c * n <= n * c < c * n + n;
    DivUnique(n * c, n, c);
  }

  /** A row segment of `w` pixels starting at column `x` of row `r` lies inside the image. */
  lemma {:induction false} RowInBounds(width: nat, height: nat, r: nat, x: nat, w: nat)
    requires x + w <= width && r < height
    ensures r * width + x + w <= width * height
  {
    MulMonotone(r + 1, height, width);
    assert (r + 1) * width == r * width + width;
  }

  /** `h` rows of `len` bytes, the first starting at byte `start` of `data` and each next one
      `stride` bytes further on. */
  function CropFrom(data: seq<Byte>, stride: nat, start: nat, len: nat, h: nat): seq<Byte>
    requires h == 0 || start + Times(h - 1, stride) + len <= |data|
    decreases h
  {
    if h == 0 then []
    else
      CropFromRest(|data|, stride, start, len, h);
      data[start .. start + len] + CropFrom(data, stride, start + stride, len, h - 1)
  }

  /** `getImageData(x, y, w, h).data` of a `width` by `height` image: the RGBA bytes of the
      rectangle, row by row. */
  function Crop(data: seq<Byte>, width: nat, height: nat, x: nat, y: nat, w: nat, h: nat)
    : seq<Byte>
    requires |data| == width * height * 4 && x + w <= width && y + h <= height
  {
    CropFits(width, height, x, y, w, h);
    CropFrom(data, 4 * width, 4 * (y * width + x), 4 * w, h)
  }

  lemma {:induction false} MulSucc(t: nat, d: nat)
    ensures (t + 1) * d == t * d + d
  {
  }

  /** `a * b`, one `b` at a time: the row arithmetic of a rectangle stays linear. */
  function Times(a: nat, b: nat): nat
    decreases a
  {
    if a == 0 then 0 else Times(a - 1, b) + b
  }

  lemma {:induction false} TimesIs(a: nat, b: nat)
    ensures Times(a, b) == a * b
    decreases a
  {
    if a > 0 {
      TimesIs(a - 1, b);
      MulSucc(a - 1, b);
    }
  }

  /** The rows after the first start one row further on and still fit. */
  lemma {:induction false} CropFromRest(size: nat, stride: nat, start: nat, len: nat, h: nat)
    requires h > 0 && start + Times(h - 1, stride) + len <= size
    ensures start + len <= size
    ensures h - 1 > 0 ==> (start + stride) + Times(h - 1 - 1, stride) + len <= size
  {
  }

  lemma {:induction false} CropFromLength(data: seq<Byte>, stride: nat, start: nat, len: nat,
                                          h: nat)
    requires h == 0 || start + Times(h - 1, stride) + len <= |data|
    ensures |CropFrom(data, stride, start, len, h)| == Times(h, len)
    decreases h
  {
    if h > 0 {
      CropFromRest(|data|, stride, start, len, h);
      CropFromLength(data, stride, start + stride, len, h - 1);
    }
  }

  lemma {:induction false} PixelOfConcat(a: seq<Byte>, b: seq<Byte>, p: nat)
    requires |a| % 4 == 0 && |b| % 4 == 0 && p < |a| / 4 + |b| / 4
    ensures p < |a + b| / 4
    ensures p < |a| / 4 ==> PixelColor(a + b, p) == PixelColor(a, p)
    ensures p >= |a| / 4 ==> PixelColor(a + b, p) == PixelColor(b, p - |a| / 4)
  {
  }

  lemma {:induction false} QuarterOf(n: nat)
    ensures (4 * n) / 4 == n && (4 * n) % 4 == 0
  {
  }

  /** The rows of a rectangle inside the image start at byte `4 * (y * width + x)` and fit. */
  lemma {:induction false} CropFits(width: nat, height: nat, x: nat, y: nat, w: nat, h: nat)
    requires x + w <= width && y + h <= height
    ensures h == 0
         || 4 * (y * width + x) + Times(h - 1, 4 * width) + 4 * w <= 4 * (width * height)
  {
    if h > 0 {
      RowInBounds(width, height, y + h - 1, x, w);
      TimesIs(h - 1, 4 * width);
      assert (h - 1) * (4 * width) == 4 * ((h - 1) * width);
      assert (y + h - 1) * width == y * width + (h - 1) * width;
    }
  }

  /** `getImageData` returns `4 * w * h` bytes. */
  lemma {:induction false} CropLength(data: seq<Byte>, width: nat, height: nat, x: nat, y: nat,
                                      w: nat, h: nat)
    requires |data| == width * height * 4 && x + w <= width && y + h <= height
    ensures |Crop(data, width, height, x, y, w, h)| == 4 * (w * h)
    ensures |Crop(data, width, height, x, y, w, h)| / 4 == w * h
    ensures |Crop(data, width, height, x, y, w, h)| % 4 == 0
  {
    CropFits(width, height, x, y, w, h);
    CropFromLength(data, 4 * width, 4 * (y * width + x), 4 * w, h);
    TimesIs(h, 4 * w);
    assert h * (4 * w) == 4 * (w * h);
    QuarterOf(w * h);
  }

  /** A one-pixel rectangle holds pixel `(x, y)` of the image. */
  lemma {:induction false} CropOnePixel(data: seq<Byte>, width: nat, height: nat, x: nat,
                                        y: nat)
    requires |data| == width * height * 4 && x < width && y < height
    ensures 0 < |Crop(data, width, height, x, y, 1, 1)| / 4
    ensures y * width + x < |data| / 4
    ensures PixelColor(Crop(data, width, height, x, y, 1, 1), 0) == PixelColor(data, y * width + x)
  {
    RowInBounds(width, height, y, x, 1);
    QuarterOf(width * height);
    CropFits(width, height, x, y, 1, 1);
    var start := 4 * (y * width + x);
    assert Crop(data, width, height, x, y, 1, 1) == data[start .. start + 4] + [];
  }

  /** A pixel-aligned slice of a one-colour buffer has that colour. */
  lemma {:induction false} SolidSlice(data: seq<Byte>, a: nat, b: nat, c: Rgb)
    requires a % 4 == 0 && b % 4 == 0 && a <= b <= |data| && Solid(data, c)
    ensures Solid(data[a .. b], c)
  {
    forall p | 0 <= p < |data[a .. b]| / 4 ensures PixelColor(data[a .. b], p) == c {
      assert a + 4 * p == 4 * (a / 4 + p);
      assert PixelColor(data[a .. b], p) == PixelColor(data, a / 4 + p);
    }
  }

  lemma {:induction false} SolidConcat(s: seq<Byte>, t: seq<Byte>, c: Rgb)
    requires |s| % 4 == 0 && |t| % 4 == 0 && Solid(s, c) && Solid(t, c)
    ensures Solid(s + t, c)
  {
    forall p | 0 <= p < |s + t| / 4 ensures PixelColor(s + t, p) == c {
      PixelOfConcat(s, t, p);
    }
  }

  /** Pixel-aligned rows of a one-colour buffer have that colour. */
  lemma {:induction false} SolidCropFrom(data: seq<Byte>, stride: nat, start: nat, len: nat,
                                         h: nat, c: Rgb)
    requires h == 0 || start + Times(h - 1, stride) + len <= |data|
    requires start % 4 == 0 && stride % 4 == 0 && len % 4 == 0 && Solid(data, c)
    ensures |CropFrom(data, stride, start, len, h)| % 4 == 0
    ensures Solid(CropFrom(data, stride, start, len, h), c)
    decreases h
  {
    if h > 0 {
      CropFromRest(|data|, stride, start, len, h);
      SolidCropFrom(data, stride, start + stride, len, h - 1, c);
      SolidSlice(data, start, start + len, c);
      SolidConcat(data[start .. start + len], CropFrom(data, stride, start + stride, len, h - 1),
                  c);
    }
  }

  /** Every rectangle of a one-colour image has that colour. */
  lemma {:induction false} SolidCrop(data: seq<Byte>, width: nat, height: nat, x: nat, y: nat,
                                     w: nat, h: nat, c: Rgb)
    requires |data| == width * height * 4 && x + w <= width && y + h <= height
    requires Solid(data, c)
    ensures Solid(Crop(data, width, height, x, y, w, h), c)
  {
    CropFits(width, height, x, y, w, h);
    SolidCropFrom(data, 4 * width, 4 * (y * width + x), 4 * w, h, c);
  }


  /** `k / n` for `0 < k <= n` lies in `(0, 1]` and is 1 exactly when `k == n`. */
  lemma {:induction false} RealFraction(k: nat, n: nat)
    requires 0 < k <= n
    ensures 0.0 < k as real / n as real <= 1.0
    ensures k as real / n as real == 1.0 <==> k == n
  {
  }

  lemma {:induction false} RealFractionMonotone(i: nat, j: nat, n: nat)
    requires i < j && n > 0
    ensures i as real / n as real < j as real / n as real
  {
  }

  // ---------------------------------------------------------------------------------------
  // Strided loops
  // ---------------------------------------------------------------------------------------

  /** The values `for (v; v < n; v += d)` visits. */
  function Steps(n: nat, d: nat, v: nat): (s: seq<nat>)
    requires d > 0
    ensures forall k :: 0 <= k < |s| ==> v <= s[k] < n
    decreases n - v
  {
    if v >= n then [] else [v] + Steps(n, d, v + d)
  }

  /** A loop `for (v; v < n; v += d)` runs `ceil((n - v) / d)` times. */
  lemma {:induction false} StepsCount(n: nat, d: nat, v: nat)
    requires d > 0
    ensures |Steps(n, d, v)| == if v >= n then 0 else CeilDiv(n - v, d)
    decreases n - v
  {
    if v < n {
      StepsCount(n, d, v + d);
      CeilDivStep(n, v, d);
    }
  }

  /** Its `t`-th step is at `v + t * d`. */
  lemma {:induction false} StepsAt(n: nat, d: nat, v: nat)
    requires d > 0
    ensures forall t :: 0 <= t < |Steps(n, d, v)| ==> Steps(n, d, v)[t] == v + t * d
    decreases n - v
  {
    if v < n {
      var s := Steps(n, d, v);
      StepsAt(n, d, v + d);
      forall t | 0 <= t < |s| ensures s[t] == v + t * d {
        if t > 0 {
          assert s[t] == Steps(n, d, v + d)[t - 1];
          MulSucc(t - 1, d);
        }
      }
    }
  }
}
