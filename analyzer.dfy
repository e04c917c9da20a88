/** The pixel statistics of `analyzeImage`: a 256-bin histogram per channel over every pixel,
    and a palette of the ten most frequent colours of a strided subsample, each channel
    quantised to its upper four bits. Decoding the image into RGBA bytes happens before this
    and is not modelled: the analysis starts from the decoded buffer. */
module Analyzer {
  import opened Pixels
  import opened Hex

  datatype HistogramDataPoint = HistogramDataPoint(intensity: int, r: nat, g: nat, b: nat)

  datatype ColorPaletteItem = ColorPaletteItem(hex: string, count: nat)

  datatype ImageProperties = ImageProperties(width: nat, height: nat, pixelCount: nat)

  datatype AnalysisResult = AnalysisResult(
    properties: ImageProperties,
    histogram: seq<HistogramDataPoint>,
    palette: seq<ColorPaletteItem>)

  // ---------------------------------------------------------------------------------------
  // Histogram
  // ---------------------------------------------------------------------------------------

  /** `h` is the histogram of `data`: 256 entries, entry `i` has intensity `i` and, for each
      colour channel, the number of pixels whose value in that channel is `i`. */
  ghost predicate IsHistogramOf(h: seq<HistogramDataPoint>, data: seq<Byte>) {
    && |h| == 256
    && forall i :: 0 <= i < 256 ==>
         h[i] == HistogramDataPoint(i, multiset(Channel(data, 0))[i],
                                       multiset(Channel(data, 1))[i],
                                       multiset(Channel(data, 2))[i])
  }

  /** `counts[v]` is the number of occurrences of `v` in `values`. */
  ghost predicate Tally(counts: seq<nat>, values: seq<Byte>) {
    |counts| == 256 && forall v :: 0 <= v < 256 ==> counts[v] == multiset(values)[v]
  }

  /** Counting one more value increments its bin and no other. */
  lemma {:induction false} TallyStep(counts: seq<nat>, values: seq<Byte>, x: Byte)
    requires Tally(counts, values)
    ensures Tally(counts[x := counts[x] + 1], values + [x])
  {
    assert multiset(values + [x]) == multiset(values) + multiset{x};
  }

  /** The counter arrays after the first `p` pixels were counted: bin `v` of channel `ch`
      went up once per pixel whose channel `ch` is `v`. */
  function Counts(data: seq<Byte>, ch: nat, p: nat): (counts: seq<nat>)
    requires ch < 3 && 4 * p <= |data|
    ensures |counts| == 256
    decreases p
  {
    if p == 0 then seq(256, _ => 0)
    else
      var prev := Counts(data, ch, p - 1);
      prev[data[4 * (p - 1) + ch] := prev[data[4 * (p - 1) + ch]] + 1]
  }

  /** The counters tally the channel values of the pixels counted so far. */
  lemma {:induction false} CountsTally(data: seq<Byte>, ch: nat, p: nat)
    requires ch < 3 && 4 * p <= |data|
    ensures p <= |Channel(data, ch)| && Tally(Counts(data, ch, p), Channel(data, ch)[..p])
    decreases p
  {
    var values := Channel(data, ch);
    if p == 0 {
      assert values[..0] == [];
    } else {
      var prev := Counts(data, ch, p - 1);
      var x := data[4 * (p - 1) + ch];
      CountsTally(data, ch, p - 1);
      assert values[..p] == values[..p - 1] + [x];
      TallyStep(prev, values[..p - 1], x);
    }
  }

  /** `values[v]++`. */
  method Bump(values: array<nat>, v: nat)
    requires v < values.Length
    modifies values
    ensures values[..] == old(values[..])[v := old(values[v]) + 1]
  {
    values[v] := values[v] + 1;
  }

  /** The body of the first histogram loop: count pixel `p` in the three arrays. */
  method CountPixel(rValues: array<nat>, gValues: array<nat>, bValues: array<nat>,
                    data: seq<Byte>, p: nat)
    requires rValues != gValues && gValues != bValues && rValues != bValues
    requires 4 * p + 4 <= |data|
    requires rValues[..] == Counts(data, 0, p) && gValues[..] == Counts(data, 1, p)
    requires bValues[..] == Counts(data, 2, p)
    modifies rValues, gValues, bValues
    ensures rValues[..] == Counts(data, 0, p + 1) && gValues[..] == Counts(data, 1, p + 1)
    ensures bValues[..] == Counts(data, 2, p + 1)
  {
    var i := 4 * p;
    Bump(rValues, data[i]);
    assert rValues[..] == Counts(data, 0, p + 1);
    Bump(gValues, data[i + 1]);
    assert gValues[..] == Counts(data, 1, p + 1);
    Bump(bValues, data[i + 2]);
  }

  /** The histogram loops of `analyzeImage`: one pass over every pixel incrementing three
      arrays of 256 counters, then one entry per intensity level. */
  method ComputeHistogram(data: seq<Byte>) returns (histogram: seq<HistogramDataPoint>)
    requires |data| % 4 == 0
    ensures IsHistogramOf(histogram, data)
  {
    var rValues := new nat[256](_ => 0);
    var gValues := new nat[256](_ => 0);
    var bValues := new nat[256](_ => 0);
    var n := |data| / 4;
    var p := 0;
    while p < n
      invariant p <= n
      invariant rValues[..] == Counts(data, 0, p)
      invariant gValues[..] == Counts(data, 1, p)
      invariant bValues[..] == Counts(data, 2, p)
    {
      CountPixel(rValues, gValues, bValues, data, p);
      p := p + 1;
    }
    histogram := HistogramEntries(rValues[..], gValues[..], bValues[..]);
    CountsMakeHistogram(histogram, data);
  }

  /** Entries built from the counters of every pixel form the histogram. */
  lemma {:induction false} CountsMakeHistogram(histogram: seq<HistogramDataPoint>, data: seq<Byte>)
    requires |data| % 4 == 0 && |histogram| == 256
    requires forall j :: 0 <= j < 256 ==>
               histogram[j] == HistogramDataPoint(j, Counts(data, 0, |data| / 4)[j],
                                                     Counts(data, 1, |data| / 4)[j],
                                                     Counts(data, 2, |data| / 4)[j])
    ensures IsHistogramOf(histogram, data)
  {
    var n := |data| / 4;
    CountsTally(data, 0, n);
    CountsTally(data, 1, n);
    CountsTally(data, 2, n);
    assert Channel(data, 0)[..n] == Channel(data, 0);
    assert Channel(data, 1)[..n] == Channel(data, 1);
    assert Channel(data, 2)[..n] == Channel(data, 2);
    TalliesMakeHistogram(histogram, Counts(data, 0, n), Counts(data, 1, n), Counts(data, 2, n), data);
  }

  lemma {:induction false} TalliesMakeHistogram(histogram: seq<HistogramDataPoint>, rValues: seq<nat>,
                             gValues: seq<nat>, bValues: seq<nat>, data: seq<Byte>)
    requires Tally(rValues, Channel(data, 0)) && Tally(gValues, Channel(data, 1))
    requires Tally(bValues, Channel(data, 2))
    requires |histogram| == 256
    requires forall j :: 0 <= j < 256 ==>
               histogram[j] == HistogramDataPoint(j, rValues[j], gValues[j], bValues[j])
    ensures IsHistogramOf(histogram, data)
  {
  }

  /** The second loop of the histogram: entry `i` carries intensity `i` and the three
      counters of bin `i`. */
  method HistogramEntries(rValues: seq<nat>, gValues: seq<nat>, bValues: seq<nat>)
    returns (histogram: seq<HistogramDataPoint>)
    requires |rValues| == |gValues| == |bValues| == 256
    ensures |histogram| == 256
    ensures forall j :: 0 <= j < 256 ==>
              histogram[j] == HistogramDataPoint(j, rValues[j], gValues[j], bValues[j])
  {
    histogram := [];
    var k := 0;
    while k < 256
      invariant 0 <= k <= 256 && |histogram| == k
      invariant forall j :: 0 <= j < k ==>
                  histogram[j] == HistogramDataPoint(j, rValues[j], gValues[j], bValues[j])
    {
      histogram := histogram + [HistogramDataPoint(k, rValues[k], gValues[k], bValues[k])];
      k := k + 1;
    }
  }

  /** The number of values of `m` below `n`. */
  function CountBelow(m: multiset<Byte>, n: nat): nat
    requires n <= 256
  {
    if n == 0 then 0 else CountBelow(m, n - 1) + m[n - 1]
  }

  lemma {:induction false} CountBelowAdd(m: multiset<Byte>, x: Byte, n: nat)
    requires n <= 256
    ensures CountBelow(m + multiset{x}, n) == CountBelow(m, n) + (if x < n then 1 else 0)
  {
    if n > 0 {
      CountBelowAdd(m, x, n - 1);
    }
  }

  lemma {:induction false} CountBelowEmpty(n: nat)
    requires n <= 256
    ensures CountBelow(multiset{}, n) == 0
  {
    if n > 0 {
      CountBelowEmpty(n - 1);
    }
  }

  /** Every byte value lies in one of the 256 bins. */
  lemma {:induction false} CountBelowTotal(s: seq<Byte>)
    ensures CountBelow(multiset(s), 256) == |s|
  {
    if s == [] {
      CountBelowEmpty(256);
    } else {
      var s', x := s[..|s| - 1], s[|s| - 1];
      assert s == s' + [x];
      assert multiset(s) == multiset(s') + multiset{x};
      CountBelowTotal(s');
      CountBelowAdd(multiset(s'), x, 256);
    }
  }

  function Count(p: HistogramDataPoint, ch: nat): nat
    requires ch < 3
  {
    if ch == 0 then p.r else if ch == 1 then p.g else p.b
  }

  /** The sum of the channel-`ch` counts of the first `n` entries. */
  function ChannelTotal(h: seq<HistogramDataPoint>, ch: nat, n: nat): nat
    requires ch < 3 && n <= |h|
  {
    if n == 0 then 0 else ChannelTotal(h, ch, n - 1) + Count(h[n - 1], ch)
  }

  lemma {:induction false} ChannelTotalPrefix(h: seq<HistogramDataPoint>, data: seq<Byte>,
                                              ch: nat, n: nat)
    requires IsHistogramOf(h, data) && ch < 3 && n <= 256
    ensures ChannelTotal(h, ch, n) == CountBelow(multiset(Channel(data, ch)), n)
  {
    if n > 0 {
      ChannelTotalPrefix(h, data, ch, n - 1);
    }
  }

  /** For each channel the histogram counts add up to the number of pixels. */
  lemma {:induction false} HistogramTotals(h: seq<HistogramDataPoint>, data: seq<Byte>)
    requires IsHistogramOf(h, data)
    ensures forall ch :: 0 <= ch < 3 ==> ChannelTotal(h, ch, 256) == |data| / 4
  {
    forall ch | 0 <= ch < 3 ensures ChannelTotal(h, ch, 256) == |data| / 4 {
      ChannelTotalPrefix(h, data, ch, 256);
      CountBelowTotal(Channel(data, ch));
    }
  }

  // ---------------------------------------------------------------------------------------
  // Palette sampling
  // ---------------------------------------------------------------------------------------

  /** `Math.max(1, Math.floor(pixelCount / 20000))`. */
  function SampleRate(pixelCount: nat): (sr: nat)
    ensures sr >= 1
  {
    if pixelCount / 20000 > 1 then pixelCount / 20000 else 1
  }

  /** `>> 4` on each channel: the 16-level bucket of a colour. */
  function Quantize(c: Rgb): Rgb {
    Rgb(c.r / 16, c.g / 16, c.b / 16)
  }

  predicate IsBucketKey(k: Rgb) {
    0 <= k.r < 16 && 0 <= k.g < 16 && 0 <= k.b < 16
  }

  /** The quantised colours of the pixels `p, p + sr, p + 2*sr, ...` of the buffer. */
  function SamplesFrom(data: seq<Byte>, sr: nat, p: nat): seq<Rgb>
    requires sr >= 1
    decreases |data| / 4 - p
  {
    if p >= |data| / 4 then [] else [Quantize(PixelColor(data, p))] + SamplesFrom(data, sr, p + sr)
  }

  /** The quantised colours of the sampled pixels `0, sr, 2*sr, ...`, in visiting order. */
  function Samples(data: seq<Byte>, sr: nat): seq<Rgb>
    requires sr >= 1
  {
    SamplesFrom(data, sr, 0)
  }

  /** The sampling loop visits the pixels `p, p + sr, p + 2 * sr, ...` below the pixel count. */
  lemma {:induction false} SamplesFromCount(data: seq<Byte>, sr: nat, p: nat)
    requires sr >= 1
    ensures |SamplesFrom(data, sr, p)| == |Steps(|data| / 4, sr, p)|
    decreases |data| / 4 - p
  {
    if p < |data| / 4 {
      SamplesFromCount(data, sr, p + sr);
      assert |SamplesFrom(data, sr, p)| == 1 + |SamplesFrom(data, sr, p + sr)|;
    }
  }

  /** The loop visits `ceil(pixelCount / sr)` pixels. */
  lemma {:induction false} SamplesCount(data: seq<Byte>, sr: nat)
    requires sr >= 1
    ensures |Samples(data, sr)| == CeilDiv(|data| / 4, sr)
  {
    SamplesFromCount(data, sr, 0);
    StepsCount(|data| / 4, sr, 0);
  }

  /** Every sample is the bucket of some pixel of the buffer. */
  lemma {:induction false} SamplesFromPixels(data: seq<Byte>, sr: nat, p: nat, key: Rgb)
    requires sr >= 1 && key in SamplesFrom(data, sr, p)
    ensures exists q :: p <= q < |data| / 4 && key == Quantize(PixelColor(data, q))
    decreases |data| / 4 - p
  {
    if key != Quantize(PixelColor(data, p)) {
      SamplesFromPixels(data, sr, p + sr, key);
    }
  }

  ghost predicate Distinct<T>(s: seq<T>) {
    forall i, j :: 0 <= i < j < |s| ==> s[i] != s[j]
  }

  /** The distinct elements of `s` in order of first occurrence: the key order of a
      JavaScript object whose non-numeric keys are inserted as `s` is scanned. */
  function FirstSeen(s: seq<Rgb>): (keys: seq<Rgb>)
    ensures forall k :: k in keys <==> k in s
  {
    if s == [] then []
    else
      var prev := FirstSeen(s[..|s| - 1]);
      if s[|s| - 1] in prev then prev else prev + [s[|s| - 1]]
  }

  /** Each key is listed once. */
  lemma {:induction false} FirstSeenDistinct(s: seq<Rgb>)
    ensures Distinct(FirstSeen(s))
  {
    if s != [] {
      var prev := FirstSeen(s[..|s| - 1]);
      FirstSeenDistinct(s[..|s| - 1]);
      if s[|s| - 1] !in prev {
        var keys := prev + [s[|s| - 1]];
        forall i, j | 0 <= i < j < |keys| ensures keys[i] != keys[j] {
          if j == |prev| {
            assert keys[i] == prev[i];
          } else {
            assert keys[i] == prev[i] && keys[j] == prev[j];
          }
        }
      }
    }
  }

  datatype Bucket = Bucket(key: Rgb, count: nat)

  /** One bucket per key, with the key's number of occurrences in `m`. */
  function KeyCounts(keys: seq<Rgb>, m: multiset<Rgb>): (bs: seq<Bucket>)
    ensures |bs| == |keys|
    ensures forall i :: 0 <= i < |keys| ==> bs[i] == Bucket(keys[i], m[keys[i]])
  {
    seq(|keys|, i requires 0 <= i < |keys| => Bucket(keys[i], m[keys[i]]))
  }

  /** `Object.entries(colorMap)` after counting the samples `s`. */
  function Buckets(s: seq<Rgb>): seq<Bucket> {
    KeyCounts(FirstSeen(s), multiset(s))
  }

  /** `colorMap`, with its keys in insertion order `order`, holds the counts of `seen`. */
  ghost predicate Tallied(colorMap: map<Rgb, nat>, order: seq<Rgb>, seen: seq<Rgb>) {
    && order == FirstSeen(seen)
    && (forall key :: key in colorMap <==> key in order)
    && (forall key :: key in colorMap ==> colorMap[key] == multiset(seen)[key])
  }

  /** One `colorMap[key] = (colorMap[key] || 0) + 1`. */
  function AddSample(colorMap: map<Rgb, nat>, key: Rgb): map<Rgb, nat> {
    colorMap[key := (if key in colorMap then colorMap[key] else 0) + 1]
  }

  lemma {:induction false} TalliedStep(colorMap: map<Rgb, nat>, order: seq<Rgb>, seen: seq<Rgb>, key: Rgb)
    requires Tallied(colorMap, order, seen)
    ensures Tallied(AddSample(colorMap, key),
                    if key in colorMap then order else order + [key], seen + [key])
  {
    var colorMap', order', seen' := AddSample(colorMap, key),
      (if key in colorMap then order else order + [key]), seen + [key];
    FirstSeenSnoc(seen, key);
    assert key in colorMap <==> key in order;
    assert order' == FirstSeen(seen');
    forall k ensures k in colorMap' <==> k in order' {
      assert k in colorMap' <==> k in colorMap || k == key;
    }
    AddSampleCounts(colorMap, seen, key);
  }

  /** Scanning one more sample appends it to the key order unless it was seen before. */
  lemma {:induction false} FirstSeenSnoc(seen: seq<Rgb>, key: Rgb)
    ensures FirstSeen(seen + [key])
         == if key in FirstSeen(seen) then FirstSeen(seen) else FirstSeen(seen) + [key]
  {
    var s := seen + [key];
    assert s[..|s| - 1] == seen && s[|s| - 1] == key;
  }

  /** Counting one more sample keeps the counts equal to its occurrences. */
  lemma {:induction false} AddSampleCounts(colorMap: map<Rgb, nat>, seen: seq<Rgb>, key: Rgb)
    requires forall k :: k in colorMap ==> colorMap[k] == multiset(seen)[k]
    requires forall k :: k in seen ==> k in colorMap
    ensures forall k :: k in AddSample(colorMap, key) ==>
              AddSample(colorMap, key)[k] == multiset(seen + [key])[k]
  {
    assert multiset(seen + [key]) == multiset(seen) + multiset{key};
    if key !in colorMap {
      assert multiset(seen)[key] == 0;
    }
  }

  lemma {:induction false} TalliedEntries(colorMap: map<Rgb, nat>, order: seq<Rgb>, seen: seq<Rgb>)
    requires Tallied(colorMap, order, seen)
    ensures seq(|order|, j requires 0 <= j < |order| => Bucket(order[j], colorMap[order[j]]))
         == Buckets(seen)
  {
  }

  /** The loop state after visiting the samples before pixel `p`: `seen` are those samples and
      `colorMap`, with key order `order`, tallies them. */
  ghost predicate Collected(data: seq<Byte>, sr: nat, p: nat, colorMap: map<Rgb, nat>,
                            order: seq<Rgb>, seen: seq<Rgb>)
    requires sr >= 1
  {
    Tallied(colorMap, order, seen) && seen + SamplesFrom(data, sr, p) == Samples(data, sr)
  }

  /** One iteration of the sampling loop keeps the tally of the pixels visited so far. */
  lemma {:induction false} SampleStep(data: seq<Byte>, sr: nat, p: nat, colorMap: map<Rgb, nat>,
                                     order: seq<Rgb>, seen: seq<Rgb>, key: Rgb)
    requires sr >= 1 && p < |data| / 4 && key == Quantize(PixelColor(data, p))
    requires Collected(data, sr, p, colorMap, order, seen)
    ensures Collected(data, sr, p + sr, AddSample(colorMap, key),
                      if key in colorMap then order else order + [key], seen + [key])
  {
    SamplesAdvance(data, sr, p, seen, key);
    TalliedStep(colorMap, order, seen, key);
  }

  /** Visiting pixel `p` moves its sample from the samples still to come to those seen. */
  lemma {:induction false} SamplesAdvance(data: seq<Byte>, sr: nat, p: nat, seen: seq<Rgb>, key: Rgb)
    requires sr >= 1 && p < |data| / 4 && key == Quantize(PixelColor(data, p))
    requires seen + SamplesFrom(data, sr, p) == Samples(data, sr)
    ensures (seen + [key]) + SamplesFrom(data, sr, p + sr) == Samples(data, sr)
  {
    var rest := SamplesFrom(data, sr, p + sr);
    assert SamplesFrom(data, sr, p) == [key] + rest;
    assert (seen + [key]) + rest == seen + ([key] + rest);
  }

  lemma {:induction false} CollectedStart(data: seq<Byte>, sr: nat)
    requires sr >= 1
    ensures Collected(data, sr, 0, map[], [], [])
  {
    assert [] + SamplesFrom(data, sr, 0) == Samples(data, sr);
  }

  lemma {:induction false} CollectedEnd(data: seq<Byte>, sr: nat, p: nat, colorMap: map<Rgb, nat>,
                     order: seq<Rgb>, seen: seq<Rgb>)
    requires sr >= 1 && p >= |data| / 4 && Collected(data, sr, p, colorMap, order, seen)
    ensures seq(|order|, j requires 0 <= j < |order| => Bucket(order[j], colorMap[order[j]]))
         == Buckets(Samples(data, sr))
  {
    assert seen + [] == seen;
    TalliedEntries(colorMap, order, seen);
  }

  lemma {:induction false} PixelIndex(n: nat, p: nat)
    requires n % 4 == 0 && 4 * p < n
    ensures p < n / 4
  {
    assert n == 4 * (n / 4);
  }

  /** One pass of the sampling loop: the pixel at byte offset `i` is pixel `p`; its key is
      counted in `colorMap` and, when new, appended to the key order. */
  method VisitPixel(data: seq<Byte>, sampleRate: nat, colorMap: map<Rgb, nat>, order: seq<Rgb>,
                    ghost seen: seq<Rgb>, ghost p: nat, i: nat)
    returns (colorMap': map<Rgb, nat>, order': seq<Rgb>, ghost seen': seq<Rgb>, ghost p': nat,
             i': nat)
    requires sampleRate >= 1 && |data| % 4 == 0 && i < |data| && i == 4 * p
    requires Collected(data, sampleRate, p, colorMap, order, seen)
    ensures i' == i + 4 * sampleRate && i' == 4 * p'
    ensures Collected(data, sampleRate, p', colorMap', order', seen')
  {
    PixelIndex(|data|, p);
    var key := Rgb(data[i] / 16, data[i + 1] / 16, data[i + 2] / 16);
    assert key == Quantize(PixelColor(data, p));
    order' := if key in colorMap then order else order + [key];
    colorMap' := AddSample(colorMap, key);
    seen' := seen + [key];
    p' := p + sampleRate;
    SampleStep(data, sampleRate, p, colorMap, order, seen, key);
    i' := i + 4 * sampleRate;
  }

  /** The sampling loop of `analyzeImage`: `colorMap[key] = (colorMap[key] || 0) + 1` over
      every `sampleRate`-th pixel; `order` is the insertion order of the object's keys, which
      `Object.entries` follows. */
  method CollectBuckets(data: seq<Byte>, pixelCount: nat) returns (entries: seq<Bucket>)
    requires |data| == pixelCount * 4
    ensures entries == Buckets(Samples(data, SampleRate(pixelCount)))
  {
    var sampleRate := SampleRate(pixelCount);
    var colorMap: map<Rgb, nat> := map[];
    var order: seq<Rgb> := [];
    ghost var seen: seq<Rgb> := [];
    ghost var p: nat := 0;
    var i := 0;
    CollectedStart(data, sampleRate);
    while i < |data|
      invariant i == 4 * p
      invariant Collected(data, sampleRate, p, colorMap, order, seen)
      decreases |data| - i
    {
      colorMap, order, seen, p, i := VisitPixel(data, sampleRate, colorMap, order, seen, p, i);
    }
    CollectedEnd(data, sampleRate, p, colorMap, order, seen);
    entries := seq(|order|, j requires 0 <= j < |order| => Bucket(order[j], colorMap[order[j]]));
  }

  /** Every bucket key has channels in 0..15. */
  lemma {:induction false} BucketKeysInRange(data: seq<Byte>, sr: nat)
    requires sr >= 1
    ensures forall b :: b in Buckets(Samples(data, sr)) ==> IsBucketKey(b.key)
  {
    var s := Samples(data, sr);
    forall b | b in Buckets(s) ensures IsBucketKey(b.key) {
      var i :| 0 <= i < |FirstSeen(s)| && Buckets(s)[i] == b;
      assert b.key in s;
      SamplesFromPixels(data, sr, 0, b.key);
    }
  }

  function TotalCount(bs: seq<Bucket>): nat {
    if bs == [] then 0 else TotalCount(bs[..|bs| - 1]) + bs[|bs| - 1].count
  }

  lemma {:induction false} KeyCountsAdd(keys: seq<Rgb>, m: multiset<Rgb>, x: Rgb)
    requires Distinct(keys)
    ensures TotalCount(KeyCounts(keys, m + multiset{x}))
         == TotalCount(KeyCounts(keys, m)) + (if x in keys then 1 else 0)
  {
    if keys != [] {
      var keys' := keys[..|keys| - 1];
      assert KeyCounts(keys, m)[..|keys| - 1] == KeyCounts(keys', m);
      assert KeyCounts(keys, m + multiset{x})[..|keys| - 1] == KeyCounts(keys', m + multiset{x});
      KeyCountsAdd(keys', m, x);
      assert x in keys <==> x in keys' || x == keys[|keys| - 1];
    }
  }

  /** The bucket counts add up to the number of samples. */
  lemma {:induction false} BucketsTotal(s: seq<Rgb>)
    ensures TotalCount(Buckets(s)) == |s|
  {
    if s != [] {
      var s', x := s[..|s| - 1], s[|s| - 1];
      assert s == s' + [x];
      assert multiset(s) == multiset(s') + multiset{x};
      BucketsTotal(s');
      var keys' := FirstSeen(s');
      FirstSeenDistinct(s');
      KeyCountsAdd(keys', multiset(s'), x);
      if x !in keys' {
        var bs := KeyCounts(keys' + [x], multiset(s));
        assert bs[..|keys'|] == KeyCounts(keys', multiset(s));
        assert multiset(s')[x] == 0;
      }
    }
  }

  // ---------------------------------------------------------------------------------------
  // Ordering of buckets: `sort(([, a], [, b]) => b - a)`, a stable sort by descending count.
  // ---------------------------------------------------------------------------------------

  ghost predicate CountsNonIncreasing(s: seq<Bucket>) {
    forall i, j :: 0 <= i < j < |s| ==> s[i].count >= s[j].count
  }

  /** The buckets of `s` whose count is `c`, in their order in `s`. */
  function WithCount(s: seq<Bucket>, c: nat): seq<Bucket> {
    if s == [] then [] else (if s[0].count == c then [s[0]] else []) + WithCount(s[1..], c)
  }

  lemma {:induction false} WithCountAppend(s: seq<Bucket>, t: seq<Bucket>, c: nat)
    ensures WithCount(s + t, c) == WithCount(s, c) + WithCount(t, c)
  {
    if s == [] {
      assert s + t == t;
    } else {
      var u := s + t;
      assert u != [] && u[0] == s[0] && u[1..] == s[1..] + t;
      assert WithCount(u, c) == (if s[0].count == c then [s[0]] else []) + WithCount(u[1..], c);
      WithCountAppend(s[1..], t, c);
    }
  }

  lemma {:induction false} WithCountNone(s: seq<Bucket>, c: nat)
    requires forall i :: 0 <= i < |s| ==> s[i].count < c
    ensures WithCount(s, c) == []
  {
    if s != [] {
      WithCountNone(s[1..], c);
    }
  }

  /** Insert `b` after every bucket whose count is at least `b`'s. */
  function InsertByCount(b: Bucket, s: seq<Bucket>): seq<Bucket> {
    if s == [] then [b]
    else if s[0].count >= b.count then [s[0]] + InsertByCount(b, s[1..])
    else [b] + s
  }

  function SortByCount(s: seq<Bucket>): seq<Bucket> {
    if s == [] then [] else InsertByCount(s[|s| - 1], SortByCount(s[..|s| - 1]))
  }

  lemma {:induction false} InsertByCountPerm(b: Bucket, s: seq<Bucket>)
    ensures multiset(InsertByCount(b, s)) == multiset(s) + multiset{b}
  {
    if s != [] && s[0].count >= b.count {
      InsertByCountPerm(b, s[1..]);
      assert s == [s[0]] + s[1..];
    }
  }

  lemma {:induction false} InsertByCountOrdered(b: Bucket, s: seq<Bucket>)
    requires CountsNonIncreasing(s)
    ensures CountsNonIncreasing(InsertByCount(b, s))
  {
    if s != [] && s[0].count >= b.count {
      var t := InsertByCount(b, s[1..]);
      InsertByCountOrdered(b, s[1..]);
      InsertByCountPerm(b, s[1..]);
      forall j | 0 <= j < |t| ensures s[0].count >= t[j].count {
        assert t[j] in multiset(s[1..]) + multiset{b};
      }
    }
  }

  lemma {:induction false} WithCountCons(x: Bucket, t: seq<Bucket>, c: nat)
    ensures WithCount([x] + t, c) == (if x.count == c then [x] else []) + WithCount(t, c)
  {
    assert ([x] + t)[0] == x && ([x] + t)[1..] == t;
  }

  lemma {:induction false} NonIncreasingTail(s: seq<Bucket>)
    requires s != [] && CountsNonIncreasing(s)
    ensures CountsNonIncreasing(s[1..])
  {
    forall i, j | 0 <= i < j < |s| - 1 ensures s[1..][i].count >= s[1..][j].count {
      assert s[1..][i] == s[i + 1] && s[1..][j] == s[j + 1];
    }
  }

  /** Passing over a bucket `x` that stays in front keeps what a later insertion adds. */
  lemma {:induction false} WithCountPass(x: Bucket, rest: seq<Bucket>, t: seq<Bucket>, c: nat,
                                         added: seq<Bucket>)
    requires WithCount(rest, c) == WithCount(t, c) + added
    ensures WithCount([x] + rest, c) == WithCount([x] + t, c) + added
  {
    var head := if x.count == c then [x] else [];
    WithCountCons(x, rest, c);
    WithCountCons(x, t, c);
    assert head + (WithCount(t, c) + added) == (head + WithCount(t, c)) + added;
  }

  /** A bucket put in front of buckets with smaller counts comes last among its count. */
  lemma {:induction false} WithCountFront(b: Bucket, s: seq<Bucket>, c: nat)
    requires CountsNonIncreasing(s) && (s != [] ==> s[0].count < b.count)
    ensures WithCount([b] + s, c) == WithCount(s, c) + (if b.count == c then [b] else [])
  {
    WithCountCons(b, s, c);
    if c == b.count {
      forall i | 0 <= i < |s| ensures s[i].count < c {
        assert s[0].count >= s[i].count;
      }
      WithCountNone(s, c);
    }
  }

  lemma {:induction false} InsertByCountWithCount(b: Bucket, s: seq<Bucket>, c: nat)
    requires CountsNonIncreasing(s)
    ensures WithCount(InsertByCount(b, s), c) == WithCount(s, c) + (if b.count == c then [b] else [])
  {
    if s != [] && s[0].count >= b.count {
      assert InsertByCount(b, s) == [s[0]] + InsertByCount(b, s[1..]);
      NonIncreasingTail(s);
      InsertByCountWithCount(b, s[1..], c);
      WithCountPass(s[0], InsertByCount(b, s[1..]), s[1..], c, if b.count == c then [b] else []);
      assert s == [s[0]] + s[1..];
    } else {
      assert InsertByCount(b, s) == [b] + s;
      WithCountFront(b, s, c);
    }
  }

  /** Inserting keeps the counts ordered, adds exactly `b`, and places `b` after every bucket
      with the same count. */
  lemma {:induction false} InsertByCountSpec(b: Bucket, s: seq<Bucket>)
    requires CountsNonIncreasing(s)
    ensures multiset(InsertByCount(b, s)) == multiset(s) + multiset{b}
    ensures CountsNonIncreasing(InsertByCount(b, s))
    ensures forall c :: WithCount(InsertByCount(b, s), c)
                     == WithCount(s, c) + (if b.count == c then [b] else [])
  {
    InsertByCountPerm(b, s);
    InsertByCountOrdered(b, s);
    forall c ensures WithCount(InsertByCount(b, s), c)
                     == WithCount(s, c) + (if b.count == c then [b] else []) {
      InsertByCountWithCount(b, s, c);
    }
  }

  lemma {:induction false} SortByCountPerm(s: seq<Bucket>)
    ensures multiset(SortByCount(s)) == multiset(s)
  {
    if s != [] {
      var s', x := s[..|s| - 1], s[|s| - 1];
      assert s == s' + [x];
      SortByCountPerm(s');
      InsertByCountPerm(x, SortByCount(s'));
    }
  }

  lemma {:induction false} SortByCountOrdered(s: seq<Bucket>)
    ensures CountsNonIncreasing(SortByCount(s))
  {
    if s != [] {
      var s', x := s[..|s| - 1], s[|s| - 1];
      SortByCountOrdered(s');
      InsertByCountOrdered(x, SortByCount(s'));
    }
  }

  lemma {:induction false} SortByCountStable(s: seq<Bucket>, c: nat)
    ensures WithCount(SortByCount(s), c) == WithCount(s, c)
  {
    if s != [] {
      var s', x := s[..|s| - 1], s[|s| - 1];
      assert s == s' + [x];
      assert SortByCount(s) == InsertByCount(x, SortByCount(s'));
      SortByCountStable(s', c);
      SortByCountOrdered(s');
      InsertByCountWithCount(x, SortByCount(s'), c);
      WithCountAppend(s', [x], c);
      assert [x][1..] == [];
    }
  }

  /** The sort is a permutation, orders counts from high to low and, among buckets with equal
      counts, keeps their original order. */
  lemma {:induction false} SortByCountSpec(s: seq<Bucket>)
    ensures multiset(SortByCount(s)) == multiset(s)
    ensures |SortByCount(s)| == |s|
    ensures CountsNonIncreasing(SortByCount(s))
    ensures forall c :: WithCount(SortByCount(s), c) == WithCount(s, c)
  {
    SortByCountPerm(s);
    assert |multiset(SortByCount(s))| == |multiset(s)|;
    SortByCountOrdered(s);
    forall c ensures WithCount(SortByCount(s), c) == WithCount(s, c) {
      SortByCountStable(s, c);
    }
  }

  // ---------------------------------------------------------------------------------------
  // Palette
  // ---------------------------------------------------------------------------------------

  const PaletteSize: nat := 10

  /** `rgbToHex(r << 4, g << 4, b << 4)`: the bucket's lower bound as `#rrggbb`. */
  function ToPaletteItem(b: Bucket): ColorPaletteItem
    requires IsBucketKey(b.key)
  {
    ColorPaletteItem(RgbToHex(b.key.r * 16, b.key.g * 16, b.key.b * 16), b.count)
  }

  /** The buckets of the samples, sorted by descending count. */
  function SortedBuckets(data: seq<Byte>, pixelCount: nat): seq<Bucket> {
    SortByCount(Buckets(Samples(data, SampleRate(pixelCount))))
  }

  lemma {:induction false} SortedBucketKeys(data: seq<Byte>, pixelCount: nat)
    ensures forall i :: 0 <= i < |SortedBuckets(data, pixelCount)| ==>
              IsBucketKey(SortedBuckets(data, pixelCount)[i].key)
  {
    var bs := Buckets(Samples(data, SampleRate(pixelCount)));
    BucketKeysInRange(data, SampleRate(pixelCount));
    SortByCountSpec(bs);
    var sorted := SortedBuckets(data, pixelCount);
    forall i | 0 <= i < |sorted| ensures IsBucketKey(sorted[i].key) {
      assert sorted[i] in multiset(bs);
    }
  }

  /** `sortedColors.slice(0, 10).map(...)`. */
  function PaletteOf(data: seq<Byte>, pixelCount: nat): (palette: seq<ColorPaletteItem>)
    ensures |palette| == Min(|SortedBuckets(data, pixelCount)|, PaletteSize)
  {
    var sorted := SortedBuckets(data, pixelCount);
    SortedBucketKeys(data, pixelCount);
    seq(Min(|sorted|, PaletteSize), i requires 0 <= i < Min(|sorted|, PaletteSize) =>
      ToPaletteItem(sorted[i]))
  }

  /** The whole of `analyzeImage` after decoding. */
  method AnalyzeImage(width: nat, height: nat, data: seq<Byte>) returns (result: AnalysisResult)
    requires |data| == width * height * 4
    ensures result.properties == ImageProperties(width, height, width * height)
    ensures IsHistogramOf(result.histogram, data)
    ensures result.palette == PaletteOf(data, width * height)
  {
    var properties := ImageProperties(width, height, width * height);
    var histogram := ComputeHistogram(data);
    var entries := CollectBuckets(data, properties.pixelCount);
    var sortedColors := SortByCount(entries);
    assert sortedColors == SortedBuckets(data, properties.pixelCount);
    SortedBucketKeys(data, properties.pixelCount);
    var palette := seq(Min(|sortedColors|, PaletteSize),
                       i requires 0 <= i < Min(|sortedColors|, PaletteSize) =>
                         ToPaletteItem(sortedColors[i]));
    result := AnalysisResult(properties, histogram, palette);
  }

  // ---------------------------------------------------------------------------------------
  // Properties of the palette
  // ---------------------------------------------------------------------------------------

  /** The hex string written for a bucket: `#` and six lower-case digits, decoding to the
      bucket floor, whose channels are multiples of 16 no larger than 240. */
  ghost predicate IsBucketFloorHex(hex: string) {
    && |hex| == 7 && hex[0] == '#' && (forall k :: 1 <= k < 7 ==> IsLowerHexChar(hex[k]))
    && HexToRgb(hex).Some?
    && var c := HexToRgb(hex).value;
       && c.r % 16 == 0 && c.g % 16 == 0 && c.b % 16 == 0
       && 0 <= c.r <= 240 && 0 <= c.g <= 240 && 0 <= c.b <= 240
  }

  lemma {:induction false} PaletteItemHex(b: Bucket)
    requires IsBucketKey(b.key)
    ensures HexToRgb(ToPaletteItem(b).hex) == Some(Rgb(16 * b.key.r, 16 * b.key.g, 16 * b.key.b))
    ensures IsBucketFloorHex(ToPaletteItem(b).hex)
  {
    var k := b.key;
    var hex := ToPaletteItem(b).hex;
    var c := Rgb(16 * k.r, 16 * k.g, 16 * k.b);
    BucketFloor(k.r);
    BucketFloor(k.g);
    BucketFloor(k.b);
    assert hex == RgbToHex(c.r, c.g, c.b);
    RgbToHexShape(c.r, c.g, c.b);
    HexRoundTrip(c.r, c.g, c.b);
    assert HexToRgb(hex).value == c;
  }

  lemma {:induction false} BucketFloor(k: int)
    requires 0 <= k < 16
    ensures k * 16 == 16 * k && 0 <= 16 * k <= 240 && (16 * k) % 16 == 0
  {
    DivUnique(16 * k, 16, k);
  }

  /** At most ten entries, counts that do not increase, and every hex string the floor of its
      bucket. */
  lemma {:induction false} PaletteShape(data: seq<Byte>, pixelCount: nat)
    ensures var palette := PaletteOf(data, pixelCount);
      && |palette| <= PaletteSize
      && (forall i, j :: 0 <= i < j < |palette| ==> palette[i].count >= palette[j].count)
      && forall i :: 0 <= i < |palette| ==> IsBucketFloorHex(palette[i].hex)
  {
    var palette := PaletteOf(data, pixelCount);
    var sorted := SortedBuckets(data, pixelCount);
    SortedBucketKeys(data, pixelCount);
    SortByCountSpec(Buckets(Samples(data, SampleRate(pixelCount))));
    forall i | 0 <= i < |palette| ensures IsBucketFloorHex(palette[i].hex) {
      assert palette[i] == ToPaletteItem(sorted[i]);
      PaletteItemHex(sorted[i]);
    }
    forall i, j | 0 <= i < j < |palette| ensures palette[i].count >= palette[j].count {
      assert palette[i] == ToPaletteItem(sorted[i]) && palette[j] == ToPaletteItem(sorted[j]);
    }
  }

  /** The palette keeps the largest buckets: entry `i` is bucket `i` of the sorted buckets, it
      counts the samples that fall in its bucket, and no bucket left out outnumbers it. */
  lemma {:induction false} PaletteIsTopBuckets(data: seq<Byte>, pixelCount: nat)
    ensures var palette := PaletteOf(data, pixelCount);
      var sorted := SortedBuckets(data, pixelCount);
      var samples := Samples(data, SampleRate(pixelCount));
      && |palette| == Min(|sorted|, PaletteSize)
      && (forall i :: 0 <= i < |palette| ==>
            && IsBucketKey(sorted[i].key)
            && palette[i] == ToPaletteItem(sorted[i])
            && sorted[i].key in samples
            && palette[i].count == multiset(samples)[sorted[i].key])
      && (forall i, j :: 0 <= i < |palette| <= j < |sorted| ==> sorted[j].count <= palette[i].count)
  {
    var palette := PaletteOf(data, pixelCount);
    var sorted := SortedBuckets(data, pixelCount);
    var samples := Samples(data, SampleRate(pixelCount));
    var bs := Buckets(samples);
    SortedBucketKeys(data, pixelCount);
    SortByCountSpec(bs);
    forall i | 0 <= i < |sorted|
      ensures sorted[i].key in samples && sorted[i].count == multiset(samples)[sorted[i].key]
    {
      assert sorted[i] in multiset(bs);
      var k :| 0 <= k < |bs| && bs[k] == sorted[i];
      assert FirstSeen(samples)[k] in FirstSeen(samples);
    }
    forall i | 0 <= i < |palette| ensures palette[i] == ToPaletteItem(sorted[i]) {
    }
  }

  /** An image without pixels has an empty palette. */
  lemma {:induction false} EmptyImagePalette(data: seq<Byte>)
    requires |data| == 0
    ensures PaletteOf(data, 0) == []
  {
    assert Samples(data, SampleRate(0)) == [];
    assert FirstSeen([]) == [];
  }

  /** The samples are `ceil(pixelCount / sr)` many, and so are the bucket counts in total. */
  lemma {:induction false} BucketCountsTotal(data: seq<Byte>, pixelCount: nat)
    requires |data| == pixelCount * 4
    ensures TotalCount(Buckets(Samples(data, SampleRate(pixelCount))))
         == CeilDiv(pixelCount, SampleRate(pixelCount))
  {
    SamplesCount(data, SampleRate(pixelCount));
    BucketsTotal(Samples(data, SampleRate(pixelCount)));
  }

  lemma {:induction false} SamplesFromSolid(data: seq<Byte>, sr: nat, p: nat, c: Rgb)
    requires sr >= 1 && Solid(data, c)
    ensures forall i :: 0 <= i < |SamplesFrom(data, sr, p)| ==> SamplesFrom(data, sr, p)[i] == Quantize(c)
    decreases |data| / 4 - p
  {
    if p < |data| / 4 {
      SamplesFromSolid(data, sr, p + sr, c);
    }
  }

  lemma {:induction false} FirstSeenConstant(s: seq<Rgb>, k: Rgb)
    requires s != [] && forall i :: 0 <= i < |s| ==> s[i] == k
    ensures FirstSeen(s) == [k]
  {
    if |s| > 1 {
      FirstSeenConstant(s[..|s| - 1], k);
    }
  }

  lemma {:induction false} MultisetConstant(s: seq<Rgb>, k: Rgb)
    requires forall i :: 0 <= i < |s| ==> s[i] == k
    ensures multiset(s)[k] == |s|
  {
    if s != [] {
      assert s == s[..|s| - 1] + [k];
      MultisetConstant(s[..|s| - 1], k);
    }
  }

  /** A one-colour image fills a single bucket with every sample. */
  lemma {:induction false} SolidBuckets(data: seq<Byte>, pixelCount: nat, c: Rgb)
    requires |data| == pixelCount * 4 && pixelCount > 0 && Solid(data, c)
    ensures Buckets(Samples(data, SampleRate(pixelCount)))
         == [Bucket(Quantize(c), CeilDiv(pixelCount, SampleRate(pixelCount)))]
  {
    var sr := SampleRate(pixelCount);
    var samples := Samples(data, sr);
    assert |data| / 4 == pixelCount;
    SamplesCount(data, sr);
    CeilDivBound(pixelCount, sr, 0);
    SamplesFromSolid(data, sr, 0, c);
    FirstSeenConstant(samples, Quantize(c));
    MultisetConstant(samples, Quantize(c));
  }

  /** A single bucket makes a one-entry palette. */
  lemma {:induction false} PaletteOfSingle(data: seq<Byte>, pixelCount: nat, b: Bucket)
    requires Buckets(Samples(data, SampleRate(pixelCount))) == [b]
    ensures IsBucketKey(b.key) && PaletteOf(data, pixelCount) == [ToPaletteItem(b)]
  {
    assert SortByCount([b]) == InsertByCount(b, []) == [b];
    assert SortedBuckets(data, pixelCount) == [b];
    SortedBucketKeys(data, pixelCount);
    assert b in SortedBuckets(data, pixelCount);
  }

  /** A one-colour image has a one-entry palette: the colour's bucket, holding every sample. */
  lemma {:induction false} SolidImagePalette(data: seq<Byte>, pixelCount: nat, c: Rgb)
    requires |data| == pixelCount * 4 && pixelCount > 0 && Solid(data, c)
    ensures IsBucketKey(Quantize(c))
    ensures PaletteOf(data, pixelCount)
         == [ToPaletteItem(Bucket(Quantize(c), CeilDiv(pixelCount, SampleRate(pixelCount))))]
  {
    var b := Bucket(Quantize(c), CeilDiv(pixelCount, SampleRate(pixelCount)));
    SolidBuckets(data, pixelCount, c);
    PaletteOfSingle(data, pixelCount, b);
  }
}
