/** `reconstructAsCircles`: paint the canvas dark, then stipple it with `numCircles` circles,
    each centred on a sampled pixel, coloured like that pixel and with a radius that grows with
    the pixel's brightness. Progress is reported, and the browser given a frame, once every
    `ceil(numCircles / 200)` circles; `isCancelled()` is polled before each circle.

    The sampled centres (`Math.floor(Math.random() * width)` and the same for the height) are a
    parameter: `positions[i]` is the centre of the `i`-th circle, so `|positions|` is
    `numCircles`. */
module Circles {
  import opened Pixels
  import opened Canvas

  datatype Point = Point(x: nat, y: nat)

  /** `#111827`, the colour the canvas is cleared to. */
  const Background := Rgb(17, 24, 39)

  /** The number of progress frames the batch size aims for. */
  const TargetFrames := 200

  predicate InImage(positions: seq<Point>, width: nat, height: nat) {
    forall k :: 0 <= k < |positions| ==> positions[k].x < width && positions[k].y < height
  }

  /** Perceived brightness of a colour, `(0.299 r + 0.587 g + 0.114 b) / 255`. */
  function Brightness(c: Rgb): real {
    (c.r as real * 0.299 + c.g as real * 0.587 + c.b as real * 0.114) / 255.0
  }

  function Radius(minRadius: real, maxRadius: real, c: Rgb): real {
    minRadius + (maxRadius - minRadius) * Brightness(c)
  }

  /** The colour `getImageData(x, y, 1, 1)` reads at a centre. */
  function ColorAt(data: seq<Byte>, width: nat, height: nat, p: Point): Rgb
    requires |data| == width * height * 4 && p.x < width && p.y < height
  {
    CropLength(data, width, height, p.x, p.y, 1, 1);
    PixelColor(Crop(data, width, height, p.x, p.y, 1, 1), 0)
  }

  /** The circle centred on `p`. */
  function CircleAt(data: seq<Byte>, width: nat, height: nat, minRadius: real,
                    maxRadius: real, p: Point): Command
    requires |data| == width * height * 4 && p.x < width && p.y < height
  {
    var c := ColorAt(data, width, height, p);
    FillCircle(p.x, p.y, Radius(minRadius, maxRadius, c), c)
  }

  /** One circle: `ctx.arc` rejects a negative radius with an exception, which the source
      catches, so such a circle is not drawn. */
  function CircleEffects(data: seq<Byte>, width: nat, height: nat, minRadius: real,
                         maxRadius: real, p: Point): seq<Effect>
    requires |data| == width * height * 4 && p.x < width && p.y < height
  {
    var circle := CircleAt(data, width, height, minRadius, maxRadius, p);
    if circle.radius >= 0.0 then [Draw(circle)] else []
  }

  /** What each trial draws, in order: the circle of its centre, or nothing. */
  function CircleList(data: seq<Byte>, width: nat, height: nat, minRadius: real,
                      maxRadius: real, positions: seq<Point>): (circles: seq<seq<Effect>>)
    requires |data| == width * height * 4 && InImage(positions, width, height)
    ensures |circles| == |positions|
  {
    seq(|positions|, k requires 0 <= k < |positions| =>
      CircleEffects(data, width, height, minRadius, maxRadius, positions[k]))
  }

  /** Every trial only draws. */
  predicate TrialsOnlyDraw(circles: seq<seq<Effect>>) {
    forall k, j :: 0 <= k < |circles| && 0 <= j < |circles[k]| ==> circles[k][j].Draw?
  }

  /** The report and yield that follow trial `i`, if any. */
  function Report(i: nat, batch: nat, numCircles: nat): seq<Effect>
    requires batch > 0 && numCircles > 0
  {
    if Checkpoint(i, batch) then [Progress(i as real / numCircles as real), Yield] else []
  }

  /** The trials from the `i`-th on, `yieldCount` yields into the run, where trial `k` draws
      `circles[k]`. */
  function TrialsFrom(circles: seq<seq<Effect>>, batch: nat, isCancelled: nat -> bool, i: nat,
                      yieldCount: nat): Run
    requires batch > 0
    decreases |circles| - i
  {
    if i >= |circles| then Run([], true, yieldCount, i)
    else if isCancelled(yieldCount) then Run([], false, yieldCount, i)
    else
      var rest := TrialsFrom(circles, batch, isCancelled, i + 1,
                             if Checkpoint(i, batch) then yieldCount + 1 else yieldCount);
      Run(circles[i] + Report(i, batch, |circles|) + rest.effects, rest.completed,
          rest.yieldCount, rest.steps)
  }

  /** `ceil(numCircles / 200)`, at least 1 so that `i % batchSize` is defined. */
  function BatchSize(numCircles: nat): (batch: nat)
    ensures batch > 0
  {
    if numCircles == 0 then 1 else CeilDiv(numCircles, TargetFrames)
  }

  function Trials(data: seq<Byte>, width: nat, height: nat, minRadius: real, maxRadius: real,
                  positions: seq<Point>, isCancelled: nat -> bool): Run
    requires |data| == width * height * 4 && InImage(positions, width, height)
  {
    TrialsFrom(CircleList(data, width, height, minRadius, maxRadius, positions),
               BatchSize(|positions|), isCancelled, 0, 0)
  }
  /** The whole of `reconstructAsCircles` as written: the final `onProgress(1)` follows the
      loop without another poll. */
  function CirclesTrace(data: seq<Byte>, width: nat, height: nat, minRadius: real,
                        maxRadius: real, positions: seq<Point>, isCancelled: nat -> bool)
    : seq<Effect>
    requires |data| == width * height * 4 && InImage(positions, width, height)
  {
    var trials := Trials(data, width, height, minRadius, maxRadius, positions, isCancelled);
    [Draw(FillRect(0, 0, width, height, Background))] + trials.effects
      + (if trials.completed then [Progress(1.0)] else [])
  }

  /** The same with `isCancelled()` polled once more before the final `onProgress(1)`. */
  function CirclesTraceGuarded(data: seq<Byte>, width: nat, height: nat, minRadius: real,
                               maxRadius: real, positions: seq<Point>,
                               isCancelled: nat -> bool): seq<Effect>
    requires |data| == width * height * 4 && InImage(positions, width, height)
  {
    var trials := Trials(data, width, height, minRadius, maxRadius, positions, isCancelled);
    [Draw(FillRect(0, 0, width, height, Background))] + trials.effects
      + (if trials.completed && !isCancelled(trials.yieldCount) then [Progress(1.0)] else [])
  }

  // ---------------------------------------------------------------------------------------
  // The loop
  // ---------------------------------------------------------------------------------------

  lemma {:induction false} TrialStep(circles: seq<seq<Effect>>, batch: nat,
                                     isCancelled: nat -> bool, whole: Run,
                                     i: nat, yieldCount: nat, trace: seq<Effect>,
                                     i': nat, yieldCount': nat, trace': seq<Effect>)
    requires batch > 0 && i < |circles| && !isCancelled(yieldCount)
    requires whole == After(trace, TrialsFrom(circles, batch, isCancelled, i, yieldCount))
    requires i' == i + 1
    requires yieldCount' == if Checkpoint(i, batch) then yieldCount + 1 else yieldCount
    requires trace' == trace + circles[i] + Report(i, batch, |circles|)
    ensures whole == After(trace', TrialsFrom(circles, batch, isCancelled, i', yieldCount'))
  {
    var rest := TrialsFrom(circles, batch, isCancelled, i', yieldCount');
    TrialsUnfold(circles, batch, isCancelled, i, yieldCount);
    Associative3(trace, circles[i], Report(i, batch, |circles|), rest.effects);
  }

  /** The loop of `reconstructAsCircles`, with `batch = ceil(numCircles / 200)`. */
  method CircleTrials(data: seq<Byte>, width: nat, height: nat, minRadius: real,
                      maxRadius: real, positions: seq<Point>, isCancelled: nat -> bool)
    returns (run: Run)
    requires |data| == width * height * 4 && InImage(positions, width, height)
    ensures run == Trials(data, width, height, minRadius, maxRadius, positions, isCancelled)
  {
    var batch := BatchSize(|positions|);
    ghost var circles := CircleList(data, width, height, minRadius, maxRadius, positions);
    ghost var whole := TrialsFrom(circles, batch, isCancelled, 0, 0);
    var trace: seq<Effect> := [];
    var yieldCount := 0;
    var i := 0;
    assert whole == After(trace, TrialsFrom(circles, batch, isCancelled, i, yieldCount));
    while i < |positions|
      invariant i <= |positions|
      invariant whole == After(trace, TrialsFrom(circles, batch, isCancelled, i, yieldCount))
      decreases |positions| - i
    {
      if isCancelled(yieldCount) {
        TrialsStop(circles, batch, isCancelled, i, yieldCount);
        assert trace + [] == trace;
        return Run(trace, false, yieldCount, i);
      }
      ghost var i0, yieldCount0, trace0 := i, yieldCount, trace;
      var p := positions[i];
      var c := ColorAt(data, width, height, p);
      var radius := Radius(minRadius, maxRadius, c);
      var circle: seq<Effect> := [];
      if radius >= 0.0 {
        circle := [Draw(FillCircle(p.x, p.y, radius, c))];
      }
      assert circle == circles[i];
      var report: seq<Effect> := [];
      if i % batch == 0 {
        report := [Progress(i as real / |positions| as real), Yield];
        yieldCount := yieldCount + 1;
      }
      assert report == Report(i, batch, |circles|);
      trace := trace + circle + report;
      i := i + 1;
      TrialStep(circles, batch, isCancelled, whole, i0, yieldCount0, trace0, i, yieldCount,
                trace);
    }
    TrialsStop(circles, batch, isCancelled, i, yieldCount);
    assert trace + [] == trace;
    run := Run(trace, true, yieldCount, i);
  }

  /** `reconstructAsCircles` as written. */
  method ReconstructAsCircles(data: seq<Byte>, width: nat, height: nat, minRadius: real,
                              maxRadius: real, positions: seq<Point>, isCancelled: nat -> bool)
    returns (trace: seq<Effect>)
    requires |data| == width * height * 4 && InImage(positions, width, height)
    ensures trace == CirclesTrace(data, width, height, minRadius, maxRadius, positions,
                                  isCancelled)
  {
    trace := [Draw(FillRect(0, 0, width, height, Background))];
    var trials := CircleTrials(data, width, height, minRadius, maxRadius, positions,
                               isCancelled);
    trace := trace + trials.effects;
    if trials.completed {
      trace := trace + [Progress(1.0)];
    }
  }

  /** `reconstructAsCircles` with the final report guarded by one more poll. */
  method ReconstructAsCirclesGuarded(data: seq<Byte>, width: nat, height: nat,
                                     minRadius: real, maxRadius: real, positions: seq<Point>,
                                     isCancelled: nat -> bool)
    returns (trace: seq<Effect>)
    requires |data| == width * height * 4 && InImage(positions, width, height)
    ensures trace == CirclesTraceGuarded(data, width, height, minRadius, maxRadius, positions,
                                         isCancelled)
  {
    trace := [Draw(FillRect(0, 0, width, height, Background))];
    var trials := CircleTrials(data, width, height, minRadius, maxRadius, positions,
                               isCancelled);
    trace := trace + trials.effects;
    if trials.completed && !isCancelled(trials.yieldCount) {
      trace := trace + [Progress(1.0)];
    }
  }

  // ---------------------------------------------------------------------------------------
  // Brightness and radius
  // ---------------------------------------------------------------------------------------

  lemma {:induction false} BrightnessRange(c: Rgb)
    requires IsByteColor(c)
    ensures 0.0 <= Brightness(c) <= 1.0
  {
  }

  lemma {:induction false} ScaleBetween(d: real, f: real)
    requires 0.0 <= f <= 1.0
    ensures d >= 0.0 ==> 0.0 <= d * f <= d
    ensures d <= 0.0 ==> d <= d * f <= 0.0
  {
    if d >= 0.0 {
      assert d * f <= d * 1.0;
    } else {
      assert d * f >= d * 1.0;
    }
  }

  /** The radius lies between `minRadius` and `maxRadius`, whichever is larger, and is
      `minRadius` when the two are equal. */
  lemma {:induction false} RadiusBetween(minRadius: real, maxRadius: real, c: Rgb)
    requires IsByteColor(c)
    ensures minRadius <= maxRadius ==> minRadius <= Radius(minRadius, maxRadius, c) <= maxRadius
    ensures maxRadius <= minRadius ==> maxRadius <= Radius(minRadius, maxRadius, c) <= minRadius
    ensures minRadius == maxRadius ==> Radius(minRadius, maxRadius, c) == minRadius
  {
    var b, d := Brightness(c), maxRadius - minRadius;
    BrightnessRange(c);
    ScaleBetween(d, b);
    assert Radius(minRadius, maxRadius, c) == minRadius + d * b;
    assert maxRadius == minRadius + d;
  }

  /** Black gives the smallest circles and white the largest. */
  lemma {:induction false} RadiusExtremes(minRadius: real, maxRadius: real)
    ensures Radius(minRadius, maxRadius, Rgb(0, 0, 0)) == minRadius
    ensures Radius(minRadius, maxRadius, Rgb(255, 255, 255)) == maxRadius
  {
    assert Brightness(Rgb(255, 255, 255)) == 1.0;
  }

  // ---------------------------------------------------------------------------------------
  // The shape of a run
  // ---------------------------------------------------------------------------------------

  lemma {:induction false} TrialsUnfold(circles: seq<seq<Effect>>, batch: nat,
                                        isCancelled: nat -> bool, i: nat, yieldCount: nat)
    requires batch > 0 && i < |circles| && !isCancelled(yieldCount)
    ensures var r := TrialsFrom(circles, batch, isCancelled, i, yieldCount);
      var rest := TrialsFrom(circles, batch, isCancelled, i + 1,
                             if Checkpoint(i, batch) then yieldCount + 1 else yieldCount);
      && r.effects == circles[i] + Report(i, batch, |circles|) + rest.effects
      && r.completed == rest.completed && r.yieldCount == rest.yieldCount
      && r.steps == rest.steps
  {
  }

  lemma {:induction false} TrialsStop(circles: seq<seq<Effect>>, batch: nat,
                                      isCancelled: nat -> bool, i: nat, yieldCount: nat)
    requires batch > 0 && (i >= |circles| || isCancelled(yieldCount))
    ensures TrialsFrom(circles, batch, isCancelled, i, yieldCount)
         == Run([], i >= |circles|, yieldCount, i)
  {
  }

  /** A circle trial draws its circle, if any, and does nothing else. */
  lemma {:induction false} CircleListDraws(data: seq<Byte>, width: nat, height: nat,
                                           minRadius: real, maxRadius: real,
                                           positions: seq<Point>)
    requires |data| == width * height * 4 && InImage(positions, width, height)
    ensures TrialsOnlyDraw(CircleList(data, width, height, minRadius, maxRadius, positions))
  {
    var circles: seq<seq<Effect>>
      := CircleList(data, width, height, minRadius, maxRadius, positions);
    forall k, j | 0 <= k < |circles| && 0 <= j < |circles[k]|
      ensures circles[k][j].Draw?
    {
      assert circles[k] == CircleEffects(data, width, height, minRadius, maxRadius,
                                         positions[k]);
    }
  }

  /** Drawings and the report of one circle: one yield exactly at a checkpoint. */
  lemma {:induction false} TrialEffectsShape(draws: seq<Effect>, i: nat, batch: nat, numCircles: nat,
                          rest: seq<Effect>)
    requires forall k :: 0 <= k < |draws| ==> draws[k].Draw?
    requires batch > 0 && numCircles > 0
    ensures Yields(draws + Report(i, batch, numCircles) + rest)
         == (if Checkpoint(i, batch) then 1 else 0) + Yields(rest)
    ensures Progresses(draws + Report(i, batch, numCircles) + rest)
         == (if Checkpoint(i, batch) then [i as real / numCircles as real] else [])
            + Progresses(rest)
  {
    if Checkpoint(i, batch) {
      DrawsThenReport(draws, i as real / numCircles as real, rest);
    } else {
      OnlyDraws(draws);
      assert draws + Report(i, batch, numCircles) + rest == draws + rest;
      TraceAppend(draws, rest);
    }
  }

  /** The reports of one trial and of the trials after it are those of the checkpoints from
      `i` on. */
  lemma {:induction false} ReportsStep(effects: seq<Effect>, draws: seq<Effect>, i: nat,
                                       batch: nat, numCircles: nat, rest: seq<Effect>,
                                       steps: nat)
    requires forall k :: 0 <= k < |draws| ==> draws[k].Draw?
    requires batch > 0 && numCircles > 0 && i < steps
    requires effects == draws + Report(i, batch, numCircles) + rest
    requires Progresses(rest) == CheckpointFractions(i + 1, steps, batch, numCircles)
    ensures Progresses(effects) == CheckpointFractions(i, steps, batch, numCircles)
  {
    TrialEffectsShape(draws, i, batch, numCircles, rest);
  }

  /** The run passes one yield per checkpoint it reached; it stops early exactly when a poll
      says cancelled, and then at a yield count at which it was cancelled. */
  lemma {:induction false} TrialsSteps(circles: seq<seq<Effect>>, batch: nat,
                                       isCancelled: nat -> bool, i: nat, yieldCount: nat)
    requires batch > 0 && i <= |circles| && TrialsOnlyDraw(circles)
    ensures var r := TrialsFrom(circles, batch, isCancelled, i, yieldCount);
      && i <= r.steps <= |circles|
      && r.yieldCount == yieldCount + Yields(r.effects)
      && (r.completed <==> r.steps == |circles|)
      && (!r.completed ==> isCancelled(r.yieldCount))
    decreases |circles| - i
  {
    if i < |circles| && !isCancelled(yieldCount) {
      var yieldCount' := if Checkpoint(i, batch) then yieldCount + 1 else yieldCount;
      TrialsSteps(circles, batch, isCancelled, i + 1, yieldCount');
      TrialsUnfold(circles, batch, isCancelled, i, yieldCount);
      var rest := TrialsFrom(circles, batch, isCancelled, i + 1, yieldCount');
      TrialEffectsShape(circles[i], i, batch, |circles|, rest.effects);
    } else {
      TrialsStop(circles, batch, isCancelled, i, yieldCount);
    }
  }

  /** The trials report `i / numCircles` after each checkpoint `i` they reach, and nothing
      else. */
  lemma {:induction false} TrialsReports(circles: seq<seq<Effect>>, batch: nat,
                                         isCancelled: nat -> bool, i: nat, yieldCount: nat)
    requires batch > 0 && i <= |circles| && TrialsOnlyDraw(circles)
    ensures i <= TrialsFrom(circles, batch, isCancelled, i, yieldCount).steps
    ensures Progresses(TrialsFrom(circles, batch, isCancelled, i, yieldCount).effects)
         == CheckpointFractions(i, TrialsFrom(circles, batch, isCancelled, i, yieldCount).steps,
                                batch, |circles|)
    decreases |circles| - i
  {
    TrialsSteps(circles, batch, isCancelled, i, yieldCount);
    if i < |circles| && !isCancelled(yieldCount) {
      var yieldCount' := if Checkpoint(i, batch) then yieldCount + 1 else yieldCount;
      var rest := TrialsFrom(circles, batch, isCancelled, i + 1, yieldCount');
      TrialsReports(circles, batch, isCancelled, i + 1, yieldCount');
      TrialsUnfold(circles, batch, isCancelled, i, yieldCount);
      var r := TrialsFrom(circles, batch, isCancelled, i, yieldCount);
      ReportsStep(r.effects, circles[i], i, batch, |circles|, rest.effects, rest.steps);
    } else {
      TrialsStop(circles, batch, isCancelled, i, yieldCount);
    }
  }

  /** One circle and its report, emitted while the run is not cancelled. */
  lemma {:induction false} TrialRespects(draws: seq<Effect>, i: nat, batch: nat, numCircles: nat,
                      isCancelled: nat -> bool, yieldCount: nat, rest: seq<Effect>)
    requires forall k :: 0 <= k < |draws| ==> draws[k].Draw?
    requires batch > 0 && numCircles > 0 && !isCancelled(yieldCount)
    requires RespectsFrom(rest, isCancelled,
                          if Checkpoint(i, batch) then yieldCount + 1 else yieldCount)
    ensures RespectsFrom(draws + Report(i, batch, numCircles) + rest, isCancelled, yieldCount)
  {
    if Checkpoint(i, batch) {
      DrawsThenReportRespects(draws, i as real / numCircles as real, isCancelled, yieldCount,
                              rest);
    } else {
      RespectsNoYield(draws, isCancelled, yieldCount);
      RespectsAppend(draws, rest, isCancelled, yieldCount);
      assert draws + Report(i, batch, numCircles) + rest == draws + rest;
    }
  }

  /** The trials draw and report nothing at a yield count at which the run was cancelled. */
  lemma {:induction false} TrialsRespect(circles: seq<seq<Effect>>, batch: nat,
                                         isCancelled: nat -> bool, i: nat, yieldCount: nat)
    requires batch > 0 && TrialsOnlyDraw(circles)
    ensures RespectsFrom(TrialsFrom(circles, batch, isCancelled, i, yieldCount).effects,
                         isCancelled, yieldCount)
    decreases |circles| - i
  {
    if i < |circles| && !isCancelled(yieldCount) {
      var yieldCount' := if Checkpoint(i, batch) then yieldCount + 1 else yieldCount;
      var rest := TrialsFrom(circles, batch, isCancelled, i + 1, yieldCount');
      TrialsRespect(circles, batch, isCancelled, i + 1, yieldCount');
      TrialsUnfold(circles, batch, isCancelled, i, yieldCount);
      TrialRespects(circles[i], i, batch, |circles|, isCancelled, yieldCount, rest.effects);
    } else {
      TrialsStop(circles, batch, isCancelled, i, yieldCount);
    }
  }

  /** `e` is drawn by one of the first `count` trials. */
  ghost predicate DrawnByTrial(e: Effect, circles: seq<seq<Effect>>, count: nat) {
    exists j :: 0 <= j < count && j < |circles| && e in circles[j]
  }

  ghost predicate DrawnByTrials(t: seq<Effect>, circles: seq<seq<Effect>>, count: nat) {
    forall k :: 0 <= k < |t| && t[k].Draw? ==> DrawnByTrial(t[k], circles, count)
  }

  lemma {:induction false} DrawnByTrialsAppend(a: seq<Effect>, b: seq<Effect>,
                                               circles: seq<seq<Effect>>, count: nat)
    requires DrawnByTrials(a, circles, count) && DrawnByTrials(b, circles, count)
    ensures DrawnByTrials(a + b, circles, count)
  {
    forall k | 0 <= k < |a + b| && (a + b)[k].Draw?
      ensures DrawnByTrial((a + b)[k], circles, count)
    {
      if k < |a| {
        assert (a + b)[k] == a[k];
      } else {
        assert (a + b)[k] == b[k - |a|];
      }
    }
  }

  /** Trial `i` draws only its own drawings: its report and yield are not drawings. */
  lemma {:induction false} TrialDrawnByItself(circles: seq<seq<Effect>>, i: nat, batch: nat,
                                              count: nat)
    requires batch > 0 && i < count && i < |circles|
    ensures DrawnByTrials(circles[i] + Report(i, batch, |circles|), circles, count)
  {
    var t := circles[i] + Report(i, batch, |circles|);
    forall k | 0 <= k < |t| && t[k].Draw? ensures DrawnByTrial(t[k], circles, count) {
      assert k < |circles[i]|;
      assert t[k] == circles[i][k];
    }
  }

  /** Every drawing of the trials belongs to a trial they reached. */
  lemma {:induction false} TrialsDrawn(circles: seq<seq<Effect>>, batch: nat,
                                       isCancelled: nat -> bool, i: nat, yieldCount: nat)
    requires batch > 0 && i <= |circles| && TrialsOnlyDraw(circles)
    ensures DrawnByTrials(TrialsFrom(circles, batch, isCancelled, i, yieldCount).effects,
                          circles, TrialsFrom(circles, batch, isCancelled, i, yieldCount).steps)
    decreases |circles| - i
  {
    if i < |circles| && !isCancelled(yieldCount) {
      var yieldCount' := if Checkpoint(i, batch) then yieldCount + 1 else yieldCount;
      var rest := TrialsFrom(circles, batch, isCancelled, i + 1, yieldCount');
      TrialsDrawn(circles, batch, isCancelled, i + 1, yieldCount');
      TrialsSteps(circles, batch, isCancelled, i + 1, yieldCount');
      TrialsUnfold(circles, batch, isCancelled, i, yieldCount);
      TrialDrawnByItself(circles, i, batch, rest.steps);
      DrawnByTrialsAppend(circles[i] + Report(i, batch, |circles|), rest.effects, circles,
                          rest.steps);
    } else {
      TrialsStop(circles, batch, isCancelled, i, yieldCount);
    }
  }

  // ---------------------------------------------------------------------------------------
  // What a whole run draws and reports
  // ---------------------------------------------------------------------------------------

  /** `getImageData(x, y, 1, 1)` reads pixel `(x, y)` of the image. */
  lemma {:induction false} ColorAtPixel(data: seq<Byte>, width: nat, height: nat, p: Point)
    requires |data| == width * height * 4 && p.x < width && p.y < height
    ensures p.y * width + p.x < |data| / 4
    ensures ColorAt(data, width, height, p) == PixelColor(data, p.y * width + p.x)
  {
    CropOnePixel(data, width, height, p.x, p.y);
  }

  /** With non-negative radius bounds no circle is skipped. */
  lemma {:induction false} CircleDrawnWhenNonNegative(data: seq<Byte>, width: nat, height: nat,
                                   minRadius: real, maxRadius: real, p: Point)
    requires |data| == width * height * 4 && p.x < width && p.y < height
    requires 0.0 <= minRadius && 0.0 <= maxRadius
    ensures CircleEffects(data, width, height, minRadius, maxRadius, p)
         == [Draw(CircleAt(data, width, height, minRadius, maxRadius, p))]
  {
    RadiusBetween(minRadius, maxRadius, ColorAt(data, width, height, p));
  }

  /** `cmd` is the circle of one of the first `count` sampled centres. */
  ghost predicate SampledCircle(cmd: Command, data: seq<Byte>, width: nat, height: nat,
                                minRadius: real, maxRadius: real, positions: seq<Point>,
                                count: nat)
    requires |data| == width * height * 4 && InImage(positions, width, height)
  {
    exists j: nat :: j < count && j < |positions|
                     && cmd == CircleAt(data, width, height, minRadius, maxRadius, positions[j])
                     && cmd.radius >= 0.0
  }

  ghost predicate DrawsSampled(t: seq<Effect>, data: seq<Byte>, width: nat, height: nat,
                               minRadius: real, maxRadius: real, positions: seq<Point>,
                               count: nat)
    requires |data| == width * height * 4 && InImage(positions, width, height)
  {
    forall k :: 0 <= k < |t| && t[k].Draw? ==>
      SampledCircle(t[k].cmd, data, width, height, minRadius, maxRadius, positions, count)
  }

  lemma {:induction false} DrawsSampledAppend(a: seq<Effect>, b: seq<Effect>, data: seq<Byte>, width: nat,
                           height: nat, minRadius: real, maxRadius: real,
                           positions: seq<Point>, count: nat)
    requires |data| == width * height * 4 && InImage(positions, width, height)
    requires DrawsSampled(a, data, width, height, minRadius, maxRadius, positions, count)
    requires DrawsSampled(b, data, width, height, minRadius, maxRadius, positions, count)
    ensures DrawsSampled(a + b, data, width, height, minRadius, maxRadius, positions, count)
  {
    forall k | 0 <= k < |a + b| && (a + b)[k].Draw?
      ensures SampledCircle((a + b)[k].cmd, data, width, height, minRadius, maxRadius,
                            positions, count)
    {
      if k < |a| {
        assert (a + b)[k] == a[k];
      } else {
        assert (a + b)[k] == b[k - |a|];
      }
    }
  }

  /** A drawing of the trial of centre `positions[j]` is that centre's circle. */
  lemma {:induction false} DrawingOfTrial(data: seq<Byte>, width: nat, height: nat,
                                          minRadius: real, maxRadius: real,
                                          positions: seq<Point>, j: nat, count: nat, e: Effect)
    requires |data| == width * height * 4 && InImage(positions, width, height)
    requires j < count && j < |positions|
    requires e in CircleEffects(data, width, height, minRadius, maxRadius, positions[j])
    ensures e.Draw?
    ensures SampledCircle(e.cmd, data, width, height, minRadius, maxRadius, positions, count)
  {
  }

  /** Every circle the trials draw is the circle of a centre they reached. */
  lemma {:induction false} TrialsDrawSampled(data: seq<Byte>, width: nat, height: nat,
                                             minRadius: real, maxRadius: real,
                                             positions: seq<Point>, isCancelled: nat -> bool)
    requires |data| == width * height * 4 && InImage(positions, width, height)
    ensures DrawsSampled(Trials(data, width, height, minRadius, maxRadius, positions,
                                isCancelled).effects,
                         data, width, height, minRadius, maxRadius, positions,
                         Trials(data, width, height, minRadius, maxRadius, positions,
                                isCancelled).steps)
  {
    var circles := CircleList(data, width, height, minRadius, maxRadius, positions);
    var trials := Trials(data, width, height, minRadius, maxRadius, positions, isCancelled);
    CircleListDraws(data, width, height, minRadius, maxRadius, positions);
    TrialsDrawn(circles, BatchSize(|positions|), isCancelled, 0, 0);
    forall k | 0 <= k < |trials.effects| && trials.effects[k].Draw?
      ensures SampledCircle(trials.effects[k].cmd, data, width, height, minRadius, maxRadius,
                            positions, trials.steps)
    {
      assert DrawnByTrial(trials.effects[k], circles, trials.steps);
      var j :| 0 <= j < trials.steps && j < |circles| && trials.effects[k] in circles[j];
      DrawingOfTrial(data, width, height, minRadius, maxRadius, positions, j, trials.steps,
                     trials.effects[k]);
    }
  }

  /** What a sampled circle is: centred in the image, coloured like the pixel under its
      centre, with a non-negative radius between the two bounds. */
  lemma {:induction false} SampledCircleFacts(cmd: Command, data: seq<Byte>, width: nat, height: nat,
                           minRadius: real, maxRadius: real, positions: seq<Point>,
                           count: nat)
    requires |data| == width * height * 4 && InImage(positions, width, height)
    requires SampledCircle(cmd, data, width, height, minRadius, maxRadius, positions, count)
    ensures cmd.FillCircle? && 0 <= cmd.x < width && 0 <= cmd.y < height
    ensures cmd.y * width + cmd.x < |data| / 4
    ensures cmd.color == PixelColor(data, cmd.y * width + cmd.x)
    ensures 0.0 <= cmd.radius
    ensures minRadius <= maxRadius ==> minRadius <= cmd.radius <= maxRadius
    ensures maxRadius <= minRadius ==> maxRadius <= cmd.radius <= minRadius
  {
    var j: nat :| j < count && j < |positions|
                  && cmd == CircleAt(data, width, height, minRadius, maxRadius, positions[j])
                  && cmd.radius >= 0.0;
    ColorAtPixel(data, width, height, positions[j]);
    RadiusBetween(minRadius, maxRadius, ColorAt(data, width, height, positions[j]));
  }

  /** The shape of a whole run: it performs at most `numCircles` trials, all of them exactly
      when no poll said cancelled, and stops only when one did; it yields once per
      checkpoint it reached. */
  lemma {:induction false} CirclesRunShape(data: seq<Byte>, width: nat, height: nat, minRadius: real,
                        maxRadius: real, positions: seq<Point>, isCancelled: nat -> bool)
    requires |data| == width * height * 4 && InImage(positions, width, height)
    ensures Trials(data, width, height, minRadius, maxRadius, positions, isCancelled).steps
         <= |positions|
    ensures Trials(data, width, height, minRadius, maxRadius, positions, isCancelled).completed
        <==> Trials(data, width, height, minRadius, maxRadius, positions, isCancelled).steps
             == |positions|
    ensures !Trials(data, width, height, minRadius, maxRadius, positions, isCancelled).completed
        ==> isCancelled(Trials(data, width, height, minRadius, maxRadius, positions,
                               isCancelled).yieldCount)
    ensures Yields(Trials(data, width, height, minRadius, maxRadius, positions,
                          isCancelled).effects)
         == Trials(data, width, height, minRadius, maxRadius, positions, isCancelled).yieldCount
    ensures RespectsCancellation(Trials(data, width, height, minRadius, maxRadius, positions,
                                        isCancelled).effects, isCancelled)
  {
    var circles := CircleList(data, width, height, minRadius, maxRadius, positions);
    CircleListDraws(data, width, height, minRadius, maxRadius, positions);
    TrialsSteps(circles, BatchSize(|positions|), isCancelled, 0, 0);
    TrialsRespect(circles, BatchSize(|positions|), isCancelled, 0, 0);
  }

  /** After clearing the canvas, a run draws only circles of centres it reached. */
  lemma {:induction false} CirclesDrawn(data: seq<Byte>, width: nat, height: nat, minRadius: real,
                     maxRadius: real, positions: seq<Point>, isCancelled: nat -> bool)
    requires |data| == width * height * 4 && InImage(positions, width, height)
    ensures CirclesTrace(data, width, height, minRadius, maxRadius, positions, isCancelled)[0]
         == Draw(FillRect(0, 0, width, height, Background))
    ensures DrawsSampled(CirclesTrace(data, width, height, minRadius, maxRadius, positions,
                                      isCancelled)[1..],
                         data, width, height, minRadius, maxRadius, positions,
                         Trials(data, width, height, minRadius, maxRadius, positions,
                                isCancelled).steps)
  {
    var trials := Trials(data, width, height, minRadius, maxRadius, positions, isCancelled);
    var last: seq<Effect> := if trials.completed then [Progress(1.0)] else [];
    TrialsDrawSampled(data, width, height, minRadius, maxRadius, positions, isCancelled);
    DrawsSampledAppend(trials.effects, last, data, width, height, minRadius, maxRadius,
                       positions, trials.steps);
    assert CirclesTrace(data, width, height, minRadius, maxRadius, positions, isCancelled)[1..]
        == trials.effects + last;
  }

  /** The progress values `reconstructAsCircles` reports. */
  function CirclesReports(data: seq<Byte>, width: nat, height: nat, minRadius: real,
                          maxRadius: real, positions: seq<Point>, isCancelled: nat -> bool)
    : seq<real>
    requires |data| == width * height * 4 && InImage(positions, width, height)
  {
    Progresses(CirclesTrace(data, width, height, minRadius, maxRadius, positions, isCancelled))
  }

  /** The reports are `i / numCircles` for each checkpoint `i` reached, then `1` if the run
      completed. */
  lemma {:induction false} CirclesReportsAre(data: seq<Byte>, width: nat, height: nat, minRadius: real,
                          maxRadius: real, positions: seq<Point>, isCancelled: nat -> bool)
    requires |data| == width * height * 4 && InImage(positions, width, height)
    ensures Trials(data, width, height, minRadius, maxRadius, positions, isCancelled).steps
         <= |positions|
    ensures CirclesReports(data, width, height, minRadius, maxRadius, positions, isCancelled)
         == BatchedReports(Trials(data, width, height, minRadius, maxRadius, positions,
                                  isCancelled).steps,
                           BatchSize(|positions|), |positions|,
                           Trials(data, width, height, minRadius, maxRadius, positions,
                                  isCancelled).completed)
  {
    var trials := Trials(data, width, height, minRadius, maxRadius, positions, isCancelled);
    var first := [Draw(FillRect(0, 0, width, height, Background))];
    var last: seq<Effect> := if trials.completed then [Progress(1.0)] else [];
    var circles := CircleList(data, width, height, minRadius, maxRadius, positions);
    CircleListDraws(data, width, height, minRadius, maxRadius, positions);
    TrialsSteps(circles, BatchSize(|positions|), isCancelled, 0, 0);
    TrialsReports(circles, BatchSize(|positions|), isCancelled, 0, 0);
    Single(first[0]);
    if trials.completed {
      Single(Progress(1.0));
    }
    TraceAppend(first, trials.effects);
    TraceAppend(first + trials.effects, last);
  }

  /** The reports rise strictly within `[0, 1]`; `1` is reported exactly when all
      `numCircles` trials ran; every checkpoint reached is reported, and nothing else is. */
  lemma {:induction false} CirclesProgress(data: seq<Byte>, width: nat, height: nat, minRadius: real,
                        maxRadius: real, positions: seq<Point>, isCancelled: nat -> bool)
    requires |data| == width * height * 4 && InImage(positions, width, height)
    ensures forall i, j :: 0 <= i < j < |CirclesReports(data, width, height, minRadius,
                                                        maxRadius, positions, isCancelled)| ==>
      CirclesReports(data, width, height, minRadius, maxRadius, positions, isCancelled)[i]
      < CirclesReports(data, width, height, minRadius, maxRadius, positions, isCancelled)[j]
    ensures forall k :: 0 <= k < |CirclesReports(data, width, height, minRadius, maxRadius,
                                                 positions, isCancelled)| ==>
      0.0 <= CirclesReports(data, width, height, minRadius, maxRadius, positions,
                            isCancelled)[k] <= 1.0
    ensures (exists k :: 0 <= k < |CirclesReports(data, width, height, minRadius, maxRadius,
                                                  positions, isCancelled)|
                         && CirclesReports(data, width, height, minRadius, maxRadius,
                                           positions, isCancelled)[k] == 1.0)
        <==> Trials(data, width, height, minRadius, maxRadius, positions, isCancelled).steps
             == |positions|
    ensures forall i :: 0 <= i < Trials(data, width, height, minRadius, maxRadius, positions,
                                        isCancelled).steps
                        && Checkpoint(i, BatchSize(|positions|)) ==>
      i as real / |positions| as real
      in CirclesReports(data, width, height, minRadius, maxRadius, positions, isCancelled)
    ensures |positions| > 0 ==>
      forall k :: 0 <= k < |CirclesReports(data, width, height, minRadius, maxRadius,
                                           positions, isCancelled)| ==>
        CirclesReports(data, width, height, minRadius, maxRadius, positions, isCancelled)[k]
          == 1.0
        || ReportOfSome(CirclesReports(data, width, height, minRadius, maxRadius, positions,
                                       isCancelled)[k],
                        0, Trials(data, width, height, minRadius, maxRadius, positions,
                                  isCancelled).steps,
                        BatchSize(|positions|), |positions|)
  {
    var trials := Trials(data, width, height, minRadius, maxRadius, positions, isCancelled);
    CirclesReportsAre(data, width, height, minRadius, maxRadius, positions, isCancelled);
    CirclesRunShape(data, width, height, minRadius, maxRadius, positions, isCancelled);
    BatchedReportsRise(trials.steps, BatchSize(|positions|), |positions|, trials.completed);
    if |positions| > 0 {
      BatchedReportsCheckpoints(trials.steps, BatchSize(|positions|), |positions|,
                                trials.completed);
    }
  }

  // ---------------------------------------------------------------------------------------
  // Cancellation and the final report
  // ---------------------------------------------------------------------------------------

  /** With the final report guarded by a poll, a run started before it was cancelled draws and
      reports nothing once it has been cancelled. */
  lemma {:induction false} CirclesGuardedRespects(data: seq<Byte>, width: nat, height: nat, minRadius: real,
                               maxRadius: real, positions: seq<Point>,
                               isCancelled: nat -> bool)
    requires |data| == width * height * 4 && InImage(positions, width, height)
    requires !isCancelled(0)
    ensures RespectsCancellation(CirclesTraceGuarded(data, width, height, minRadius, maxRadius,
                                                     positions, isCancelled), isCancelled)
  {
    var trials := Trials(data, width, height, minRadius, maxRadius, positions, isCancelled);
    var first := Draw(FillRect(0, 0, width, height, Background));
    var last: seq<Effect> :=
      if trials.completed && !isCancelled(trials.yieldCount) then [Progress(1.0)] else [];
    CirclesRunShape(data, width, height, minRadius, maxRadius, positions, isCancelled);
    FramedRespects(first, trials.effects, last, isCancelled);
  }

  /** The guarded run makes the same reports as the run as written, except that it leaves out
      the final `1` when the run was cancelled after its last checkpoint. */
  lemma {:induction false} CirclesGuardedReports(data: seq<Byte>, width: nat, height: nat, minRadius: real,
                              maxRadius: real, positions: seq<Point>,
                              isCancelled: nat -> bool)
    requires |data| == width * height * 4 && InImage(positions, width, height)
    ensures var trials := Trials(data, width, height, minRadius, maxRadius, positions,
                                 isCancelled);
      !isCancelled(trials.yieldCount) ==>
        CirclesTraceGuarded(data, width, height, minRadius, maxRadius, positions, isCancelled)
        == CirclesTrace(data, width, height, minRadius, maxRadius, positions, isCancelled)
  ensures var trials := Trials(data, width, height, minRadius, maxRadius, positions,
                               isCancelled);
      isCancelled(trials.yieldCount) ==>
        CirclesTraceGuarded(data, width, height, minRadius, maxRadius, positions, isCancelled)
        == [Draw(FillRect(0, 0, width, height, Background))] + trials.effects
  {
    var trials := Trials(data, width, height, minRadius, maxRadius, positions, isCancelled);
    var first := [Draw(FillRect(0, 0, width, height, Background))];
    assert first + trials.effects + [] == first + trials.effects;
  }

  /** The trace of the run in `CirclesFinalReportUnpolled`. */
  lemma {:induction false} UnpolledExampleTrace()
    ensures var data: seq<Byte> := [0, 0, 0, 255];
      CirclesTrace(data, 1, 1, 1.0, 2.0, [Point(0, 0)], k => k >= 1)
      == [Draw(FillRect(0, 0, 1, 1, Background)),
          Draw(CircleAt(data, 1, 1, 1.0, 2.0, Point(0, 0))), Progress(0.0), Yield,
          Progress(1.0)]
  {
    var isCancelled: nat -> bool := k => k >= 1;
    var data: seq<Byte> := [0, 0, 0, 255];
    var positions := [Point(0, 0)];
    var circles := CircleList(data, 1, 1, 1.0, 2.0, positions);
    assert BatchSize(1) == 1;
    CircleDrawnWhenNonNegative(data, 1, 1, 1.0, 2.0, positions[0]);
    assert circles[0] == [Draw(CircleAt(data, 1, 1, 1.0, 2.0, Point(0, 0)))];
    TrialsUnfold(circles, 1, isCancelled, 0, 0);
    TrialsStop(circles, 1, isCancelled, 1, 1);
  }

  /** As written, the final `onProgress(1)` is not polled: one circle, a checkpoint after it,
      and a newer run that starts during the yield that follows; the superseded run still
      reports `1`. */
  lemma {:induction false} CirclesFinalReportUnpolled()
    ensures !RespectsCancellation(CirclesTrace([0, 0, 0, 255], 1, 1, 1.0, 2.0, [Point(0, 0)],
                                               k => k >= 1),
                                  k => k >= 1)
  {
    var isCancelled: nat -> bool := k => k >= 1;
    var data: seq<Byte> := [0, 0, 0, 255];
    var trace := CirclesTrace(data, 1, 1, 1.0, 2.0, [Point(0, 0)], isCancelled);
    var draws := [Draw(FillRect(0, 0, 1, 1, Background)),
                  Draw(CircleAt(data, 1, 1, 1.0, 2.0, Point(0, 0)))];
    UnpolledExampleTrace();
    assert trace[..4] == draws + [Progress(0.0), Yield] + [];
    DrawsThenReport(draws, 0.0, []);
    Violates(trace, isCancelled, 4);
  }
}
