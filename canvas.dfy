/** What a reconstruction does to the outside world, as one trace of effects: drawing
    operations on the visible canvas, calls of the `onProgress` callback, and the points where
    it awaits `yieldToBrowser()` and other code (a newer run, the user) gets to run. The
    `isCancelled` callback is an oracle indexed by the number of yields the run has passed:
    between two yields the run executes synchronously, so every poll in between gets the same
    answer. */
module Canvas {
  import opened Pixels

  datatype Command =
    | FillRect(x: int, y: int, w: int, h: int, color: Rgb)
    | FillCircle(x: int, y: int, radius: real, color: Rgb)
    | PutImage(data: seq<Byte>)

  datatype Effect = Draw(cmd: Command) | Progress(value: real) | Yield

  /** The result of running a loop of a reconstructor: its effects, whether it ran to the end
      (rather than returning because `isCancelled()` said so), the number of yields passed and
      the number of iterations performed. */
  datatype Run = Run(effects: seq<Effect>, completed: bool, yieldCount: nat, steps: nat)

  /** `trace` followed by the run `r`. */
  function After(trace: seq<Effect>, r: Run): Run {
    Run(trace + r.effects, r.completed, r.yieldCount, r.steps)
  }

  lemma {:induction false} Associative3(a: seq<Effect>, b: seq<Effect>, c: seq<Effect>, d: seq<Effect>)
    ensures a + (b + c + d) == a + b + c + d
  {
  }

  function Yields(t: seq<Effect>): nat {
    if t == [] then 0 else (if t[0].Yield? then 1 else 0) + Yields(t[1..])
  }

  function Progresses(t: seq<Effect>): seq<real> {
    if t == [] then [] else (if t[0].Progress? then [t[0].value] else []) + Progresses(t[1..])
  }

  function Draws(t: seq<Effect>): seq<Command> {
    if t == [] then [] else (if t[0].Draw? then [t[0].cmd] else []) + Draws(t[1..])
  }

  lemma {:induction false} YieldsAppend(a: seq<Effect>, b: seq<Effect>)
    ensures Yields(a + b) == Yields(a) + Yields(b)
  {
    if a == [] {
      assert a + b == b;
    } else {
      assert (a + b)[0] == a[0] && (a + b)[1..] == a[1..] + b;
      YieldsAppend(a[1..], b);
    }
  }

  lemma {:induction false} ProgressesAppend(a: seq<Effect>, b: seq<Effect>)
    ensures Progresses(a + b) == Progresses(a) + Progresses(b)
  {
    if a == [] {
      assert a + b == b;
    } else {
      assert (a + b)[0] == a[0] && (a + b)[1..] == a[1..] + b;
      ProgressesAppend(a[1..], b);
    }
  }

  lemma {:induction false} DrawsAppend(a: seq<Effect>, b: seq<Effect>)
    ensures Draws(a + b) == Draws(a) + Draws(b)
  {
    if a == [] {
      assert a + b == b;
    } else {
      assert (a + b)[0] == a[0] && (a + b)[1..] == a[1..] + b;
      DrawsAppend(a[1..], b);
    }
  }

  /** The yields, progress values and drawings of a concatenation are those of its parts. */
  lemma {:induction false} TraceAppend(a: seq<Effect>, b: seq<Effect>)
    ensures Yields(a + b) == Yields(a) + Yields(b)
    ensures Progresses(a + b) == Progresses(a) + Progresses(b)
    ensures Draws(a + b) == Draws(a) + Draws(b)
  {
    YieldsAppend(a, b);
    ProgressesAppend(a, b);
    DrawsAppend(a, b);
  }

  lemma {:induction false} Single(e: Effect)
    ensures Yields([e]) == (if e.Yield? then 1 else 0)
    ensures Progresses([e]) == (if e.Progress? then [e.value] else [])
    ensures Draws([e]) == (if e.Draw? then [e.cmd] else [])
  {
    assert [e][1..] == [];
  }

  /** A trace of drawing effects only. */
  lemma {:induction false} OnlyDraws(t: seq<Effect>)
    requires forall i :: 0 <= i < |t| ==> t[i].Draw?
    ensures Yields(t) == 0 && Progresses(t) == [] && |Draws(t)| == |t|
    ensures forall i :: 0 <= i < |t| ==> Draws(t)[i] == t[i].cmd
  {
    if t != [] {
      OnlyDraws(t[1..]);
    }
  }

  /** Every drawing and progress effect of `t`, a part of a run that had already passed `base`
      yields when `t` began, happens at a yield count at which the run was not cancelled. */
  ghost predicate RespectsFrom(t: seq<Effect>, isCancelled: nat -> bool, base: nat) {
    forall i :: 0 <= i < |t| && !t[i].Yield? ==> !isCancelled(base + Yields(t[..i]))
  }

  ghost predicate RespectsCancellation(t: seq<Effect>, isCancelled: nat -> bool) {
    RespectsFrom(t, isCancelled, 0)
  }

  lemma {:induction false} RespectsEmpty(isCancelled: nat -> bool, base: nat)
    ensures RespectsFrom([], isCancelled, base)
  {
  }

  /** Effects emitted without yielding, while the run is not cancelled, respect cancellation. */
  lemma {:induction false} RespectsNoYield(t: seq<Effect>, isCancelled: nat -> bool, base: nat)
    requires forall i :: 0 <= i < |t| ==> !t[i].Yield?
    requires !isCancelled(base)
    ensures Yields(t) == 0
    ensures RespectsFrom(t, isCancelled, base)
  {
    if t != [] {
      RespectsNoYield(t[1..], isCancelled, base);
    }
    forall i | 0 <= i < |t| ensures Yields(t[..i]) == 0 {
      YieldsPrefix(t, i);
    }
  }

  lemma {:induction false} YieldsPrefix(t: seq<Effect>, i: nat)
    requires i <= |t| && forall j :: 0 <= j < |t| ==> !t[j].Yield?
    ensures Yields(t[..i]) == 0
  {
    if i > 0 {
      assert t[..i][0] == t[0] && t[..i][1..] == t[1..][..i - 1];
      YieldsPrefix(t[1..], i - 1);
    }
  }

  lemma {:induction false} RespectsAppendRight(a: seq<Effect>, b: seq<Effect>, isCancelled: nat -> bool,
                            base: nat, i: nat)
    requires RespectsFrom(b, isCancelled, base + Yields(a))
    requires |a| <= i < |a + b| && !(a + b)[i].Yield?
    ensures !isCancelled(base + Yields((a + b)[..i]))
  {
    var j := i - |a|;
    assert (a + b)[..i] == a + b[..j];
    TraceAppend(a, b[..j]);
    assert (a + b)[i] == b[j];
  }

  lemma {:induction false} RespectsAppend(a: seq<Effect>, b: seq<Effect>, isCancelled: nat -> bool, base: nat)
    requires RespectsFrom(a, isCancelled, base)
    requires RespectsFrom(b, isCancelled, base + Yields(a))
    ensures RespectsFrom(a + b, isCancelled, base)
  {
    forall i | 0 <= i < |a + b| && !(a + b)[i].Yield?
      ensures !isCancelled(base + Yields((a + b)[..i]))
    {
      if i < |a| {
        assert (a + b)[..i] == a[..i];
        assert (a + b)[i] == a[i];
      } else {
        RespectsAppendRight(a, b, isCancelled, base, i);
      }
    }
  }

  /** Drawings, a progress report and a yield, followed by `rest`. */
  lemma {:induction false} DrawsThenReport(draws: seq<Effect>, v: real, rest: seq<Effect>)
    requires forall i :: 0 <= i < |draws| ==> draws[i].Draw?
    ensures Yields(draws + [Progress(v), Yield] + rest) == 1 + Yields(rest)
    ensures Progresses(draws + [Progress(v), Yield] + rest) == [v] + Progresses(rest)
  {
    var tail := [Progress(v), Yield];
    OnlyDraws(draws);
    ReportThenYield(v);
    TraceAppend(draws, tail);
    TraceAppend(draws + tail, rest);
  }

  lemma {:induction false} ReportThenYield(v: real)
    ensures Yields([Progress(v), Yield]) == 1 && Progresses([Progress(v), Yield]) == [v]
  {
    Single(Progress(v));
    Single(Yield);
    TraceAppend([Progress(v)], [Yield]);
    assert [Progress(v), Yield] == [Progress(v)] + [Yield];
  }

  /** An opening effect and a closing tail that do not yield, around a run that respects
      cancellation: the whole respects it when the run was not cancelled at the start, nor,
      if there is a tail, at the end. */
  lemma {:induction false} FramedRespects(first: Effect, run: seq<Effect>, last: seq<Effect>,
                                          isCancelled: nat -> bool)
    requires !first.Yield? && !isCancelled(0) && RespectsFrom(run, isCancelled, 0)
    requires forall i :: 0 <= i < |last| ==> !last[i].Yield?
    requires last != [] ==> !isCancelled(Yields(run))
    ensures RespectsCancellation([first] + run + last, isCancelled)
  {
    RespectsNoYield([first], isCancelled, 0);
    RespectsAppend([first], run, isCancelled, 0);
    TraceAppend([first], run);
    if last != [] {
      RespectsNoYield(last, isCancelled, Yields([first] + run));
    } else {
      RespectsEmpty(isCancelled, Yields([first] + run));
    }
    RespectsAppend([first] + run, last, isCancelled, 0);
  }

  lemma {:induction false} DrawsThenReportRespects(draws: seq<Effect>, v: real, isCancelled: nat -> bool,
                                base: nat, rest: seq<Effect>)
    requires forall i :: 0 <= i < |draws| ==> draws[i].Draw?
    requires !isCancelled(base) && RespectsFrom(rest, isCancelled, base + 1)
    ensures RespectsFrom(draws + [Progress(v), Yield] + rest, isCancelled, base)
  {
    var tail := [Progress(v), Yield];
    DrawsThenReport(draws, v, []);
    assert draws + tail + [] == draws + tail;
    RespectsNoYield(draws + [Progress(v)], isCancelled, base);
    RespectsAppend(draws + [Progress(v)], [Yield], isCancelled, base);
    assert draws + [Progress(v)] + [Yield] == draws + tail;
    RespectsAppend(draws + tail, rest, isCancelled, base);
  }

  /** A trace whose effect at yield count `k` is a drawing or progress effect does not
      respect cancellation when the run was cancelled at `k`. */
  lemma {:induction false} Violates(t: seq<Effect>, isCancelled: nat -> bool, i: nat)
    requires i < |t| && !t[i].Yield? && isCancelled(Yields(t[..i]))
    ensures !RespectsCancellation(t, isCancelled)
  {
  }

  // ---------------------------------------------------------------------------------------
  // Progress reported once every `batch` iterations
  // ---------------------------------------------------------------------------------------

  /** Whether iteration `i` of a loop that reports once every `batch` iterations reports. */
  predicate Checkpoint(i: nat, batch: nat)
    requires batch > 0
  {
    i % batch == 0
  }

  /** `i / total` for each checkpoint `i` in `[from, to)`, in order. */
  function CheckpointFractions(from: nat, to: nat, batch: nat, total: nat): seq<real>
    requires batch > 0 && (from >= to || total > 0)
    decreases if from < to then to - from else 0
  {
    if from >= to then []
    else (if Checkpoint(from, batch) then [from as real / total as real] else [])
         + CheckpointFractions(from + 1, to, batch, total)
  }

  /** The reports of checkpoints in `[from, to)` rise strictly, from `from / total` to
      below 1. */
  lemma {:induction false} CheckpointFractionsRise(from: nat, to: nat, batch: nat,
                                                   total: nat)
    requires batch > 0 && total > 0 && to <= total
    ensures forall k :: 0 <= k < |CheckpointFractions(from, to, batch, total)| ==>
      from as real / total as real <= CheckpointFractions(from, to, batch, total)[k]
    ensures forall k :: 0 <= k < |CheckpointFractions(from, to, batch, total)| ==>
      CheckpointFractions(from, to, batch, total)[k] < 1.0
    ensures forall i, j :: 0 <= i < j < |CheckpointFractions(from, to, batch, total)| ==>
      CheckpointFractions(from, to, batch, total)[i]
      < CheckpointFractions(from, to, batch, total)[j]
    decreases if from < to then to - from else 0
  {
    if from < to {
      var v := from as real / total as real;
      var head := if Checkpoint(from, batch) then [v] else [];
      var tail := CheckpointFractions(from + 1, to, batch, total);
      CheckpointFractionsRise(from + 1, to, batch, total);
      RealFractionMonotone(from, from + 1, total);
      RealFractionMonotone(from, total, total);
      assert total as real / total as real == 1.0;
      assert CheckpointFractions(from, to, batch, total) == head + tail;
      assert forall k :: 0 <= k < |tail| ==> v < tail[k];
    }
  }

  /** Every checkpoint in `[from, to)` is reported. */
  lemma {:induction false} CheckpointFractionsContain(from: nat, to: nat, batch: nat,
                                                      total: nat, k: nat)
    requires batch > 0 && total > 0
    requires from <= k < to && Checkpoint(k, batch)
    ensures k as real / total as real in CheckpointFractions(from, to, batch, total)
    decreases if from < k then k - from else 0
  {
    if k > from {
      CheckpointFractionsContain(from + 1, to, batch, total, k);
    }
  }

  /** `v` is the report of a checkpoint in `[from, to)`. */
  ghost predicate ReportOfSome(v: real, from: nat, to: nat, batch: nat, total: nat)
    requires batch > 0 && total > 0
  {
    exists k: nat :: from <= k < to && Checkpoint(k, batch) && v == k as real / total as real
  }

  /** Only checkpoints in `[from, to)` are reported. */
  lemma {:induction false} CheckpointFractionsOnly(from: nat, to: nat, batch: nat,
                                                   total: nat)
    requires batch > 0 && total > 0
    ensures forall j :: 0 <= j < |CheckpointFractions(from, to, batch, total)| ==>
      ReportOfSome(CheckpointFractions(from, to, batch, total)[j], from, to, batch,
                   total)
    decreases if from < to then to - from else 0
  {
    if from < to {
      var head := if Checkpoint(from, batch) then [from as real / total as real] else [];
      var tail := CheckpointFractions(from + 1, to, batch, total);
      CheckpointFractionsOnly(from + 1, to, batch, total);
      assert CheckpointFractions(from, to, batch, total) == head + tail;
      forall j | 0 <= j < |head + tail|
        ensures ReportOfSome((head + tail)[j], from, to, batch, total)
      {
        if j < |head| {
          assert (head + tail)[j] == from as real / total as real;
        } else {
          assert (head + tail)[j] == tail[j - |head|];
          assert ReportOfSome(tail[j - |head|], from + 1, to, batch, total);
        }
      }
    }
  }

  /** The reports of a loop that stopped after `steps` of `total` iterations: each checkpoint
      reached, then `1` if it `completed`. */
  function BatchedReports(steps: nat, batch: nat, total: nat, completed: bool): seq<real>
    requires batch > 0 && steps <= total
  {
    CheckpointFractions(0, steps, batch, total) + (if completed then [1.0] else [])
  }

  /** Such reports rise strictly within `[0, 1]`, and `1` is among them exactly when the loop
      completed. */
  lemma {:induction false} BatchedReportsRise(steps: nat, batch: nat, total: nat, completed: bool)
    requires batch > 0 && steps <= total
    ensures forall i, j :: 0 <= i < j < |BatchedReports(steps, batch, total, completed)| ==>
      BatchedReports(steps, batch, total, completed)[i]
      < BatchedReports(steps, batch, total, completed)[j]
    ensures forall k :: 0 <= k < |BatchedReports(steps, batch, total, completed)| ==>
      0.0 <= BatchedReports(steps, batch, total, completed)[k] <= 1.0
    ensures (exists k :: 0 <= k < |BatchedReports(steps, batch, total, completed)|
                         && BatchedReports(steps, batch, total, completed)[k] == 1.0)
        <==> completed
  {
    var reports := BatchedReports(steps, batch, total, completed);
    var fractions := CheckpointFractions(0, steps, batch, total);
    if total == 0 {
      assert fractions == [];
    } else {
      CheckpointFractionsRise(0, steps, batch, total);
    }
    if completed {
      assert reports[|reports| - 1] == 1.0;
    }
  }

  /** Every checkpoint reached is reported, and nothing else is but the final `1`. */
  lemma {:induction false} BatchedReportsCheckpoints(steps: nat, batch: nat, total: nat, completed: bool)
    requires batch > 0 && 0 < total && steps <= total
    ensures forall i :: 0 <= i < steps && Checkpoint(i, batch) ==>
      i as real / total as real in BatchedReports(steps, batch, total, completed)
    ensures forall k :: 0 <= k < |BatchedReports(steps, batch, total, completed)| ==>
      BatchedReports(steps, batch, total, completed)[k] == 1.0
      || ReportOfSome(BatchedReports(steps, batch, total, completed)[k], 0, steps, batch, total)
  {
    var reports := BatchedReports(steps, batch, total, completed);
    var fractions := CheckpointFractions(0, steps, batch, total);
    CheckpointFractionsOnly(0, steps, batch, total);
    forall i | 0 <= i < steps && Checkpoint(i, batch)
      ensures i as real / total as real in reports
    {
      CheckpointFractionsContain(0, steps, batch, total, i);
    }
    forall k | 0 <= k < |reports|
      ensures reports[k] == 1.0 || ReportOfSome(reports[k], 0, steps, batch, total)
    {
      if k < |fractions| {
        assert reports[k] == fractions[k];
      }
    }
  }
}
