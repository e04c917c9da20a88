/** `drawReconstruction` of the analysis view: the run/cancel protocol around the three
    reconstructors. Every request that is not turned away installs a new run id in
    `animationFrameId.current`; a run is cancelled as soon as the current id is no longer its
    own, and only the current run may, when it ends, set `isAnimating` back to false and the
    progress to 1.

    The run id (`Date.now()` in the source) is a generation counter here: each accepted
    request takes the next number. Whether the image, the canvas and its 2D context are ready
    is the parameter `ready`. */
module Controller {
  import opened Analyzer

  /** `ReconstructionStyle`: 'mosaic' | 'circles' | 'paletteQuantization'. */
  datatype Style = MosaicStyle | CirclesStyle | PaletteStyle

  /** The values `drawReconstruction` closes over besides the style. */
  datatype Settings = Settings(blockSize: nat, numCircles: nat, minRadius: real,
                               maxRadius: real, palette: seq<ColorPaletteItem>)

  /** The reconstructor a run awaits, with the arguments it passes. */
  datatype Job =
    | MosaicJob(blockSize: nat)
    | CirclesJob(numCircles: nat, minRadius: real, maxRadius: real)
    | PaletteJob(palette: seq<ColorPaletteItem>)

  /** What a request did: turned away, installed a run id and bailed out before rendering, or
      started rendering. */
  datatype Outcome = Ignored | NotReady(runId: nat) | Started(runId: nat, job: Job)

  /** `animationFrameId.current`, `isAnimating` and `progress`. */
  datatype ControllerState = ControllerState(currentId: nat, isAnimating: bool, progress: real)

  /** The events that change the state: a call of `drawReconstruction(isReplay)`, a call of
      `setProgress` by a renderer (any renderer: the callback is not tied to a run), and the
      `finally` block of the run with id `runId`. */
  datatype Event = Request(isReplay: bool, ready: bool) | Report(value: real) | Finish(runId: nat)

  /** The style dispatch of `drawReconstruction`. */
  function Dispatch(style: Style, settings: Settings): Job {
    match style
    case MosaicStyle => MosaicJob(settings.blockSize)
    case CirclesStyle => CirclesJob(settings.numCircles, settings.minRadius, settings.maxRadius)
    case PaletteStyle => PaletteJob(settings.palette)
  }

  /** `!isReplay && isAnimating` turns a request away. */
  predicate Accepts(s: ControllerState, isReplay: bool) {
    isReplay || !s.isAnimating
  }

  function AfterRequest(s: ControllerState, isReplay: bool, ready: bool): ControllerState {
    if !Accepts(s, isReplay) then s
    else if !ready then s.(currentId := s.currentId + 1)
    else ControllerState(s.currentId + 1, true, 0.0)
  }

  function AfterFinish(s: ControllerState, runId: nat): ControllerState {
    if runId == s.currentId then s.(isAnimating := false, progress := 1.0) else s
  }

  function Step(s: ControllerState, e: Event): ControllerState {
    match e
    case Request(isReplay, ready) => AfterRequest(s, isReplay, ready)
    case Report(value) => s.(progress := value)
    case Finish(runId) => AfterFinish(s, runId)
  }

  /** The state after the events, in order. */
  function Apply(s: ControllerState, events: seq<Event>): ControllerState
    decreases |events|
  {
    if events == [] then s else Apply(Step(s, events[0]), events[1..])
  }

  // ---------------------------------------------------------------------------------------
  // The controller
  // ---------------------------------------------------------------------------------------

  class ReconstructionController {
    var currentId: nat
    var isAnimating: bool
    var progress: real

    function State(): ControllerState
      reads this
    {
      ControllerState(currentId, isAnimating, progress)
    }

    /** `isCancelled` as handed to the run with id `runId`. */
    predicate IsCancelled(runId: nat)
      reads this
    {
      currentId != runId
    }

    constructor ()
      ensures State() == ControllerState(0, false, 0.0)
    {
      currentId := 0;
      isAnimating := false;
      progress := 0.0;
    }

    /** The synchronous part of `drawReconstruction(isReplay)`, up to the call of the
        renderer. */
    method DrawReconstruction(isReplay: bool, ready: bool, style: Style, settings: Settings)
      returns (outcome: Outcome)
      modifies this
      ensures State() == AfterRequest(old(State()), isReplay, ready)
      ensures !old(Accepts(State(), isReplay)) ==> outcome == Ignored && unchanged(this)
      ensures old(Accepts(State(), isReplay)) ==>
        && currentId == old(currentId) + 1
        && (forall runId: nat :: runId <= old(currentId) ==> IsCancelled(runId))
        && !IsCancelled(currentId)
      ensures old(Accepts(State(), isReplay)) && !ready ==>
        outcome == NotReady(currentId) && isAnimating == old(isAnimating)
        && progress == old(progress)
      ensures old(Accepts(State(), isReplay)) && ready ==>
        outcome == Started(currentId, Dispatch(style, settings)) && isAnimating
        && progress == 0.0
    {
      if !isReplay && isAnimating {
        return Ignored;
      }
      var animationId := currentId + 1;
      currentId := animationId;
      if !ready {
        return NotReady(animationId);
      }
      isAnimating := true;
      progress := 0.0;
      var job;
      match style {
        case MosaicStyle => job := MosaicJob(settings.blockSize);
        case CirclesStyle =>
          job := CirclesJob(settings.numCircles, settings.minRadius, settings.maxRadius);
        case PaletteStyle => job := PaletteJob(settings.palette);
      }
      outcome := Started(animationId, job);
    }

    /** `setProgress`, the `onProgress` callback every renderer is given. */
    method SetProgress(value: real)
      modifies this
      ensures State() == old(State()).(progress := value)
    {
      progress := value;
    }

    /** The `finally` block of the run with id `runId`, however the renderer ended. */
    method Finish(runId: nat)
      modifies this
      ensures State() == AfterFinish(old(State()), runId)
      ensures old(IsCancelled(runId)) ==> unchanged(this)
      ensures !old(IsCancelled(runId)) ==>
        currentId == old(currentId) && !isAnimating && progress == 1.0
    {
      if !IsCancelled(runId) {
        isAnimating := false;
        progress := 1.0;
      }
    }
  }

  // ---------------------------------------------------------------------------------------
  // Sequences of events
  // ---------------------------------------------------------------------------------------

  lemma {:induction false} ApplyAppend(s: ControllerState, a: seq<Event>, b: seq<Event>)
    ensures Apply(s, a + b) == Apply(Apply(s, a), b)
    decreases |a|
  {
    if a != [] {
      assert (a + b)[0] == a[0] && (a + b)[1..] == a[1..] + b;
      ApplyAppend(Step(s, a[0]), a[1..], b);
    } else {
      assert a + b == b;
    }
  }

  /** The current run id never goes back. */
  lemma {:induction false} CurrentIdGrows(s: ControllerState, events: seq<Event>)
    ensures Apply(s, events).currentId >= s.currentId
    decreases |events|
  {
    if events != [] {
      CurrentIdGrows(Step(s, events[0]), events[1..]);
    }
  }

  /** A run superseded once stays cancelled whatever happens next. */
  lemma {:induction false} SupersededStaysCancelled(s: ControllerState, events: seq<Event>, runId: nat)
    requires runId < s.currentId
    ensures Apply(s, events).currentId != runId
  {
    CurrentIdGrows(s, events);
  }

  /** A superseded run's `finally` block changes nothing, whatever happened in between. */
  lemma {:induction false} SupersededFinishIgnored(s: ControllerState, during: seq<Event>, runId: nat)
    requires Apply(s, during).currentId != runId
    ensures Apply(s, during + [Finish(runId)]) == Apply(s, during)
  {
    ApplyAppend(s, during, [Finish(runId)]);
  }

  /** The `setProgress` calls of a run reporting `values`. */
  function Reports(values: seq<real>): (events: seq<Event>)
    ensures |events| == |values|
    ensures forall i :: 0 <= i < |values| ==> events[i] == Report(values[i])
  {
    if values == [] then [] else [Report(values[0])] + Reports(values[1..])
  }

  /** Progress reports change only the progress: to the last value reported. */
  lemma {:induction false} ReportsKeepRun(s: ControllerState, values: seq<real>)
    ensures Apply(s, Reports(values)).currentId == s.currentId
    ensures Apply(s, Reports(values)).isAnimating == s.isAnimating
    ensures Apply(s, Reports(values)).progress
         == if values == [] then s.progress else values[|values| - 1]
    decreases |values|
  {
    if values != [] {
      assert Reports(values)[1..] == Reports(values[1..]);
      ReportsKeepRun(s.(progress := values[0]), values[1..]);
    }
  }

  /** A run that nothing superseded: accepted and ready, it reports its progress, and its
      `finally` block leaves the controller idle with progress 1 and the run still current. */
  lemma {:induction false} UninterruptedRun(s: ControllerState, isReplay: bool, values: seq<real>)
    requires Accepts(s, isReplay)
    ensures var started := AfterRequest(s, isReplay, true);
      && started.isAnimating && started.progress == 0.0
      && Apply(started, Reports(values) + [Finish(started.currentId)])
         == ControllerState(s.currentId + 1, false, 1.0)
  {
    var started := AfterRequest(s, isReplay, true);
    ReportsKeepRun(started, values);
    ApplyAppend(started, Reports(values), [Finish(started.currentId)]);
  }

  // ---------------------------------------------------------------------------------------
  // The cancellation oracle of a run
  // ---------------------------------------------------------------------------------------

  /** The state after the events that happen during each of the first `k` yields of a run
      (`during(i)` happen during its `i`-th yield). */
  function AfterYields(s: ControllerState, during: nat -> seq<Event>, k: nat): ControllerState
  {
    if k == 0 then s else Apply(AfterYields(s, during, k - 1), during(k - 1))
  }

  /** What `isCancelled()` answers a run started in state `s` (so with id `s.currentId`) once
      it has passed `k` yields. */
  predicate CancelledAfter(s: ControllerState, during: nat -> seq<Event>, k: nat) {
    AfterYields(s, during, k).currentId != s.currentId
  }

  lemma {:induction false} AfterYieldsGrows(s: ControllerState, during: nat -> seq<Event>,
                                            k: nat, k': nat)
    requires k <= k'
    ensures AfterYields(s, during, k').currentId >= AfterYields(s, during, k).currentId
    decreases k' - k
  {
    if k < k' {
      AfterYieldsGrows(s, during, k, k' - 1);
      CurrentIdGrows(AfterYields(s, during, k' - 1), during(k' - 1));
    }
  }

  /** Once `isCancelled()` says true to a run it says true for good, which is what the
      reconstructors' cancellation oracles rely on. */
  lemma {:induction false} CancelledForGood(s: ControllerState, during: nat -> seq<Event>, k: nat, k': nat)
    requires k <= k' && CancelledAfter(s, during, k)
    ensures CancelledAfter(s, during, k')
  {
    AfterYieldsGrows(s, during, 0, k);
    AfterYieldsGrows(s, during, k, k');
  }

  // ---------------------------------------------------------------------------------------
  // A superseded run's progress
  // ---------------------------------------------------------------------------------------

  /** `setProgress` is not guarded by the run id: a run started, then a replay supersedes it,
      and the superseded run reports `1` (as the circle and palette renderers do after their
      last yield without polling); the newer run, still animating, then shows progress 1. */
  lemma {:induction false} StaleReportReachesNewRun()
    ensures var started := Apply(ControllerState(0, false, 0.0), [Request(false, true)]);
      var replayed := Apply(started, [Request(true, true)]);
      && started.currentId == 1 && replayed.currentId == 2
      && replayed.isAnimating && replayed.progress == 0.0
      && Apply(replayed, [Report(1.0)]) == ControllerState(2, true, 1.0)
  {
  }
}
