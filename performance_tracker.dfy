/**
 * The file-open performance tracker (src/services/performance-tracker.ts): one measurement
 * in progress, named start marks, and a bounded history of finished measurements, newest
 * first. `performance.now()`, `Date.now()` and the random measurement id are parameters.
 */
module PerformanceTracker {
  import opened Wrappers

  /** The measured steps of opening a file. */
  datatype Step = RustReadFile | IpcRoundTrip | MarkdownConversion | EditorInit | FirstRender

  /** The step's key in the `steps` record, as `markEnd` spells it in the mark name. */
  function StepName(step: Step): string {
    match step
    case RustReadFile => "rustReadFile"
    case IpcRoundTrip => "ipcRoundTrip"
    case MarkdownConversion => "markdownConversion"
    case EditorInit => "editorInit"
    case FirstRender => "firstRender"
  }

  /** The name of a step's start mark: `${step}_start`. */
  function StartMark(step: string): string {
    step + "_start"
  }

  /** One measurement: who, when, each step's duration once known, and the total. */
  datatype Metrics = Metrics(id: string, fileId: string, fileName: string, timestamp: int,
                             steps: map<Step, Option<real>>, total: Option<real>)

  /** Every step, none measured yet. */
  const NoSteps: map<Step, Option<real>> :=
    map[RustReadFile := None, IpcRoundTrip := None, MarkdownConversion := None,
        EditorInit := None, FirstRender := None]

  /** `maxHistory`. */
  const MaxHistory: nat := 10

  /**
   * `Math.round(x * 100) / 100` on exact numbers: rounding to hundredths, halves upwards.
   * The result is a whole number of hundredths within half a hundredth of `x`.
   */
  function Round2(x: real): (r: real)
    ensures (r * 100.0).Floor as real == r * 100.0
    ensures x - 1.0 / 200.0 < r <= x + 1.0 / 200.0
  {
    var y := x * 100.0 + 0.5;
    assert y.Floor as real <= y < y.Floor as real + 1.0;
    (y.Floor as real) / 100.0
  }

  /** A value that is already a whole number of hundredths is left as it is. */
  lemma {:induction false} Round2OfHundredths(k: int)
    ensures Round2(k as real / 100.0) == k as real / 100.0
  {
    var y := (k as real / 100.0) * 100.0 + 0.5;
    assert y == k as real + 0.5;
    assert y.Floor == k;
  }

  /** Rounding twice is rounding once. */
  lemma {:induction false} Round2Idempotent(x: real)
    ensures Round2(Round2(x)) == Round2(x)
  {
    var r := Round2(x);
    var k := (r * 100.0).Floor;
    assert r == k as real / 100.0;
    Round2OfHundredths(k);
  }

  /**
   * The history after `unshift` of `m` and, when that overflows `MaxHistory`, `pop`: the
   * new measurement first, the previous ones after it, the oldest dropped.
   */
  function Pushed(history: seq<Metrics>, m: Metrics): (r: seq<Metrics>)
    requires |history| <= MaxHistory
    ensures |r| <= MaxHistory && |r| >= 1 && r[0] == m
    ensures |history| < MaxHistory ==> r == [m] + history
    ensures |history| == MaxHistory ==> r == [m] + history[..MaxHistory - 1]
  {
    var h := [m] + history;
    if |h| > MaxHistory then h[..|h| - 1] else h
  }

  class Tracker {
    var currentMetrics: Option<Metrics>
    var history: seq<Metrics>
    var historySnapshot: seq<Metrics>
    var marks: map<string, real>

    /** The history is bounded and its snapshot is up to date. */
    ghost predicate Valid()
      reads this
    {
      |history| <= MaxHistory && historySnapshot == history
    }

    constructor ()
      ensures Valid() && currentMetrics == None && history == [] && marks == map[]
    {
      currentMetrics := None;
      history := [];
      historySnapshot := [];
      marks := map[];
    }

    /** `start`: the marks restart at `start`, and a fresh measurement with nothing measured begins. */
    method Start(fileId: string, fileName: string, id: string, timestamp: int, now: real)
      requires Valid()
      modifies this
      ensures Valid() && IsTracking() && GetCurrentFileId() == Some(fileId)
      ensures currentMetrics == Some(Metrics(id, fileId, fileName, timestamp, NoSteps, None))
      ensures marks == map["start" := now]
      ensures history == old(history)
    {
      marks := map["start" := now];
      currentMetrics := Some(Metrics(id, fileId, fileName, timestamp, NoSteps, None));
    }

    /** `markStart`: records when a step began. */
    method MarkStart(step: string, now: real)
      modifies this`marks
      ensures marks == old(marks)[StartMark(step) := now]
    {
      marks := marks[StartMark(step) := now];
    }

    /**
     * `markEnd`: with a measurement in progress and a start mark for the step, the step's
     * duration becomes the time since that mark, rounded; otherwise nothing changes.
     */
    method MarkEnd(step: Step, now: real)
      modifies this`currentMetrics
      ensures old(currentMetrics).None? || StartMark(StepName(step)) !in marks ==>
                currentMetrics == old(currentMetrics)
      ensures old(currentMetrics).Some? && StartMark(StepName(step)) in marks ==>
                var m := old(currentMetrics).value;
                currentMetrics == Some(m.(steps := m.steps[step := Some(Round2(now - marks[StartMark(StepName(step))]))]))
    {
      if currentMetrics.None? {
        return;
      }
      var startKey := StartMark(StepName(step));
      if startKey in marks {
        var duration := now - marks[startKey];
        var m := currentMetrics.value;
        currentMetrics := Some(m.(steps := m.steps[step := Some(Round2(duration))]));
      }
    }

    /** `setStepDuration`: with a measurement in progress, the step's duration is set, rounded. */
    method SetStepDuration(step: Step, duration: real)
      modifies this`currentMetrics
      ensures old(currentMetrics).None? ==> currentMetrics == None
      ensures old(currentMetrics).Some? ==>
                var m := old(currentMetrics).value;
                currentMetrics == Some(m.(steps := m.steps[step := Some(Round2(duration))]))
    {
      if currentMetrics.None? {
        return;
      }
      var m := currentMetrics.value;
      currentMetrics := Some(m.(steps := m.steps[step := Some(Round2(duration))]));
    }

    /**
     * `complete`: without a measurement in progress, nothing happens and there is no
     * result. Otherwise the total is set from the start mark when there is one, the
     * measurement goes to the front of the history (the oldest entry dropping out past
     * `MaxHistory`), the snapshot is refreshed, and tracking stops with no marks left.
     */
    method Complete(now: real) returns (result: Option<Metrics>)
      requires Valid()
      modifies this
      ensures Valid()
      ensures old(currentMetrics).None? ==>
                result == None && history == old(history) && currentMetrics == None && marks == old(marks)
      ensures old(currentMetrics).Some? ==>
                var m := old(currentMetrics).value;
                && result
                   == Some(m.(total := if "start" in old(marks) then Some(Round2(now - old(marks)["start"])) else m.total))
                && history == Pushed(old(history), result.value)
                && GetLatest() == result
                && !IsTracking() && GetCurrentFileId() == None && marks == map[]
    {
      if currentMetrics.None? {
        return None;
      }
      var m := currentMetrics.value;
      if "start" in marks {
        m := m.(total := Some(Round2(now - marks["start"])));
      }
      history := [m] + history;
      if |history| > MaxHistory {
        history := history[..|history| - 1];
      }
      historySnapshot := history;
      result := Some(m);
      currentMetrics := None;
      marks := map[];
    }

    /** `getLatest`: the front of the history, if any. */
    function GetLatest(): (r: Option<Metrics>)
      reads this
      ensures r.Some? <==> |history| > 0
      ensures r.Some? ==> r.value == history[0]
    {
      if |history| > 0 then Some(history[0]) else None
    }

    /** `getHistory`: the snapshot taken at the last `complete`. */
    function GetHistory(): (r: seq<Metrics>)
      reads this
      requires Valid()
      ensures r == history && |r| <= MaxHistory
    {
      historySnapshot
    }

    /** `isTracking`. */
    function IsTracking(): (r: bool)
      reads this
      ensures r <==> currentMetrics.Some?
    {
      currentMetrics.Some?
    }

    /** `getCurrentFileId`. */
    function GetCurrentFileId(): (r: Option<string>)
      reads this
      ensures r.Some? <==> currentMetrics.Some?
      ensures r.Some? ==> r.value == currentMetrics.value.fileId
    {
      if currentMetrics.Some? then Some(currentMetrics.value.fileId) else None
    }
  }
}
