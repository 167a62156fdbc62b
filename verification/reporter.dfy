/**
  The change reporter of ud.cxx: on each detected change it emits the
  milliseconds since the previous change (or since the loop started) and
  starts a new line before every eleventh, twenty-first, ... value.
  Timestamps are integer milliseconds.
*/
module Reporter {

  /** Values shown per output line. */
  const PER_LINE: nat := 10

  /** What is written: a delta value, or a line break. */
  datatype Token = Value(delta: int) | Newline

  /** The time of the previous change and the values shown on the current line. */
  datatype ReporterState = ReporterState(tPrior: int, shownSoFar: int)

  datatype Report = Report(state: ReporterState, out: seq<Token>)

  /** The state when the loop starts at `start`. */
  function Init(start: int): ReporterState {
    ReporterState(start, 0)
  }

  /** One change at time `now`. */
  function OnChange(s: ReporterState, now: int): (r: Report)
    ensures r.state.tPrior == now
    ensures |r.out| > 0 && r.out[|r.out| - 1] == Value(now - s.tPrior)
    ensures 0 <= s.shownSoFar <= PER_LINE ==> 1 <= r.state.shownSoFar <= PER_LINE
  {
    var wrap := s.shownSoFar != 0 && s.shownSoFar % PER_LINE == 0;
    var shown := if wrap then 0 else s.shownSoFar;
    Report(ReporterState(now, shown + 1), (if wrap then [Newline] else []) + [Value(now - s.tPrior)])
  }

  /** Reporting a change at each of `times`, in order. */
  function ReportAll(s: ReporterState, times: seq<int>): (r: Report)
    decreases |times|
  {
    if times == [] then Report(s, [])
    else
      var first := OnChange(s, times[0]);
      var rest := ReportAll(first.state, times[1..]);
      Report(rest.state, first.out + rest.out)
  }

  /** Reference definitions, by position rather than by counter. */

  /** The delta of each change from the one before it, the first from `t0`. */
  function Deltas(t0: int, times: seq<int>): (ds: seq<int>)
    ensures |ds| == |times|
    decreases |times|
  {
    if times == [] then [] else [times[0] - t0] + Deltas(times[0], times[1..])
  }

  /** The values `ds`, the k-th of the whole run preceded by a line break
      when k is a positive multiple of PER_LINE; `k` is the run position of `ds[0]`. */
  function Render(ds: seq<int>, k: nat): seq<Token> {
    if ds == [] then []
    else (if k > 0 && k % PER_LINE == 0 then [Newline] else []) + [Value(ds[0])] + Render(ds[1..], k + 1)
  }

  /** Values on the current line after `k` values of a run. */
  function Shown(k: nat): nat {
    if k == 0 then 0 else (k - 1) % PER_LINE + 1
  }

  function Last(t0: int, times: seq<int>): int {
    if times == [] then t0 else times[|times| - 1]
  }

  function Sum(ds: seq<int>): int {
    if ds == [] then 0 else ds[0] + Sum(ds[1..])
  }

  /** After k values the reporter's counter is Shown(k), so reporting
      further changes writes exactly the positional rendering of their deltas. */
  lemma {:induction false} ReportAllRenders(t: int, k: nat, times: seq<int>)
    ensures ReportAll(ReporterState(t, Shown(k)), times).out == Render(Deltas(t, times), k)
    ensures ReportAll(ReporterState(t, Shown(k)), times).state == ReporterState(Last(t, times), Shown(k + |times|))
    decreases |times|
  {
    if times != [] {
      OnChangeAt(t, k, times[0]);
      ReportAllRenders(times[0], k + 1, times[1..]);
      var ds := Deltas(t, times);
      assert ds[0] == times[0] - t && ds[1..] == Deltas(times[0], times[1..]);
      assert Last(times[0], times[1..]) == Last(t, times);
    }
  }

  /** With the counter at Shown(k), one change writes the k-th value of the
      run, preceded by a line break when k is a positive multiple of PER_LINE. */
  lemma OnChangeAt(t: int, k: nat, now: int)
    ensures OnChange(ReporterState(t, Shown(k)), now)
      == Report(ReporterState(now, Shown(k + 1)), (if k > 0 && k % PER_LINE == 0 then [Newline] else []) + [Value(now - t)])
  {
    ShownStep(k);
  }

  /** From a fresh start, the output is the positional rendering of the
      deltas and the reporter ends at the last change time. */
  lemma ReportFromStart(t0: int, times: seq<int>)
    ensures ReportAll(Init(t0), times).out == Render(Deltas(t0, times), 0)
    ensures ReportAll(Init(t0), times).state.tPrior == Last(t0, times)
  {
    ReportAllRenders(t0, 0, times);
  }

  /** The deltas add up to the time from the start to the last change. */
  lemma {:induction false} DeltasTelescope(t0: int, times: seq<int>)
    ensures Sum(Deltas(t0, times)) == Last(t0, times) - t0
    decreases |times|
  {
    if times != [] {
      var ds := Deltas(t0, times);
      var tail := Deltas(times[0], times[1..]);
      assert ds == [times[0] - t0] + tail;
      assert ds[0] == times[0] - t0 && ds[1..] == tail;
      assert Sum(ds) == ds[0] + Sum(tail);
      DeltasTelescope(times[0], times[1..]);
      assert Last(times[0], times[1..]) == Last(t0, times);
    }
  }

  /** No line holds more than PER_LINE values: starting with `c` values on
      the current line, each line break and the end find at most PER_LINE. */
  predicate LinesBounded(out: seq<Token>, c: nat)
    decreases |out|
  {
    if out == [] then c <= PER_LINE
    else match out[0]
      case Newline => c <= PER_LINE && LinesBounded(out[1..], 0)
      case Value(_) => LinesBounded(out[1..], c + 1)
  }

  /** Every line of a run's output, from any position onward, holds at most
      PER_LINE values. */
  lemma {:induction false} RenderLinesBounded(ds: seq<int>, k: nat)
    ensures LinesBounded(Render(ds, k), Shown(k))
    decreases |ds|
  {
    if ds != [] {
      RenderLinesBounded(ds[1..], k + 1);
      ShownStep(k);
      var out := Render(ds, k);
      var tail := Render(ds[1..], k + 1);
      if k > 0 && k % PER_LINE == 0 {
        assert out == [Newline] + ([Value(ds[0])] + tail);
        assert out[1..] == [Value(ds[0])] + tail;
        assert ([Value(ds[0])] + tail)[1..] == tail;
      } else {
        assert out == [Value(ds[0])] + tail;
        assert out[1..] == tail;
      }
    }
  }

  /** One more value either starts a new line, after a full one, or extends
      the current line. */
  lemma ShownStep(k: nat)
    ensures Shown(k) <= PER_LINE
    ensures !(k > 0 && k % PER_LINE == 0) ==> Shown(k) < PER_LINE
    ensures k > 0 && k % PER_LINE == 0 ==> Shown(k) == PER_LINE && Shown(k + 1) == 1
    ensures !(k > 0 && k % PER_LINE == 0) ==> Shown(k + 1) == Shown(k) + 1
  {
  }

  /** The reporter's own output from a fresh start never puts more than
      PER_LINE values on a line. */
  lemma ReporterLinesBounded(t0: int, times: seq<int>)
    ensures LinesBounded(ReportAll(Init(t0), times).out, 0)
  {
    ReportFromStart(t0, times);
    RenderLinesBounded(Deltas(t0, times), 0);
  }
}
