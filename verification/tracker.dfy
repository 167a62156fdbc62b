/**
  One pass of ud.cxx's polling loop in tracking mode and a run of such
  passes.  A pass locates the target window, captures its region from the
  screen, feeds the capture to the differencer and, on a change, to the
  reporter.  The screen, the header queries of the differencer and the
  clock are inputs of the pass; waiting between passes is not modelled.
*/
module Tracker {
  import opened Wrappers
  import opened Wildcard
  import opened Windows
  import opened Differencer
  import opened Reporter
  import opened Args

  /** The error code a failed screen copy reports while the screen is locked. */
  const ERROR_INVALID_HANDLE: int := 6

  /** Why a capture produced no frame: no screen device context, no memory
      device context, no compatible bitmap, or a failed copy with its code. */
  datatype CaptureError = NoDesktopDC | NoMemoryDC | NoBitmap | BltFailed(code: int)

  datatype Capture = Captured(frame: Frame) | CaptureFailed(error: CaptureError)

  /** Every capture failure is reported except the invalid-handle copy failure. */
  predicate Surfaced(e: CaptureError) {
    !(e.BltFailed? && e.code == ERROR_INVALID_HANDLE)
  }

  /** What a pass writes: reporter output, or a capture failure. */
  datatype Event = Shown(token: Token) | Fault(error: CaptureError)

  /** The state carried from pass to pass. */
  datatype LoopState = LoopState(retained: Option<Frame>, reporter: ReporterState)

  /** The state when the loop starts at time `t0`. */
  function Start(t0: int): LoopState {
    LoopState(None, Init(t0))
  }

  /** What one pass sees: the windows in enumeration order, the screen as a
      capture of each region, the outcome of the differencer's header
      queries and the time of the pass. */
  datatype TickInput = TickInput(windows: seq<WindowRec>, screen: Region -> Capture, queries: Queries, now: int)

  /** A pass either completes or stops at a regex outside the fragment this
      model gives a meaning to. */
  datatype TickResult = Ticked(state: LoopState, events: seq<Event>) | Halted

  function AsEvents(ts: seq<Token>): (es: seq<Event>)
    ensures |es| == |ts|
    ensures forall k :: 0 <= k < |ts| ==> es[k] == Shown(ts[k])
  {
    if ts == [] then [] else [Shown(ts[0])] + AsEvents(ts[1..])
  }

  /** The sum of the delta values among `es`. */
  function ValueSum(es: seq<Event>): int {
    if es == [] then 0
    else (if es[0].Shown? && es[0].token.Value? then es[0].token.delta else 0) + ValueSum(es[1..])
  }

  /** Do the events show any delta value? */
  predicate ShowsValue(es: seq<Event>) {
    exists k :: 0 <= k < |es| && es[k].Shown? && es[k].token.Value?
  }

  /** The events of reporting a change at `now`: an optional line break and
      one value, the time since the previous change. */
  function ChangeEvents(s: ReporterState, now: int): (es: seq<Event>)
    ensures es == AsEvents(OnChange(s, now).out)
    ensures forall k :: 0 <= k < |es| && es[k].Shown? && es[k].token.Value? ==> es[k].token.delta == now - s.tPrior
    ensures ValueSum(es) == now - s.tPrior
    ensures ShowsValue(es)
  {
    var out := OnChange(s, now).out;
    var last := [Shown(Value(now - s.tPrior))];
    assert ValueSum(last) == now - s.tPrior + ValueSum(last[1..]);
    if |out| == 2 then
      var es := [Shown(Newline)] + last;
      assert AsEvents(out) == es;
      assert es[1..] == last;
      assert es[1].Shown? && es[1].token.Value?;
      es
    else
      assert AsEvents(out) == last;
      assert last[0].Shown? && last[0].token.Value?;
      last
  }

  /** One tracking-mode pass. */
  function Tick(cfg: Config, fold: char -> char, st: LoopState, inp: TickInput): (r: TickResult)
    ensures r.Halted? <==> Locate(fold, cfg.regex, cfg.appId, inp.windows).Unsupported?
    ensures r.Ticked? && st.retained.Some? ==> r.state.retained.Some?
    ensures r.Ticked? && st.retained.None? ==> !ShowsValue(r.events)
    ensures r.Ticked? ==> forall k :: 0 <= k < |r.events| && r.events[k].Shown? && r.events[k].token.Value? ==>
      r.events[k].token.delta == inp.now - st.reporter.tPrior
    ensures r.Ticked? && 0 <= st.reporter.shownSoFar <= PER_LINE ==> 0 <= r.state.reporter.shownSoFar <= PER_LINE
    ensures r.Ticked? ==> ValueSum(r.events) == r.state.reporter.tPrior - st.reporter.tPrior
    ensures Locate(fold, cfg.regex, cfg.appId, inp.windows).NotFound? ==> r == Ticked(st, [])
    ensures Locate(fold, cfg.regex, cfg.appId, inp.windows).Found? ==>
      var c := inp.screen(CaptureRegion(cfg.wholeWindow, inp.windows[Locate(fold, cfg.regex, cfg.appId, inp.windows).index]));
      && (c.CaptureFailed? ==> r == Ticked(st, if Surfaced(c.error) then [Fault(c.error)] else []))
      && (c.Captured? ==>
            var o := Observe(st.retained, c.frame, inp.queries);
            && r.Ticked?
            && r.state.retained == Some(o.retained)
            && (ShowsValue(r.events) <==> o.changed)
            && r.state.reporter == (if o.changed then OnChange(st.reporter, inp.now).state else st.reporter)
            && r.events == (if o.changed then AsEvents(OnChange(st.reporter, inp.now).out) else []))
  {
    match Locate(fold, cfg.regex, cfg.appId, inp.windows)
    case NotFound => Ticked(st, [])
    case Unsupported(_) => Halted
    case Found(i) =>
      match inp.screen(CaptureRegion(cfg.wholeWindow, inp.windows[i]))
      case CaptureFailed(e) => Ticked(st, if Surfaced(e) then [Fault(e)] else [])
      case Captured(f) =>
        var o := Observe(st.retained, f, inp.queries);
        if o.changed then
          var rep := OnChange(st.reporter, inp.now);
          var es := ChangeEvents(st.reporter, inp.now);
          Ticked(LoopState(Some(o.retained), rep.state), es)
        else
          Ticked(LoopState(Some(o.retained), st.reporter), [])
  }

  /** The summary of a run of passes. */
  datatype Tracked = Tracked(state: LoopState, events: seq<Event>, halted: bool)

  /** A run of tracking passes, stopping if one halts.  Whether a run halts
      depends only on the windows the passes see, never on what earlier
      passes captured or reported. */
  function Track(cfg: Config, fold: char -> char, st: LoopState, ticks: seq<TickInput>): (r: Tracked)
    ensures r.halted <==> exists k :: 0 <= k < |ticks| && Locate(fold, cfg.regex, cfg.appId, ticks[k].windows).Unsupported?
    decreases |ticks|
  {
    if ticks == [] then Tracked(st, [], false)
    else
      assert forall k :: 1 <= k < |ticks| ==> ticks[k] == ticks[1..][k - 1];
      match Tick(cfg, fold, st, ticks[0])
      case Halted => Tracked(st, [], true)
      case Ticked(st', es) =>
        var rest := Track(cfg, fold, st', ticks[1..]);
        Tracked(rest.state, es + rest.events, rest.halted)
  }

  lemma {:induction false} ValueSumAppend(a: seq<Event>, b: seq<Event>)
    ensures ValueSum(a + b) == ValueSum(a) + ValueSum(b)
  {
    if a != [] {
      assert (a + b)[0] == a[0];
      assert (a + b)[1..] == a[1..] + b;
      ValueSumAppend(a[1..], b);
    } else {
      assert a + b == b;
    }
  }

  /** The delta values a run reports add up to the time from the run's
      reference point to the last reported change. */
  lemma {:induction false} TrackDeltasTelescope(cfg: Config, fold: char -> char, st: LoopState, ticks: seq<TickInput>)
    ensures ValueSum(Track(cfg, fold, st, ticks).events) == Track(cfg, fold, st, ticks).state.reporter.tPrior - st.reporter.tPrior
    decreases |ticks|
  {
    if ticks != [] {
      match Tick(cfg, fold, st, ticks[0])
      case Halted =>
      case Ticked(st', es) =>
        TrackDeltasTelescope(cfg, fold, st', ticks[1..]);
        ValueSumAppend(es, Track(cfg, fold, st', ticks[1..]).events);
    }
  }

  /** Once a frame is retained, one stays retained for the rest of the run,
      and the reporter's line counter stays within 0..PER_LINE. */
  lemma {:induction false} TrackKeepsInvariants(cfg: Config, fold: char -> char, st: LoopState, ticks: seq<TickInput>)
    ensures st.retained.Some? ==> Track(cfg, fold, st, ticks).state.retained.Some?
    ensures 0 <= st.reporter.shownSoFar <= PER_LINE ==> 0 <= Track(cfg, fold, st, ticks).state.reporter.shownSoFar <= PER_LINE
    decreases |ticks|
  {
    if ticks != [] {
      match Tick(cfg, fold, st, ticks[0])
      case Halted =>
      case Ticked(st', es) =>
        TrackKeepsInvariants(cfg, fold, st', ticks[1..]);
    }
  }

  /** A run tracking a clean wildcard name never halts. */
  lemma {:induction false} CleanNameNeverHalts(cfg: Config, fold: char -> char, st: LoopState, ticks: seq<TickInput>)
    requires Clean(cfg.appName) && cfg.regex == Translate(cfg.appName)
    ensures !Track(cfg, fold, st, ticks).halted
    decreases |ticks|
  {
    if ticks != [] {
      LocateByWildcard(fold, cfg.appName, cfg.appId, ticks[0].windows);
      var r := Tick(cfg, fold, st, ticks[0]);
      CleanNameNeverHalts(cfg, fold, r.state, ticks[1..]);
    }
  }

  /** The program's output over a run of passes: enumerate mode lists the
      first pass's windows and stops; tracking mode runs every pass. */
  datatype Outcome = Listed(rows: seq<Listing>) | Tracking(run: Tracked)

  function Run(cfg: Config, fold: char -> char, t0: int, ticks: seq<TickInput>): (r: Outcome)
    ensures cfg.enumerate <==> r.Listed?
    ensures r.Tracking? ==> 0 <= r.run.state.reporter.shownSoFar <= PER_LINE
    ensures r.Tracking? ==> ValueSum(r.run.events) == r.run.state.reporter.tPrior - t0
    ensures r.Listed? ==> r.rows == if ticks == [] then [] else ListWindows(ticks[0].windows)
    ensures r.Tracking? ==> r.run == Track(cfg, fold, Start(t0), ticks)
  {
    if cfg.enumerate then Listed(if ticks == [] then [] else ListWindows(ticks[0].windows))
    else
      TrackKeepsInvariants(cfg, fold, Start(t0), ticks);
      TrackDeltasTelescope(cfg, fold, Start(t0), ticks);
      Tracking(Track(cfg, fold, Start(t0), ticks))
  }
}
