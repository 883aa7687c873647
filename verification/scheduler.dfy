/** The repaint scheduler and the process life cycle of src/unagi.c: the
    paint timer callback (which list is painted, the running average of
    paint times and the next repaint interval), the two modes of the X
    event drain, the order of the start-up steps around the compositing
    manager ownership check, and the order of the exit cleanup. Clocks
    and the event queue are inputs; times are reals. */
module Scheduler {
  import opened Wrappers
  import opened XTypes
  import opened Window
  import opened Registry
  import opened Plugin
  import Event

  /** `DEFAULT_REPAINT_INTERVAL`: 50Hz, used without RandR */
  const DefaultRepaintInterval: real := 0.02

  /** `MINIMUM_REPAINT_INTERVAL` */
  const MinimumRepaintInterval: real := 0.01

  /** The timing fields of `globalconf`: the refresh-rate interval, the
      current repaint interval, the sum of all paint times and the number
      of paints */
  datatype Timing = Timing(refresh: real, interval: real, sum: real, counter: nat)

  // ---------------------------------------------------------------------
  // Repaint interval
  // ---------------------------------------------------------------------

  /** The interval after a paint: the refresh interval less the average
      paint time, unless that is below the minimum, in which case the
      refresh interval itself */
  function NextInterval(refresh: real, average: real): (r: real)
    ensures r == refresh || r == refresh - average
    ensures refresh - average >= MinimumRepaintInterval ==> r == refresh - average
    ensures refresh - average < MinimumRepaintInterval ==> r == refresh
    ensures r < MinimumRepaintInterval ==> r == refresh
  {
    var current := refresh - average;
    if current < MinimumRepaintInterval then refresh else current
  }

  /** The bookkeeping after one paint that took `paintTime`: the counter
      is incremented before it divides the sum, so the average is always
      defined */
  function Record(t: Timing, paintTime: real): (r: Timing)
    ensures r.refresh == t.refresh && r.counter == t.counter + 1 && r.sum == t.sum + paintTime
    ensures r.interval == NextInterval(t.refresh, r.sum / (r.counter as real))
  {
    var sum := t.sum + paintTime;
    var counter := t.counter + 1;
    t.(interval := NextInterval(t.refresh, sum / (counter as real)), sum := sum, counter := counter)
  }

  /** The timing after paints taking `times`, in order */
  function RecordAll(t: Timing, times: seq<real>): Timing {
    if |times| == 0 then t else Record(RecordAll(t, times[..|times| - 1]), times[|times| - 1])
  }

  function Sum(xs: seq<real>): real {
    if |xs| == 0 then 0.0 else Sum(xs[..|xs| - 1]) + xs[|xs| - 1]
  }

  /** From the initial timing, after any non-empty run of paints the
      counter is the number of paints, the sum is the total paint time and
      the interval is derived from the mean paint time */
  lemma {:induction false} RecordAllIsMean(refresh: real, times: seq<real>)
    requires |times| > 0
    ensures var t := RecordAll(Timing(refresh, refresh, 0.0, 0), times);
      && t.refresh == refresh && t.counter == |times| && t.sum == Sum(times)
      && t.interval == NextInterval(refresh, Sum(times) / (|times| as real))
  {
    RecordAllCounts(refresh, times);
  }

  lemma {:induction false} RecordAllCounts(refresh: real, times: seq<real>)
    ensures var t := RecordAll(Timing(refresh, refresh, 0.0, 0), times);
      t.refresh == refresh && t.counter == |times| && t.sum == Sum(times)
  {
    if |times| > 0 {
      RecordAllCounts(refresh, times[..|times| - 1]);
    }
  }

  /** With a refresh interval at or above the minimum (as the 50Hz
      fallback is), every interval is at least the minimum */
  lemma IntervalAtLeastMinimum(refresh: real, average: real)
    requires refresh >= MinimumRepaintInterval
    ensures NextInterval(refresh, average) >= MinimumRepaintInterval
  {
  }

  // ---------------------------------------------------------------------
  // Paint callback
  // ---------------------------------------------------------------------

  /** Whether the paint callback asks this plugin for a window list */
  predicate Asks(p: Plugin) {
    p.enable && p.vtable.renderWindows
  }

  /** The list `window_paint_all` is given: the one a plugin returned, or
      the registry's own */
  datatype PaintList = PluginList(plugin: nat) | RegistryList

  /** `list` is the first plugin that is asked and answers with a list
      (`answers[i]`: whether plugin `i` would return non-NULL), or the
      registry's list when none does */
  ghost predicate Selected(ps: seq<Plugin>, answers: seq<bool>, list: PaintList)
    requires |answers| == |ps|
  {
    match list
    case PluginList(i) =>
      i < |ps| && Asks(ps[i]) && answers[i] && forall j :: 0 <= j < i ==> !(Asks(ps[j]) && answers[j])
    case RegistryList =>
      forall j :: 0 <= j < |ps| ==> !(Asks(ps[j]) && answers[j])
  }

  /** At most one list satisfies `Selected` */
  lemma SelectedUnique(ps: seq<Plugin>, answers: seq<bool>, a: PaintList, b: PaintList)
    requires |answers| == |ps| && Selected(ps, answers, a) && Selected(ps, answers, b)
    ensures a == b
  {
    assert a.PluginList? ==> Asks(ps[a.plugin]) && answers[a.plugin];
    assert b.PluginList? ==> Asks(ps[b.plugin]) && answers[b.plugin];
  }

  /** The plugin loop of `_unagi_paint_callback`: plugins are asked in
      list order and the loop stops at the first that returns a list, so
      later plugins are not asked. Returns the list and the positions of
      the plugins asked. */
  method SelectPaintList(ps: seq<Plugin>, answers: seq<bool>) returns (list: PaintList, asked: seq<nat>)
    requires |answers| == |ps|
    ensures Selected(ps, answers, list)
    ensures forall j :: 0 <= j < |ps| ==>
      (j in asked <==> Asks(ps[j]) && (list.RegistryList? || j <= list.plugin))
    ensures forall k :: 0 <= k < |asked| ==> asked[k] < |ps|
    ensures Increasing(asked)
  {
    asked := [];
    var i := 0;
    while i < |ps|
      invariant i <= |ps|
      invariant forall j :: 0 <= j < i ==> !(Asks(ps[j]) && answers[j])
      invariant forall j :: 0 <= j < |ps| ==> (j in asked <==> j < i && Asks(ps[j]))
      invariant forall k :: 0 <= k < |asked| ==> asked[k] < i
      invariant Increasing(asked)
    {
      if Asks(ps[i]) {
        asked := asked + [i];
        if answers[i] {
          return PluginList(i), asked;
        }
      }
      i := i + 1;
    }
    list := RegistryList;
  }

  /** How `_unagi_io_callback` was invoked: from the start-up code
      (`revents == -1`) or otherwise */
  datatype DrainMode = Startup | Steady

  /** A paint keeps the DamageNotify counter bound: a reset window has
      counter 0, one left alone had a zero ratio */
  lemma PaintedKeepsOk(w: Window, w': Window)
    requires Event.DamageOk(w) && PaintedFrom(w, w')
    ensures Event.DamageOk(w')
  {
  }

  lemma PaintedValid(c: Event.Conf, r: State)
    requires Event.Valid(c) && Inv(r) && |r.windows| == |c.reg.windows|
    requires forall k :: 0 <= k < |c.reg.windows| ==> PaintedFrom(c.reg.windows[k], r.windows[k])
    ensures Event.Valid(c.(reg := r))
  {
    forall x | x in r.windows
      ensures Event.DamageOk(x)
    {
      var k :| 0 <= k < |r.windows| && r.windows[k] == x;
      Event.OkAt(c, k);
      PaintedKeepsOk(c.reg.windows[k], x);
    }
  }

  /** `_unagi_paint_callback`. Without pending damage nothing happens.
      Otherwise the selected list is painted (the registry's windows as
      `Registry.PaintAll` says; a plugin's list holds records this model
      does not track), the damaged region and the background-reset flag
      are cleared, the paint time is recorded, and the event drain is
      invoked again in steady mode for the events queued meanwhile. */
  method PaintCallback(c: Event.Conf, t: Timing, answers: seq<bool>, inputs: seq<PaintInput>, paintTime: real)
    returns (r: Event.Conf, t': Timing, list: Option<PaintList>, painted: seq<Handle>, redrain: Option<DrainMode>)
    requires Event.Valid(c) && |answers| == |c.plugins| && |inputs| == |c.reg.windows|
    requires forall k :: 0 <= k < |inputs| ==> inputs[k].freshPicture != NONE && inputs[k].freshAlpha != NONE
    ensures Event.Valid(r)
    ensures c.damaged == [] ==> r == c && t' == t && list == None && painted == [] && redrain == None
    ensures c.damaged != [] ==>
      && r == c.(reg := r.reg, damaged := [], backgroundReset := false)
      && t' == Record(t, paintTime)
      && redrain == Some(Steady)
      && list.Some? && Selected(c.plugins, answers, list.value)
      && (list.value.PluginList? ==> r.reg == c.reg && painted == [])
      && (list.value.RegistryList? ==>
            && r.reg.index == c.reg.index && |r.reg.windows| == |c.reg.windows|
            && painted == DamagedHandles(c.reg.windows)
            && forall k :: 0 <= k < |c.reg.windows| ==> PaintedFrom(c.reg.windows[k], r.reg.windows[k]))
  {
    if c.damaged == [] {
      return c, t, None, [], None;
    }
    var l, _ := SelectPaintList(c.plugins, answers);
    var reg := c.reg;
    painted := [];
    if l == RegistryList {
      reg, painted := PaintAll(c.reg, inputs);
      PaintedValid(c, reg);
    }
    r := c.(reg := reg, damaged := [], backgroundReset := false);
    t' := Record(t, paintTime);
    list := Some(l);
    redrain := Some(Steady);
  }

  // ---------------------------------------------------------------------
  // Event drain
  // ---------------------------------------------------------------------

  /** Whether the repaint interval is reached once `elapsed` seconds have
      passed since the callback started */
  predicate Late(elapsed: real, interval: real) {
    elapsed + 0.001 > interval
  }

  /** The first event after which the interval is reached */
  function FirstLate(elapsed: seq<real>, interval: real): (r: Option<nat>)
    ensures r.Some? ==> r.value < |elapsed| && Late(elapsed[r.value], interval)
    ensures r.Some? ==> forall j :: 0 <= j < r.value ==> !Late(elapsed[j], interval)
    ensures r.None? <==> forall j :: 0 <= j < |elapsed| ==> !Late(elapsed[j], interval)
  {
    if |elapsed| == 0 then None
    else if Late(elapsed[0], interval) then Some(0)
    else match FirstLate(elapsed[1..], interval)
      case None => None
      case Some(k) => Some(k + 1)
  }

  /** `_unagi_io_callback`. The connection would deliver `|elapsed|`
      events; `elapsed[k]` is the time since the callback started once
      event `k` is handled and `queued[k]` how many events are then
      already queued. A connection in error is fatal before any event is
      handled. A start-up drain handles every event. A steady drain stops
      polling after the first event past the interval, handles the events
      already queued, and returns. Returns how many events were handled,
      whether the drain stopped early and whether it exited on the
      connection error. */
  /** How many events a drain handles: none on a connection error, all
      of them at start-up or when no event is late, otherwise those up to
      the first late one and the ones then queued */
  function DrainCount(mode: DrainMode, connectionOk: bool, interval: real, elapsed: seq<real>, queued: seq<nat>): nat
    requires |queued| == |elapsed|
  {
    if !connectionOk then 0
    else if mode == Startup then |elapsed|
    else match FirstLate(elapsed, interval)
      case None => |elapsed|
      case Some(k) => k + 1 + queued[k]
  }

  method Drain(mode: DrainMode, connectionOk: bool, interval: real, elapsed: seq<real>, queued: seq<nat>)
    returns (handled: nat, early: bool, exited: bool)
    requires |queued| == |elapsed|
    ensures handled == DrainCount(mode, connectionOk, interval, elapsed, queued)
    ensures exited <==> !connectionOk
    ensures exited ==> handled == 0 && !early
    ensures connectionOk && mode == Startup ==> handled == |elapsed| && !early
    ensures connectionOk && mode == Steady && FirstLate(elapsed, interval).None? ==> handled == |elapsed| && !early
    ensures connectionOk && mode == Steady && FirstLate(elapsed, interval).Some? ==>
      early && handled == FirstLate(elapsed, interval).value + 1 + queued[FirstLate(elapsed, interval).value]
  {
    if !connectionOk {
      return 0, false, true;
    }
    var k := 0;
    while k < |elapsed|
      invariant k <= |elapsed|
      invariant mode == Steady ==> forall j :: 0 <= j < k ==> !Late(elapsed[j], interval)
    {
      if mode == Steady && Late(elapsed[k], interval) {
        assert FirstLate(elapsed, interval) == Some(k);
        return k + 1 + queued[k], true, false;
      }
      k := k + 1;
    }
    return |elapsed|, false, false;
  }

  /** A start-up drain handles at least as many events as a steady one
      over the same events, as long as no more events are queued than
      remain */
  lemma StartupDrainsMost(connectionOk: bool, interval: real, elapsed: seq<real>, queued: seq<nat>)
    requires |queued| == |elapsed|
    requires forall k :: 0 <= k < |elapsed| ==> queued[k] < |elapsed| - k
    ensures DrainCount(Steady, connectionOk, interval, elapsed, queued)
            <= DrainCount(Startup, connectionOk, interval, elapsed, queued)
  {
  }

  // ---------------------------------------------------------------------
  // Start-up
  // ---------------------------------------------------------------------

  /** The steps of `main` this model orders */
  datatype Step =
    | LoadRendering | InitAtoms | RequestOwner | LoadPlugins | InitExtensions | InitRendering
    | CheckOwner | RegisterCm | FinaliseExtensions | FinaliseRendering | SelectRandr
    | ValidateStartup | FinaliseCm | Redirect | ValidateRedirect | ManageWindows
    | CheckRequirements | SetRefreshRate | ArmPaintTimer | ReadLockMasks | InitialPaint
    | StartupDrain | RunLoop

  /** Why `main` gives up */
  datatype Cause =
    | CannotOpenDisplay | RenderingBackend | Atoms | InitFailure
    | CmAlreadyActive(owner: Xid) | StartupFatal(reason: Event.FatalReason) | OwnershipNotAcquired

  datatype LaunchResult = Running(timing: Timing) | Exited(cause: Cause)

  datatype Launch = Launch(steps: seq<Step>, result: LaunchResult)

  /** What the start-up depends on. `owner` is the WM_CM_Sn owner reply
      (`None` when there is none); `randr` the refresh interval RandR gave,
      `None` without RandR; the event lists are those each validation
      sync brings back. */
  datatype LaunchInputs = LaunchInputs(
    connected: bool, renderingLoaded: bool, atomsOk: bool, renderInitOk: bool,
    owner: Option<Xid>, renderFinaliseOk: bool, randr: Option<real>,
    startupEvents: seq<Event.StartupEvent>, ownershipAcquired: bool,
    redirectEvents: seq<Event.StartupEvent>)

  /** The first fatal verdict of `event_handle_startup` over the events */
  function FirstFatal(ext: Event.Extensions, evs: seq<Event.StartupEvent>): (r: Option<Event.FatalReason>)
    ensures r.None? <==> forall k :: 0 <= k < |evs| ==> !Event.StartupHandle(ext, evs[k]).Fatal?
    ensures r.Some? ==> exists k :: 0 <= k < |evs| && Event.StartupHandle(ext, evs[k]) == Event.Fatal(r.value)
                                    && forall j :: 0 <= j < k ==> !Event.StartupHandle(ext, evs[j]).Fatal?
  {
    if |evs| == 0 then None
    else match Event.StartupHandle(ext, evs[0])
      case Fatal(reason) => Some(reason)
      case _ =>
        var r := FirstFatal(ext, evs[1..]);
        assert forall k :: 0 <= k < |evs| - 1 ==> evs[1..][k] == evs[k + 1];
        r
  }

  /** Every step of a run that reaches the event loop, in order */
  function Plan(randr: bool): (r: seq<Step>)
    ensures |r| == if randr then 23 else 22
    ensures r[6] == CheckOwner && r[7] == RegisterCm
    ensures forall a, b :: 0 <= a < b < |r| ==> r[a] != r[b]
  {
    [LoadRendering, InitAtoms, RequestOwner, LoadPlugins, InitExtensions, InitRendering,
     CheckOwner, RegisterCm, FinaliseExtensions, FinaliseRendering]
    + (if randr then [SelectRandr] else [])
    + [ValidateStartup, FinaliseCm, Redirect, ValidateRedirect, ManageWindows, CheckRequirements,
       SetRefreshRate, ArmPaintTimer, ReadLockMasks, InitialPaint, StartupDrain, RunLoop]
  }

  /** `main` up to the event loop: the steps are performed in the order
      of `Plan`, and a failure ends the run right after the step that
      failed. The owner reply is checked (step 7) before the compositing
      manager is registered (step 8), and a live owner ends the run there.
      The refresh interval is RandR's or the 50Hz fallback, and the first
      repaint interval equals it. */
  function Main(inp: LaunchInputs, ext: Event.Extensions): (r: Launch)
    ensures |r.steps| <= |Plan(inp.randr.Some?)| && r.steps == Plan(inp.randr.Some?)[..|r.steps|]
    ensures |r.steps| > 6 <==> inp.connected && inp.renderingLoaded && inp.atomsOk && inp.renderInitOk
    ensures |r.steps| > 7 ==> inp.owner.None? || inp.owner.value == NONE
    ensures |r.steps| > 6 && inp.owner.Some? && inp.owner.value != NONE ==>
      r.result == Exited(CmAlreadyActive(inp.owner.value)) && |r.steps| == 7
    ensures r.result.Running? <==>
      && inp.connected && inp.renderingLoaded && inp.atomsOk && inp.renderInitOk
      && (inp.owner.None? || inp.owner.value == NONE) && inp.renderFinaliseOk
      && FirstFatal(ext, inp.startupEvents).None? && inp.ownershipAcquired
      && FirstFatal(ext, inp.redirectEvents).None?
    ensures r.result.Running? ==>
      && r.steps == Plan(inp.randr.Some?)
      && var refresh := if inp.randr.Some? then inp.randr.value else DefaultRepaintInterval;
        r.result.timing == Timing(refresh, refresh, 0.0, 0)
  {
    var plan := Plan(inp.randr.Some?);
    var extra := if inp.randr.Some? then 1 else 0;
    var (n, result) :=
      if !inp.connected then (0, Exited(CannotOpenDisplay))
      else if !inp.renderingLoaded then (1, Exited(RenderingBackend))
      else if !inp.atomsOk then (2, Exited(Atoms))
      else if !inp.renderInitOk then (6, Exited(InitFailure))
      else if inp.owner.Some? && inp.owner.value != NONE then (7, Exited(CmAlreadyActive(inp.owner.value)))
      else if !inp.renderFinaliseOk then (10, Exited(InitFailure))
      else if FirstFatal(ext, inp.startupEvents).Some? then
        (11 + extra, Exited(StartupFatal(FirstFatal(ext, inp.startupEvents).value)))
      else if !inp.ownershipAcquired then (12 + extra, Exited(OwnershipNotAcquired))
      else if FirstFatal(ext, inp.redirectEvents).Some? then
        (14 + extra, Exited(StartupFatal(FirstFatal(ext, inp.redirectEvents).value)))
      else
        var refresh := if inp.randr.Some? then inp.randr.value else DefaultRepaintInterval;
        (|plan|, Running(Timing(refresh, refresh, 0.0, 0)));
    Launch(plan[..n], result)
  }

  /** The compositing manager is registered only right after the owner
      check, and only when no live owner was reported */
  lemma RegisterFollowsOwnerCheck(inp: LaunchInputs, ext: Event.Extensions)
    ensures var steps := Main(inp, ext).steps;
      forall k :: 0 <= k < |steps| && steps[k] == RegisterCm ==>
        k == 7 && steps[k - 1] == CheckOwner && (inp.owner.None? || inp.owner.value == NONE)
  {
    var steps := Main(inp, ext).steps;
    var plan := Plan(inp.randr.Some?);
    forall k | 0 <= k < |steps| && steps[k] == RegisterCm
      ensures k == 7 && steps[k - 1] == CheckOwner
    {
      assert steps[k] == plan[k] && plan[7] == RegisterCm;
    }
  }

  /** A compositing manager already owning the selection stops the run
      before anything is registered */
  lemma LiveOwnerIsFatal(inp: LaunchInputs, ext: Event.Extensions)
    requires inp.connected && inp.renderingLoaded && inp.atomsOk && inp.renderInitOk
    requires inp.owner.Some? && inp.owner.value != NONE
    ensures Main(inp, ext).result == Exited(CmAlreadyActive(inp.owner.value))
    ensures RegisterCm !in Main(inp, ext).steps
  {
    RegisterFollowsOwnerCheck(inp, ext);
  }

  // ---------------------------------------------------------------------
  // Exit cleanup
  // ---------------------------------------------------------------------

  /** The releases `_unagi_exit_cleanup` performs */
  datatype Release =
    | UnloadPlugins | CleanupWindows | UnloadRendering | FreeKeysyms | WipeEwmh | FreeConfig
    | DestroyCmWindow | Disconnect | DestroyLoop

  /** `a` occurs in `s` strictly before `b` */
  ghost predicate Before(s: seq<Release>, a: Release, b: Release) {
    exists i, j :: 0 <= i < j < |s| && s[i] == a && s[j] == b
  }

  /** `_unagi_exit_cleanup`: the plugins go first (they may still use the
      window list), then the window list (which frees the backend's
      per-window data), then the backend; the CM window, when there is
      one, is destroyed before the connection is closed; the event loop
      is destroyed last. */
  function Cleanup(connected: bool, cmWindow: Xid): (r: seq<Release>)
    ensures |r| >= 7 && r[..3] == [UnloadPlugins, CleanupWindows, UnloadRendering]
    ensures r[|r| - 1] == DestroyLoop
    ensures forall i, j :: 0 <= i < j < |r| ==> r[i] != r[j]
    ensures DestroyCmWindow in r <==> connected && cmWindow != NONE
    ensures Disconnect in r <==> connected
    ensures connected && cmWindow != NONE ==> Before(r, DestroyCmWindow, Disconnect)
    ensures forall x :: x in {FreeKeysyms, WipeEwmh, FreeConfig, Disconnect} && x in r ==> Before(r, UnloadRendering, x)
  {
    var released := [UnloadPlugins, CleanupWindows, UnloadRendering, FreeKeysyms, WipeEwmh, FreeConfig];
    var x := if !connected then [] else if cmWindow != NONE then [DestroyCmWindow, Disconnect] else [Disconnect];
    var r := released + x + [DestroyLoop];
    assert r[2] == UnloadRendering && r[3] == FreeKeysyms && r[4] == WipeEwmh && r[5] == FreeConfig;
    assert connected && cmWindow != NONE ==> r[6] == DestroyCmWindow && r[7] == Disconnect;
    assert connected && cmWindow == NONE ==> r[6] == Disconnect;
    r
  }
}
