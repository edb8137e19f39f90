/**
  `health.Tracker`: which warnables are unhealthy, since when, and the change events
  published about them. A warnable with a `TimeToVisible` is announced by a timer; an update
  arms another timer without stopping the one before, so timers fire at any time and in any
  order here.
 */
module HealthTracker {
  import opened Suppression

  type Args = map<string, string>

  datatype WarningState = WarningState(brokenSince: int, args: Args)
  datatype Change<W> = Unhealthy(w: W, state: WarningState) | Healthy(w: W)

  predicate IsVisible<W>(ttv: W -> nat, w: W, ws: WarningState, now: int) {
    ttv(w) == 0 || now - ws.brokenSince >= ttv(w)
  }

  /** The time at which the warnable is to be seen has come. */
  predicate Due<W>(ttv: W -> nat, w: W, brokenSince: int, now: int) {
    ttv(w) == 0 || brokenSince + ttv(w) <= now
  }

  lemma VisibleIff<W>(ttv: W -> nat, w: W, ws: WarningState, now: int)
    ensures IsVisible(ttv, w, ws, now) <==> Due(ttv, w, ws.brokenSince, now)
  {
  }

  /** `pending` maps a warnable to its latest timer; `armed` are all timers yet to fire. */
  datatype State<!W> = State(
    val: map<W, WarningState>,
    pending: map<W, nat>,
    armed: map<nat, (W, WarningState)>,
    nextTimer: nat,
    published: seq<Change<W>>)

  datatype Op<W> = SetUnhealthy(w: W, args: Args, now: int) | SetHealthy(w: W, now: int, stopped: bool) | Fire(timer: nat)

  function SetUnhealthyStep<W(==)>(ttv: W -> nat, s: State<W>, w: W, args: Args, now: int): State<W> {
    var ws := WarningState(if w in s.val then s.val[w].brokenSince else now, args);
    var t := s.(val := s.val[w := ws]);
    if w in s.val && s.val[w] == ws then t
    else if IsVisible(ttv, w, ws, now) then t.(published := s.published + [Unhealthy(w, ws)])
    else t.(pending := s.pending[w := s.nextTimer], armed := s.armed[s.nextTimer := (w, ws)],
            nextTimer := s.nextTimer + 1)
  }

  /** A pending timer is stopped, unless its callback has started and is waiting for the lock. */
  function SetHealthyStep<W(==)>(ttv: W -> nat, s: State<W>, w: W, now: int, stopped: bool): State<W> {
    if w !in s.val then s
    else
      var t := s.(val := s.val - {w}, pending := s.pending - {w},
                  armed := if w in s.pending && stopped then s.armed - {s.pending[w]} else s.armed);
      if IsVisible(ttv, w, s.val[w], now) then t.(published := s.published + [Healthy(w)]) else t
  }

  function FireStep<W(==)>(s: State<W>, timer: nat): State<W> {
    if timer !in s.armed then s
    else
      var (w, ws) := s.armed[timer];
      var t := s.(armed := s.armed - {timer});
      if w in s.val then t.(published := s.published + [Unhealthy(w, ws)], pending := s.pending - {w}) else t
  }

  function Step<W(==)>(ttv: W -> nat, s: State<W>, op: Op<W>): State<W> {
    match op
    case SetUnhealthy(w, args, now) => SetUnhealthyStep(ttv, s, w, args, now)
    case SetHealthy(w, now, stopped) => SetHealthyStep(ttv, s, w, now, stopped)
    case Fire(timer) => FireStep(s, timer)
  }

  function Run<W(==)>(ttv: W -> nat, ops: seq<Op<W>>): State<W> {
    if ops == [] then State(map[], map[], map[], 0, [])
    else Step(ttv, Run(ttv, ops[..|ops| - 1]), ops[|ops| - 1])
  }

  /**
    A problem is announced when it is new or its arguments change: at once if it is due, and
    otherwise by one more timer. The time since when it is there stays that of its start.
   */
  lemma UnhealthyAnnounced<W>(ttv: W -> nat, s: State<W>, w: W, args: Args, now: int)
    ensures var t := Step(ttv, s, SetUnhealthy(w, args, now));
      var ws := WarningState(if w in s.val then s.val[w].brokenSince else now, args);
      var changed := w in s.val ==> s.val[w].args != args;
      && t.val == s.val[w := ws]
      && t.published == s.published + (if changed && Due(ttv, w, ws.brokenSince, now) then [Unhealthy(w, ws)] else [])
      && t.armed == if changed && !Due(ttv, w, ws.brokenSince, now) then s.armed[s.nextTimer := (w, ws)] else s.armed
  {
  }

  /** That it is over is announced exactly if it was due by then, announced or not. */
  lemma HealthyAnnounced<W>(ttv: W -> nat, s: State<W>, w: W, now: int, stopped: bool)
    ensures var t := Step(ttv, s, SetHealthy(w, now, stopped));
      && t.val == s.val - {w}
      && t.published == s.published + (if w in s.val && Due(ttv, w, s.val[w].brokenSince, now) then [Healthy(w)] else [])
  {
  }

  /** A timer announces what it was armed for, if the warnable is unhealthy then, and never goes off again. */
  lemma TimerAnnounces<W>(ttv: W -> nat, s: State<W>, timer: nat)
    ensures var t := Step(ttv, s, Fire(timer));
      && t.val == s.val && t.armed == s.armed - {timer}
      && t.published == s.published + (if timer in s.armed && s.armed[timer].0 in s.val
                                       then [Unhealthy(s.armed[timer].0, s.armed[timer].1)] else [])
  {
  }

  /** What a subscriber knows who follows the published changes and nothing else. */
  function Replay<W(==)>(log: seq<Change<W>>): map<W, WarningState> {
    if log == [] then map[]
    else
      var m := Replay(log[..|log| - 1]);
      match log[|log| - 1]
      case Unhealthy(w, ws) => m[w := ws]
      case Healthy(w) => m - {w}
  }

  lemma ReplayLast<W>(log: seq<Change<W>>, c: Change<W>)
    ensures Replay(log + [c]) ==
            if c.Unhealthy? then Replay(log)[c.w := c.state] else Replay(log) - {c.w}
  {
    assert (log + [c])[..|log + [c]| - 1] == log;
  }

  /** Subscribers and the tracker agree about w. */
  predicate Agreed<W(==)>(s: State<W>, w: W) {
    var known := Replay(s.published);
    (w in s.val <==> w in known) && (w in s.val ==> s.val[w] == known[w])
  }

  predicate Quiet<W(==)>(s: State<W>, w: W) {
    forall i :: i in s.armed ==> s.armed[i].0 != w
  }

  /** No operation moves the tracker's and the subscribers' view of w apart. */
  lemma ChangeAgreed<W>(s: State<W>, c: Change<W>, val: map<W, WarningState>, w: W)
    requires Agreed(s, w)
    requires c.w == w ==> if c.Unhealthy? then w in val && val[w] == c.state else w !in val
    requires c.w != w ==> (w in val <==> w in s.val) && (w in val ==> val[w] == s.val[w])
    ensures Agreed(State(val, map[], map[], 0, s.published + [c]), w)
  {
    ReplayLast(s.published, c);
  }

  lemma SetUnhealthyAgreed<W>(ttv: W -> nat, s: State<W>, v: W, args: Args, now: int, w: W)
    requires ttv(w) == 0 && Agreed(s, w) && Quiet(s, w)
    ensures var t := SetUnhealthyStep(ttv, s, v, args, now); Agreed(t, w) && Quiet(t, w)
  {
    var t := SetUnhealthyStep(ttv, s, v, args, now);
    if t.published != s.published {
      ChangeAgreed(s, Unhealthy(v, t.val[v]), t.val, w);
    }
  }

  lemma SetHealthyAgreed<W>(ttv: W -> nat, s: State<W>, v: W, now: int, stopped: bool, w: W)
    requires ttv(w) == 0 && Agreed(s, w) && Quiet(s, w)
    ensures var t := SetHealthyStep(ttv, s, v, now, stopped); Agreed(t, w) && Quiet(t, w)
  {
    var t := SetHealthyStep(ttv, s, v, now, stopped);
    if t.published != s.published {
      ChangeAgreed(s, Healthy(v), t.val, w);
    }
  }

  lemma FireAgreed<W>(s: State<W>, timer: nat, w: W)
    requires Agreed(s, w) && Quiet(s, w)
    ensures var t := FireStep(s, timer); Agreed(t, w) && Quiet(t, w)
  {
    var t := FireStep(s, timer);
    if t.published != s.published {
      ChangeAgreed(s, Unhealthy(s.armed[timer].0, s.armed[timer].1), t.val, w);
    }
  }

  /**
    For a warnable shown at once, replaying the published changes gives the tracker's own
    record of it after every run, whatever happens to other warnables and their timers.
   */
  lemma {:induction false} ReplayReconstructs<W(!new)>(ttv: W -> nat, ops: seq<Op<W>>, w: W)
    requires ttv(w) == 0
    ensures Agreed(Run(ttv, ops), w) && Quiet(Run(ttv, ops), w)
  {
    if ops != [] {
      var s := Run(ttv, ops[..|ops| - 1]);
      ReplayReconstructs(ttv, ops[..|ops| - 1], w);
      match ops[|ops| - 1]
      case SetUnhealthy(v, args, now) => SetUnhealthyAgreed(ttv, s, v, args, now, w);
      case SetHealthy(v, now, stopped) => SetHealthyAgreed(ttv, s, v, now, stopped, w);
      case Fire(timer) => FireAgreed(s, timer, w);
    }
  }

  lemma RunMore<W>(ttv: W -> nat, ops: seq<Op<W>>, op: Op<W>)
    ensures Run(ttv, ops + [op]) == Step(ttv, Run(ttv, ops), op)
  {
    assert (ops + [op])[..|ops + [op]| - 1] == ops;
  }

  lemma RunOne<W>(ttv: W -> nat, op: Op<W>)
    ensures Run(ttv, [op]) == Step(ttv, Run(ttv, []), op)
  {
    assert [op][..0] == [];
  }

  /** A problem and an update of it, both delayed. */
  function Updates<W>(w: W, a: Args, b: Args): seq<Op<W>> {
    [SetUnhealthy(w, a, 0)] + [SetUnhealthy(w, b, 0)]
  }

  lemma UpdatesArmed<W>(ttv: W -> nat, w: W, a: Args, b: Args)
    requires ttv(w) > 0 && a != b
    ensures var s := Run(ttv, Updates(w, a, b));
      && s.val == map[w := WarningState(0, b)] && s.published == []
      && s.armed == map[0 := (w, WarningState(0, a)), 1 := (w, WarningState(0, b))] && s.pending == map[w := 1]
  {
    RunOne(ttv, SetUnhealthy(w, a, 0));
    RunMore(ttv, [SetUnhealthy(w, a, 0)], SetUnhealthy(w, b, 0));
  }

  /** After these the later timer fires first. */
  function StaleRun<W>(w: W, a: Args, b: Args): seq<Op<W>> {
    Updates(w, a, b) + [Fire(1)] + [Fire(0)]
  }

  /** With a delay that run leaves subscribers with the outdated arguments, and no timer to correct them. */
  lemma DelayedReplayGoesStale<W>(ttv: W -> nat, w: W, a: Args, b: Args)
    requires ttv(w) > 0 && a != b
    ensures var s := Run(ttv, StaleRun(w, a, b));
      && s.armed == map[]
      && w in s.val && s.val[w].args == b
      && w in Replay(s.published) && Replay(s.published)[w].args == a
  {
    UpdatesArmed(ttv, w, a, b);
    RunMore(ttv, Updates(w, a, b), Fire(1));
    RunMore(ttv, Updates(w, a, b) + [Fire(1)], Fire(0));
    ReplayLast(Run(ttv, Updates(w, a, b) + [Fire(1)]).published, Unhealthy(w, WarningState(0, a)));
  }

  /** Once no timer is left to fire, replay is right after every run exactly for undelayed warnables. */
  lemma ReplayRightIffUndelayed<W(!new)>(ttv: W -> nat, w: W)
    ensures (forall ops: seq<Op<W>> :: Quiet(Run(ttv, ops), w) ==> Agreed(Run(ttv, ops), w)) <==> ttv(w) == 0
  {
    if ttv(w) == 0 {
      forall ops: seq<Op<W>> ensures Agreed(Run(ttv, ops), w) {
        ReplayReconstructs(ttv, ops, w);
      }
    } else {
      var a: Args, b: Args := map["LegacyError" := "a"], map["LegacyError" := "b"];
      assert a["LegacyError"] != b["LegacyError"];
      DelayedReplayGoesStale(ttv, w, a, b);
      assert Quiet(Run(ttv, StaleRun(w, a, b)), w) && !Agreed(Run(ttv, StaleRun(w, a, b)), w);
    }
  }

  /** A timer is about to publish, as if it were the present one, a problem with w that was resolved. */
  ghost predicate PublishesResolved<W>(s: State<W>, timer: nat, w: W) {
    && timer in s.armed && s.armed[timer].0 == w
    && w in s.val && s.armed[timer].1.brokenSince != s.val[w].brokenSince
  }

  /** A problem whose timer goes off just as it is resolved, and a new one before the callback gets the lock. */
  function LateRun<W>(w: W, a: Args, b: Args): seq<Op<W>> {
    [SetUnhealthy(w, a, 0)] + [SetHealthy(w, 0, false)] + [SetUnhealthy(w, b, 1)]
  }

  lemma LateCallbackPublishes<W>(ttv: W -> nat, w: W, a: Args, b: Args)
    requires ttv(w) > 0
    ensures var s := Run(ttv, LateRun(w, a, b));
      && PublishesResolved(s, 0, w) && s.val[w] == WarningState(1, b)
      && Run(ttv, LateRun(w, a, b) + [Fire(0)]).published == [Unhealthy(w, WarningState(0, a))]
  {
    RunOne(ttv, SetUnhealthy(w, a, 0));
    RunMore(ttv, [SetUnhealthy(w, a, 0)], SetHealthy(w, 0, false));
    RunMore(ttv, [SetUnhealthy(w, a, 0)] + [SetHealthy(w, 0, false)], SetUnhealthy(w, b, 1));
    RunMore(ttv, LateRun(w, a, b), Fire(0));
  }

  /** Nor does it take a callback that is late: of two timers only the later is stopped. */
  function OverwrittenRun<W>(w: W, a: Args, b: Args): seq<Op<W>> {
    Updates(w, a, b) + [SetHealthy(w, 0, true)] + [SetUnhealthy(w, b, 1)]
  }

  lemma OverwrittenTimerPublishes<W>(ttv: W -> nat, w: W, a: Args, b: Args)
    requires ttv(w) > 0 && a != b
    ensures var s := Run(ttv, OverwrittenRun(w, a, b));
      PublishesResolved(s, 0, w) && s.armed[0] == (w, WarningState(0, a)) && s.val[w] == WarningState(1, b)
  {
    UpdatesArmed(ttv, w, a, b);
    RunMore(ttv, Updates(w, a, b), SetHealthy(w, 0, true));
    RunMore(ttv, Updates(w, a, b) + [SetHealthy(w, 0, true)], SetUnhealthy(w, b, 1));
  }

  /** No run gets there exactly for undelayed warnables. */
  lemma ResolvedStaysResolvedIff<W(!new)>(ttv: W -> nat, w: W)
    ensures (forall ops: seq<Op<W>>, timer: nat :: !PublishesResolved(Run(ttv, ops), timer, w)) <==> ttv(w) == 0
  {
    if ttv(w) == 0 {
      forall ops: seq<Op<W>>, timer: nat
        ensures !PublishesResolved(Run(ttv, ops), timer, w)
      {
        ReplayReconstructs(ttv, ops, w);
      }
    } else {
      LateCallbackPublishes(ttv, w, map[], map[]);
    }
  }

  // ----- since when -----

  /** Operation i made w unhealthy, w was healthy before it and has not been healthy since. */
  ghost predicate BrokeAt<W>(ops: seq<Op<W>>, w: W, i: nat) {
    && i < |ops| && ops[i].SetUnhealthy? && ops[i].w == w
    && (forall j :: i < j < |ops| ==> !(ops[j].SetHealthy? && ops[j].w == w))
    && (forall j :: 0 <= j < i && ops[j].SetUnhealthy? && ops[j].w == w ==> HealedBetween(ops, w, j, i))
  }

  ghost predicate HealedBetween<W>(ops: seq<Op<W>>, w: W, j: nat, i: nat) {
    exists k :: j < k < i && k < |ops| && ops[k].SetHealthy? && ops[k].w == w
  }

  /** Every earlier problem with w was resolved. */
  ghost predicate AllHealed<W>(ops: seq<Op<W>>, w: W) {
    forall j :: 0 <= j < |ops| && ops[j].SetUnhealthy? && ops[j].w == w ==> HealedBetween(ops, w, j, |ops|)
  }

  lemma HealedStays<W>(ops: seq<Op<W>>, op: Op<W>, w: W, j: nat, i: nat)
    requires i <= |ops| && HealedBetween(ops, w, j, i)
    ensures HealedBetween(ops + [op], w, j, i)
  {
    var k :| j < k < i && k < |ops| && ops[k].SetHealthy? && ops[k].w == w;
    assert (ops + [op])[k] == ops[k];
  }

  /** `BrokenSince` is the time of the latest change from healthy to unhealthy, in every run. */
  lemma {:induction false} BrokenSinceLatest<W(!new)>(ttv: W -> nat, ops: seq<Op<W>>, w: W) returns (i: nat)
    ensures w in Run(ttv, ops).val ==> BrokeAt(ops, w, i) && Run(ttv, ops).val[w].brokenSince == ops[i].now
    ensures w !in Run(ttv, ops).val ==> AllHealed(ops, w)
  {
    i := 0;
    if ops != [] {
      var init, op := ops[..|ops| - 1], ops[|ops| - 1];
      assert ops == init + [op];
      var s := Run(ttv, init);
      i := BrokenSinceLatest(ttv, init, w);
      StepVal(ttv, s, op, w);
      if op.SetHealthy? && op.w == w {
        HealedNow(init, op, w);
      } else if w in s.val {
        BrokeBefore(init, op, w, i);
      } else {
        i := if op.SetUnhealthy? && op.w == w then |init| else i;
        BreaksNow(init, op, w);
      }
    }
  }

  lemma StepVal<W>(ttv: W -> nat, s: State<W>, op: Op<W>, w: W)
    ensures var t := Step(ttv, s, op);
      if op.SetHealthy? && op.w == w then w !in t.val
      else if w in s.val then w in t.val && t.val[w].brokenSince == s.val[w].brokenSince
      else if op.SetUnhealthy? && op.w == w then w in t.val && t.val[w].brokenSince == op.now
      else w !in t.val
  {
  }

  lemma HealedNow<W>(init: seq<Op<W>>, op: Op<W>, w: W)
    requires op.SetHealthy? && op.w == w
    ensures AllHealed(init + [op], w)
  {
    var ops := init + [op];
    forall j | 0 <= j < |ops| && ops[j].SetUnhealthy? && ops[j].w == w
      ensures HealedBetween(ops, w, j, |ops|)
    {
      assert ops[|init|] == op && j < |init|;
    }
  }

  lemma BrokeBefore<W>(init: seq<Op<W>>, op: Op<W>, w: W, i: nat)
    requires BrokeAt(init, w, i) && !(op.SetHealthy? && op.w == w)
    ensures BrokeAt(init + [op], w, i)
  {
    forall j | 0 <= j < i && (init + [op])[j].SetUnhealthy? && (init + [op])[j].w == w
      ensures HealedBetween(init + [op], w, j, i)
    {
      HealedStays(init, op, w, j, i);
    }
  }

  lemma BreaksNow<W>(init: seq<Op<W>>, op: Op<W>, w: W)
    requires AllHealed(init, w) && !(op.SetHealthy? && op.w == w)
    ensures if op.SetUnhealthy? && op.w == w then BrokeAt(init + [op], w, |init|) else AllHealed(init + [op], w)
  {
    forall j | 0 <= j < |init| && init[j].SetUnhealthy? && init[j].w == w
      ensures HealedBetween(init + [op], w, j, |init|)
    {
      HealedStays(init, op, w, j, |init|);
    }
    assert forall j :: 0 <= j < |init| ==> (init + [op])[j] == init[j];
  }

  // ----- the snapshot -----

  /** What clients are shown: the visible ones among the warnables shown. */
  ghost function Snapshot<W(!new)>(ttv: W -> nat, deps: W -> seq<W>, rank: W -> nat, val: map<W, WarningState>, now: int): map<W, WarningState>
    requires Ranked(deps, rank)
  {
    map w | w in Shown(deps, val.Keys, rank) && Due(ttv, w, val[w].brokenSince, now) :: val[w]
  }

  /** d is a root cause that is not to be seen yet. */
  ghost predicate Veiled<W(!new)>(ttv: W -> nat, deps: W -> seq<W>, rank: W -> nat, val: map<W, WarningState>, now: int, d: W)
    requires Ranked(deps, rank)
  {
    d in Shown(deps, val.Keys, rank) && !Due(ttv, d, val[d].brokenSince, now)
  }

  ghost predicate Hidden<W(!new)>(ttv: W -> nat, deps: W -> seq<W>, rank: W -> nat, val: map<W, WarningState>, now: int, w: W)
    requires Ranked(deps, rank)
  {
    exists d :: (d == w || d in deps(w)) && Veiled(ttv, deps, rank, val, now, d)
  }

  /**
    Something may be set, and even visible, and the snapshot be empty all the same. That is so
    exactly if every warnable that is set is, or directly depends on, a root cause that is not to
    be seen yet.
   */
  lemma SnapshotEmptyIff<W(!new)>(ttv: W -> nat, deps: W -> seq<W>, rank: W -> nat, val: map<W, WarningState>, now: int)
    requires Ranked(deps, rank)
    ensures Snapshot(ttv, deps, rank, val, now) == map[]
       <==> forall w :: w in val ==> Hidden(ttv, deps, rank, val, now, w)
  {
    var u := Shown(deps, val.Keys, rank);
    ShownAreRootCauses(deps, val.Keys, rank);
    var shown := Snapshot(ttv, deps, rank, val, now);
    if shown == map[] {
      forall w | w in val
        ensures Hidden(ttv, deps, rank, val, now, w)
      {
        EveryWarningExplained(deps, val.Keys, rank, w);
        var d :| (d == w || d in deps(w)) && d in u;
        assert d !in shown;
        assert Veiled(ttv, deps, rank, val, now, d);
      }
    } else {
      var w :| w in shown;
      assert !Hidden(ttv, deps, rank, val, now, w);
    }
  }

  /** A visible warning behind a dependency that broke too recently: nothing is shown. */
  lemma VeiledDependencyHidesAll<W(!new)>(ttv: W -> nat, deps: W -> seq<W>, rank: W -> nat, w: W, d: W, now: int)
    requires Ranked(deps, rank) && d in deps(w) && ttv(d) > 0
    ensures var val := map[w := WarningState(now - ttv(w), map[]), d := WarningState(now, map[])];
      IsVisible(ttv, w, val[w], now) && Snapshot(ttv, deps, rank, val, now) == map[]
  {
    var val := map[w := WarningState(now - ttv(w), map[]), d := WarningState(now, map[])];
    ShownAreRootCauses(deps, val.Keys, rank);
    var u := Shown(deps, val.Keys, rank);
    assert forall e :: e in deps(d) ==> rank(e) < rank(d) < rank(w);
    assert d in u;
    assert w !in u;
  }

  // ----- the tracker -----

  class Tracker<W(==, !new)> {
    const ttv: W -> nat
    const deps: W -> seq<W>
    ghost const rank: W -> nat
    var state: State<W>

    constructor (ttv: W -> nat, deps: W -> seq<W>, ghost rank: W -> nat)
      requires Ranked(deps, rank)
      ensures this.ttv == ttv && this.deps == deps && this.rank == rank && state == Run(ttv, [])
    {
      this.ttv, this.deps, this.rank := ttv, deps, rank;
      state := State(map[], map[], map[], 0, []);
    }

    method SetUnhealthy(w: W, args: Args, now: int)
      modifies this
      ensures state == Step(ttv, old(state), Op.SetUnhealthy(w, args, now))
    {
      var brokenSince := now;
      if w in state.val {
        brokenSince := state.val[w].brokenSince;
      }
      var ws := WarningState(brokenSince, args);
      var unchangedState := w in state.val && state.val[w] == ws;
      state := state.(val := state.val[w := ws]);
      if !unchangedState {
        if IsVisible(ttv, w, ws, now) {
          state := state.(published := state.published + [Unhealthy(w, ws)]);
        } else {
          var id := state.nextTimer;
          state := state.(armed := state.armed[id := (w, ws)], nextTimer := id + 1, pending := state.pending[w := id]);
        }
      }
    }

    /** Whether stopping a timer is in time is not up to the tracker. */
    method SetHealthy(w: W, now: int, stopped: bool)
      modifies this
      ensures state == Step(ttv, old(state), Op.SetHealthy(w, now, stopped))
    {
      if w !in state.val {
        return;
      }
      var ws := state.val[w];
      state := state.(val := state.val - {w});
      if w in state.pending {
        if stopped {
          state := state.(armed := state.armed - {state.pending[w]});
        }
        state := state.(pending := state.pending - {w});
      }
      if IsVisible(ttv, w, ws, now) {
        state := state.(published := state.published + [Healthy(w)]);
      }
    }

    /** A timer goes off; one that was stopped or has gone off already does nothing. */
    method Fire(timer: nat)
      modifies this
      ensures state == Step(ttv, old(state), Op.Fire(timer))
    {
      if timer !in state.armed {
        return;
      }
      var (w, ws) := state.armed[timer];
      state := state.(armed := state.armed - {timer});
      if w in state.val {
        state := state.(published := state.published + [Unhealthy(w, ws)], pending := state.pending - {w});
      }
    }

    /** The snapshot for clients: the visible ones among the warnables shown. */
    method CurrentState(now: int) returns (wm: map<W, WarningState>)
      requires Ranked(deps, rank)
      ensures wm == Snapshot(ttv, deps, rank, state.val, now)
    {
      wm := map[];
      var todo := state.val.Keys;
      while todo != {}
        invariant todo <= state.val.Keys
        invariant wm == map w | w in Shown(deps, state.val.Keys, rank) - todo && IsVisible(ttv, w, state.val[w], now) :: state.val[w]
        decreases todo
      {
        var w :| w in todo;
        todo := todo - {w};
        if IsVisible(ttv, w, state.val[w], now) && !EffectivelyHealthy(deps, state.val.Keys, rank, w) {
          wm := wm[w := state.val[w]];
        }
      }
    }
  }
}
