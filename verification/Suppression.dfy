/**
  Which warnings are shown: `isEffectivelyHealthyLocked` hides a warnable behind its
  dependencies. `deps` is any dependency table and `val` the set of warnables that are
  unhealthy; `rank` witnesses that the table has no cycle.
 */
module Suppression {

  ghost predicate Ranked<W(!new)>(deps: W -> seq<W>, rank: W -> nat) {
    forall w, d :: d in deps(w) ==> rank(d) < rank(w)
  }

  predicate EffectivelyHealthy<W(==, !new)>(deps: W -> seq<W>, val: set<W>, ghost rank: W -> nat, w: W)
    requires Ranked(deps, rank)
    decreases rank(w)
  {
    w !in val || exists d :: d in deps(w) && !EffectivelyHealthy(deps, val, rank, d)
  }

  /** The warnables shown. */
  ghost function Shown<W(!new)>(deps: W -> seq<W>, val: set<W>, rank: W -> nat): set<W>
    requires Ranked(deps, rank)
  {
    set w | w in val && !EffectivelyHealthy(deps, val, rank, w)
  }

  /** The rule as a condition on the set shown: w is in it iff it is set and no dependency is in it. */
  ghost predicate RootCauses<W(!new)>(deps: W -> seq<W>, val: set<W>, u: set<W>) {
    forall w :: w in u <==> w in val && forall d :: d in deps(w) ==> d !in u
  }

  /** The rule as documented: a warnable is hidden if any of its dependencies is unhealthy. */
  ghost function Documented<W(!new)>(deps: W -> seq<W>, val: set<W>): set<W> {
    set w | w in val && forall d :: d in deps(w) ==> d !in val
  }

  ghost predicate TransitivelyClosed<W(!new)>(deps: W -> seq<W>) {
    forall w, d, e :: d in deps(w) && e in deps(d) ==> e in deps(w)
  }

  lemma ShownAreRootCauses<W(!new)>(deps: W -> seq<W>, val: set<W>, rank: W -> nat)
    requires Ranked(deps, rank)
    ensures RootCauses(deps, val, Shown(deps, val, rank))
  {
    var u := Shown(deps, val, rank);
    forall w ensures w in u <==> w in val && forall d :: d in deps(w) ==> d !in u {
      assert forall d :: d in u <==> !EffectivelyHealthy(deps, val, rank, d);
    }
  }

  lemma {:induction false} RootCausesDecided<W(!new)>(deps: W -> seq<W>, val: set<W>, rank: W -> nat, u: set<W>, w: W)
    requires Ranked(deps, rank) && RootCauses(deps, val, u)
    ensures w in u <==> !EffectivelyHealthy(deps, val, rank, w)
    decreases rank(w)
  {
    forall d | d in deps(w) ensures d in u <==> !EffectivelyHealthy(deps, val, rank, d) {
      RootCausesDecided(deps, val, rank, u, d);
    }
  }

  /** For an acyclic table the set shown is the only one that satisfies the rule. */
  lemma ShownIsUnique<W(!new)>(deps: W -> seq<W>, val: set<W>, rank: W -> nat, u: set<W>)
    requires Ranked(deps, rank)
    ensures RootCauses(deps, val, u) <==> u == Shown(deps, val, rank)
  {
    ShownAreRootCauses(deps, val, rank);
    if RootCauses(deps, val, u) {
      forall w ensures w in u <==> w in Shown(deps, val, rank) {
        RootCausesDecided(deps, val, rank, u, w);
      }
    }
  }

  /** Nothing unhealthy goes unexplained: it is shown, or a direct dependency of it is. */
  lemma EveryWarningExplained<W(!new)>(deps: W -> seq<W>, val: set<W>, rank: W -> nat, w: W)
    requires Ranked(deps, rank) && w in val
    ensures w in Shown(deps, val, rank) || exists d :: d in deps(w) && d in Shown(deps, val, rank)
    ensures Shown(deps, val, rank) != {}
  {
    ShownAreRootCauses(deps, val, rank);
  }

  lemma ClosedTableAgrees<W(!new)>(deps: W -> seq<W>, val: set<W>, rank: W -> nat)
    requires Ranked(deps, rank) && TransitivelyClosed(deps)
    ensures Shown(deps, val, rank) == Documented(deps, val)
  {
    var u := Shown(deps, val, rank);
    ShownAreRootCauses(deps, val, rank);
    forall w, d | w in u && d in deps(w) ensures d !in val {
      if d in val {
        EveryWarningExplained(deps, val, rank, d);
        assert false;
      }
    }
  }

  /** A gap in the table, w over d over e without w over e, makes the two rules differ. */
  lemma GapDisagrees<W(!new)>(deps: W -> seq<W>, rank: W -> nat, w: W, d: W, e: W)
    requires Ranked(deps, rank) && d in deps(w) && e in deps(d) && e !in deps(w)
    ensures w in Shown(deps, {w, d, e}, rank) && w !in Documented(deps, {w, d, e})
  {
    var u := Shown(deps, {w, d, e}, rank);
    ShownAreRootCauses(deps, {w, d, e}, rank);
    forall x | x in deps(e) ensures x !in {w, d, e} {
      assert rank(x) < rank(e) < rank(d) < rank(w);
    }
    assert e in u;
    assert d !in u;
    assert w !in deps(w);
  }

  /** The code follows the documented rule, for every set of problems, iff the table has no gap. */
  lemma DocumentedRuleIffClosed<W(!new)>(deps: W -> seq<W>, rank: W -> nat)
    requires Ranked(deps, rank)
    ensures (forall val :: Shown(deps, val, rank) == Documented(deps, val)) <==> TransitivelyClosed(deps)
  {
    if TransitivelyClosed(deps) {
      forall val ensures Shown(deps, val, rank) == Documented(deps, val) {
        ClosedTableAgrees(deps, val, rank);
      }
    } else {
      var w, d, e :| d in deps(w) && e in deps(d) && e !in deps(w);
      GapDisagrees(deps, rank, w, d, e);
      assert Shown(deps, {w, d, e}, rank) != Documented(deps, {w, d, e});
    }
  }

  // ----- the declared table -----

  datatype Builtin =
    | UpdateAvailable | SecurityUpdateAvailable | Unstable | NetworkStatus | IPNState | LocalLog
    | LoginState | NotInMapPoll | NoDERPHome | NoDERPConnection | DERPTimeout | DERPRegionError
    | NoUDP4Bind | MapResponseTimeout | TLSConnectionFailed | MagicsockReceiveFunc | Test
    | ApplyDiskConfig | WarmingUp | IPForwarding

  function DependsOn(w: Builtin): seq<Builtin> {
    match w
    case LoginState => [IPNState]
    case NotInMapPoll => [NetworkStatus, IPNState]
    case NoDERPHome => [NetworkStatus]
    case NoDERPConnection => [NetworkStatus, NoDERPHome]
    case DERPTimeout => [NetworkStatus, NoDERPConnection, NoDERPHome]
    case DERPRegionError => [NetworkStatus]
    case NoUDP4Bind => [NetworkStatus, IPNState]
    case MapResponseTimeout => [NetworkStatus, IPNState]
    case TLSConnectionFailed => [NetworkStatus]
    case _ => []
  }

  function Level(w: Builtin): nat {
    match w
    case DERPTimeout => 3
    case NoDERPConnection => 2
    case _ => if DependsOn(w) == [] then 0 else 1
  }

  /** The built-in table has no cycle and no gap, so the documented rule is what users get. */
  lemma BuiltinsFollowDocumentedRule(val: set<Builtin>)
    ensures Ranked(DependsOn, Level)
    ensures Shown(DependsOn, val, Level) == Documented(DependsOn, val)
  {
    assert TransitivelyClosed(DependsOn);
    ClosedTableAgrees(DependsOn, val, Level);
  }
}
