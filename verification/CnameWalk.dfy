/**
  The walk along a CNAME chain (section 3.6.2 of RFC 1034): which names it looks at, where it
  stops, what it finds and what it misses. `wild` tells whether a name matches a wildcard.
 */
module CnameWalk {

  /** The names looked at when walking the chain from d, up to the first one seen before. */
  function Path(chain: map<string, string>, d: string, seen: set<string>): (p: seq<string>)
    ensures p != [] && p[0] == d
    decreases chain.Values - seen
  {
    if d in chain && chain[d] !in seen then [d] + Path(chain, chain[d], seen + {chain[d]}) else [d]
  }

  /** Each name leads to the next, none of those led to was seen before, and the last leads nowhere new. */
  ghost predicate IsPath(chain: map<string, string>, d: string, seen: set<string>, p: seq<string>) {
    && p != [] && p[0] == d
    && (forall i :: 0 <= i < |p| - 1 ==> p[i] in chain && chain[p[i]] == p[i + 1])
    && (forall i :: 1 <= i < |p| ==> p[i] !in seen)
    && (forall i, j :: 1 <= i < j < |p| ==> p[i] != p[j])
    && (p[|p| - 1] in chain ==> chain[p[|p| - 1]] in seen || chain[p[|p| - 1]] in p[1..])
  }

  lemma PathTail(chain: map<string, string>, d: string, seen: set<string>, p: seq<string>)
    requires |p| > 1
    ensures IsPath(chain, d, seen, p) <==>
      p[0] == d && d in chain && chain[d] !in seen && IsPath(chain, chain[d], seen + {chain[d]}, p[1..])
  {
    var q := p[1..];
    if IsPath(chain, d, seen, p) {
      forall i, j | 1 <= i < j < |q| ensures q[i] != q[j] {
        assert q[i] == p[i + 1] && q[j] == p[j + 1];
      }
      forall i | 1 <= i < |q| ensures q[i] !in seen + {chain[d]} {
        assert q[i] == p[i + 1] && chain[d] == p[1];
      }
      forall i | 0 <= i < |q| - 1 ensures q[i] in chain && chain[q[i]] == q[i + 1] {
        assert q[i] == p[i + 1];
      }
      assert forall x :: x in q ==> x == q[0] || x in q[1..];
    }
    if p[0] == d && d in chain && chain[d] !in seen && IsPath(chain, chain[d], seen + {chain[d]}, q) {
      forall i, j | 1 <= i < j < |p| ensures p[i] != p[j] {
        assert p[i] == q[i - 1] && p[j] == q[j - 1];
      }
      forall i | 1 <= i < |p| ensures p[i] !in seen {
        assert p[i] == q[i - 1];
      }
      forall i | 0 <= i < |p| - 1 ensures p[i] in chain && chain[p[i]] == p[i + 1] {
        assert i > 0 ==> p[i] == q[i - 1];
      }
      assert q[0] in q && forall x :: x in q[1..] ==> x in q;
    }
  }

  /** The path is the one such sequence. */
  lemma {:induction false} PathIff(chain: map<string, string>, d: string, seen: set<string>, p: seq<string>)
    ensures p == Path(chain, d, seen) <==> IsPath(chain, d, seen, p)
    decreases chain.Values - seen
  {
    var on := d in chain && chain[d] !in seen;
    if |p| > 1 {
      PathTail(chain, d, seen, p);
      if on {
        PathIff(chain, chain[d], seen + {chain[d]}, p[1..]);
        assert p == [p[0]] + p[1..];
      }
    } else if |p| == 1 {
      assert p[1..] == [] && p == [p[0]];
    }
  }

  function LastName(p: seq<string>): string
    requires p != []
  {
    p[|p| - 1]
  }

  /** What the walk finds: an exact domain anywhere on the path, or a wildcard at its end. */
  predicate Routed(domains: set<string>, wild: string -> bool, p: seq<string>)
    requires p != []
  {
    (exists n :: n in p && n in domains) || wild(LastName(p))
  }

  /** Where the walk stops: at the first exact domain on the path, else at its end. */
  ghost predicate StopsAt(domains: set<string>, p: seq<string>, i: nat) {
    && i < |p|
    && (forall k :: 0 <= k < i ==> p[k] !in domains)
    && (p[i] in domains || i == |p| - 1)
  }

  /** What the walk is documented to find: any routed domain on the path. */
  predicate Promised(domains: set<string>, wild: string -> bool, p: seq<string>) {
    exists n :: n in p && (n in domains || wild(n))
  }

  /** The walk passed a name that matches a wildcard and stopped at one that is not routed. */
  ghost predicate Missed(domains: set<string>, wild: string -> bool, p: seq<string>, i: nat)
    requires i < |p|
  {
    && p[i] !in domains && !wild(p[i])
    && exists k :: 0 <= k < i && wild(p[k])
  }

  /** That is exactly when it does not find what it is documented to find. */
  lemma MissedIff(domains: set<string>, wild: string -> bool, p: seq<string>, i: nat)
    requires StopsAt(domains, p, i)
    ensures Routed(domains, wild, p) ==> Promised(domains, wild, p)
    ensures Promised(domains, wild, p) && !Routed(domains, wild, p) <==> Missed(domains, wild, p, i)
  {
    RoutedWhereStopped(domains, wild, p, i);
    if Promised(domains, wild, p) && !Routed(domains, wild, p) {
      var n :| n in p && (n in domains || wild(n));
      var k :| 0 <= k < |p| && p[k] == n;
      assert wild(p[k]);
    }
    if Missed(domains, wild, p, i) {
      var k :| 0 <= k < i && wild(p[k]);
      assert p[k] in p;
    }
    assert p[i] in p;
  }

  /** It happens once: a walk leaves the wildcard names it passed among the domains, and the next one finds them. */
  lemma SecondWalkFinds<A>(prev: map<string, seq<A>>, now: map<string, seq<A>>, wild: string -> bool, p: seq<string>, i: nat)
    requires StopsAt(prev.Keys, p, i) && WithHits(prev, now, wild, p[..i + 1])
    ensures Routed(now.Keys, wild, p) <==> Promised(prev.Keys, wild, p)
  {
    if Promised(prev.Keys, wild, p) {
      var n :| n in p && (n in prev.Keys || wild(n));
      if n !in prev.Keys {
        var k :| 0 <= k < |p| && p[k] == n;
        if p[i] in prev.Keys {
          assert p[i] in p && p[i] in now.Keys;
        } else {
          assert p[..i + 1][k] == n;
          assert n in now.Keys;
        }
      }
    }
    if Routed(now.Keys, wild, p) {
      assert LastName(p) in p;
    }
  }

  /** Any name x that matches a wildcard but is an alias leading to a y that does not is missed. */
  lemma WildcardMissed(wild: string -> bool, x: string, y: string)
    requires wild(x) && !wild(y)
    ensures var path := Path(map[x := y], x, {});
      path == [x, y] && Promised({}, wild, path) && !Routed({}, wild, path)
  {
    var chain := map[x := y];
    var path := Path(chain, x, {});
    assert path == [x] + Path(chain, y, {} + {y});
    assert Path(chain, y, {} + {y}) == [y];
    assert path[0] in path;
    assert LastName(path) == y;
  }

  /** The walk stands on the i-th name of its path. */
  ghost predicate Walking(chain: map<string, string>, path: seq<string>, i: nat, d: string, seen: set<string>) {
    && i < |path| && path[i] == d && path[i..] == Path(chain, d, seen)
    && (forall k :: 1 <= k <= i ==> path[k] in seen)
    && (forall k :: 0 <= k < i ==> path[k] in chain && chain[path[k]] == path[k + 1])
    && (forall k :: 1 <= k < i ==> path[k] != d)
  }

  lemma WalkStep(chain: map<string, string>, path: seq<string>, i: nat, d: string, seen: set<string>)
    requires Walking(chain, path, i, d, seen) && d in chain && chain[d] !in seen
    ensures Walking(chain, path, i + 1, chain[d], seen + {chain[d]})
  {
    assert path[i..] == [d] + Path(chain, chain[d], seen + {chain[d]});
    assert path[i + 1..] == path[i..][1..] == Path(chain, chain[d], seen + {chain[d]});
    assert path[i + 1] == path[i + 1..][0];
  }

  lemma WalkEnd(chain: map<string, string>, path: seq<string>, i: nat, d: string, seen: set<string>)
    requires Walking(chain, path, i, d, seen) && (d !in chain || chain[d] in seen)
    ensures i == |path| - 1
  {
    assert |path[i..]| == |[d]|;
  }

  /** Only the first name can come up again, and the walk ends there. */
  lemma WalkRevisit(chain: map<string, string>, path: seq<string>, i: nat, d: string, seen: set<string>)
    requires Walking(chain, path, i, d, seen) && d in path[..i]
    ensures i == |path| - 1
  {
    assert d == path[0] && chain[d] == path[1] && path[1] in seen;
    WalkEnd(chain, path, i, d, seen);
  }

  /** Exactly the wildcard hits among these names were added to the domains, without addresses. */
  ghost predicate WithHits<A>(prev: map<string, seq<A>>, now: map<string, seq<A>>, wild: string -> bool, names: seq<string>) {
    && (forall n :: n in prev ==> n in now && now[n] == prev[n])
    && (forall n :: n in now && n !in prev ==> now[n] == [] && n in names && wild(n))
    && (forall k :: 0 <= k < |names| && wild(names[k]) ==> names[k] in now)
  }

  /** Exactly these of the names have become domains. */
  ghost predicate HitKeys(prev: set<string>, now: set<string>, wild: string -> bool, names: seq<string>) {
    forall n :: n in now <==> n in prev || (n in names && wild(n))
  }

  /** What is to be added to the domains at the next name. */
  lemma HitsNext<A>(prev: map<string, seq<A>>, now: map<string, seq<A>>, wild: string -> bool, p: seq<string>, i: nat)
    requires i < |p| && WithHits(prev, now, wild, p[..i])
    ensures p[..i + 1] == p[..i] + [p[i]]
    ensures p[i] in now || !wild(p[i]) ==> WithHits(prev, now, wild, p[..i + 1])
    ensures p[i] !in now && wild(p[i]) ==> WithHits(prev, now[p[i] := []], wild, p[..i + 1])
  {
    var names := p[..i + 1];
    assert names == p[..i] + [p[i]];
    assert forall k :: 0 <= k < i ==> names[k] == p[..i][k];
  }

  /** Whether a routed domain is found depends only on where the walk stops. */
  lemma RoutedWhereStopped(domains: set<string>, wild: string -> bool, p: seq<string>, i: nat)
    requires StopsAt(domains, p, i)
    ensures Routed(domains, wild, p) <==> p[i] in domains || wild(p[i])
  {
    if p[i] !in domains {
      forall n | n in p ensures n !in domains {
        var k :| 0 <= k < |p| && p[k] == n;
      }
    } else {
      assert p[i] in p;
    }
  }

  /** A name on the path matches a wildcard. */
  ghost predicate Matching(wild: string -> bool, p: seq<string>) {
    exists n :: n in p && wild(n)
  }

  lemma RoutedStays(a: set<string>, b: set<string>, wild: string -> bool, p: seq<string>)
    requires p != [] && a <= b && Routed(a, wild, p)
    ensures Routed(b, wild, p)
  {
  }

  /** The walk has come to the i-th name without finding an exact domain. */
  ghost predicate Passing<A>(chain: map<string, string>, path: seq<string>, i: nat, d: string, seen: set<string>,
                             prev: map<string, seq<A>>, now: map<string, seq<A>>, wild: string -> bool)
  {
    && Walking(chain, path, i, d, seen)
    && (forall k :: 0 <= k < i ==> path[k] !in prev)
    && WithHits(prev, now, wild, path[..i])
  }

  /** The domains after looking at a name that is not among them. */
  function Looked<A>(now: map<string, seq<A>>, wild: string -> bool, d: string): map<string, seq<A>> {
    if wild(d) then now[d := []] else now
  }

  lemma PassStep<A>(chain: map<string, string>, path: seq<string>, i: nat, d: string, seen: set<string>,
                    prev: map<string, seq<A>>, now: map<string, seq<A>>, wild: string -> bool)
    requires Passing(chain, path, i, d, seen, prev, now, wild) && d !in now && d in chain && chain[d] !in seen
    ensures Passing(chain, path, i + 1, chain[d], seen + {chain[d]}, prev, Looked(now, wild, d), wild)
  {
    WalkStep(chain, path, i, d, seen);
    HitsNext(prev, now, wild, path, i);
  }

  lemma PassEnd<A>(chain: map<string, string>, path: seq<string>, i: nat, d: string, seen: set<string>,
                   prev: map<string, seq<A>>, now: map<string, seq<A>>, wild: string -> bool)
    requires Passing(chain, path, i, d, seen, prev, now, wild) && d !in now && (d !in chain || chain[d] in seen)
    ensures StopsAt(prev.Keys, path, i) && WithHits(prev, Looked(now, wild, d), wild, path[..i + 1])
  {
    WalkEnd(chain, path, i, d, seen);
    HitsNext(prev, now, wild, path, i);
  }

  /** Only a domain of before, or a wildcard match come back to, is found among the domains. */
  lemma PassFound<A>(chain: map<string, string>, path: seq<string>, i: nat, d: string, seen: set<string>,
                     prev: map<string, seq<A>>, now: map<string, seq<A>>, wild: string -> bool)
    requires Passing(chain, path, i, d, seen, prev, now, wild) && d in now
    ensures StopsAt(prev.Keys, path, i) && WithHits(prev, now, wild, path[..i + 1])
    ensures d in prev || wild(d)
  {
    HitsNext(prev, now, wild, path, i);
    if d !in prev {
      WalkRevisit(chain, path, i, d, seen);
    }
  }

  /** Where the loop stands: the name it is at, the names seen and the domains so far. */
  datatype Spot<A> = Spot(d: string, seen: set<string>, now: map<string, seq<A>>)

  /** The loop goes on from here. */
  predicate GoesOn<A>(chain: map<string, string>, s: Spot<A>) {
    s.d !in s.now && s.d in chain && chain[s.d] !in s.seen
  }

  function Next<A>(chain: map<string, string>, wild: string -> bool, s: Spot<A>): Spot<A>
    requires GoesOn(chain, s)
  {
    Spot(chain[s.d], s.seen + {chain[s.d]}, Looked(s.now, wild, s.d))
  }

  /** The loop stands here after i turns. */
  ghost predicate Reached<A(!new)>(chain: map<string, string>, start: string, prev: map<string, seq<A>>, wild: string -> bool,
                                   i: nat, s: Spot<A>)
  {
    if i == 0 then s == Spot(start, {}, prev)
    else exists r: Spot<A> :: Reached(chain, start, prev, wild, i - 1, r) && GoesOn(chain, r) && s == Next(chain, wild, r)
  }

  lemma {:induction false} ReachedPassing<A(!new)>(chain: map<string, string>, start: string, prev: map<string, seq<A>>,
                                                   wild: string -> bool, i: nat, s: Spot<A>)
    requires Reached(chain, start, prev, wild, i, s)
    ensures Passing(chain, Path(chain, start, {}), i, s.d, s.seen, prev, s.now, wild)
  {
    var path := Path(chain, start, {});
    if i == 0 {
      assert path[0..] == path && path[..0] == [];
    } else {
      var r :| Reached(chain, start, prev, wild, i - 1, r) && GoesOn(chain, r) && s == Next(chain, wild, r);
      ReachedPassing(chain, start, prev, wild, i - 1, r);
      PassStep(chain, path, i - 1, r.d, r.seen, prev, r.now, wild);
    }
  }

  /** The loop stops here, with these domains. */
  lemma ReachedEnd<A(!new)>(chain: map<string, string>, start: string, prev: map<string, seq<A>>, wild: string -> bool,
                            i: nat, s: Spot<A>)
    requires Reached(chain, start, prev, wild, i, s) && !GoesOn(chain, s)
    ensures var path := Path(chain, start, {});
      && StopsAt(prev.Keys, path, i) && path[i] == s.d
      && WithHits(prev, if s.d in s.now then s.now else Looked(s.now, wild, s.d), wild, path[..i + 1])
      && (s.d in s.now ==> s.d in prev || wild(s.d))
      && (s.d in prev ==> s.d in s.now)
  {
    var path := Path(chain, start, {});
    ReachedPassing(chain, start, prev, wild, i, s);
    if s.d in s.now {
      PassFound(chain, path, i, s.d, s.seen, prev, s.now, wild);
    } else {
      PassEnd(chain, path, i, s.d, s.seen, prev, s.now, wild);
    }
  }

  lemma ReachedOnPath<A(!new)>(chain: map<string, string>, start: string, prev: map<string, seq<A>>, wild: string -> bool,
                               i: nat, s: Spot<A>)
    requires Reached(chain, start, prev, wild, i, s)
    ensures i < |Path(chain, start, {})| && Path(chain, start, {})[i] == s.d
  {
    ReachedPassing(chain, start, prev, wild, i, s);
  }

  /** Where nothing was added, and there were no domains, the whole path has no wildcard match. */
  lemma NothingHit<A>(prev: map<string, seq<A>>, now: map<string, seq<A>>, wild: string -> bool, path: seq<string>, i: nat)
    requires StopsAt(prev.Keys, path, i) && WithHits(prev, now, wild, path[..i + 1]) && prev == now == map[]
    ensures !Matching(wild, path)
  {
    assert path[..i + 1] == path;
  }
}
