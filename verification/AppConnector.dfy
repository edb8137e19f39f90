/**
  `appc.AppConnector`: which domains are routed, the addresses known for each of them, and
  the advertisements queued about them. Every method is one critical section, and every
  constructor establishes the invariant they keep, so it holds in every state the connector
  can reach. Where the code writes to a nil map it panics; such methods say exactly when.
 */
module AppConnector {
  import opened Bytes
  import opened Seqs
  import opened Routes
  import opened AddrList
  import opened CnameWalk

  // ----- domain names -----

  predicate EndsWith(s: string, suffix: string) {
    |suffix| <= |s| && s[|s| - |suffix|..] == suffix
  }

  function TrimSuffix(s: string, suffix: string): string {
    if EndsWith(s, suffix) then s[..|s| - |suffix|] else s
  }

  /** `dnsname.HasSuffix` */
  predicate HasSuffix(name: string, suffix: string) {
    var n := TrimSuffix(name, ".");
    var s := TrimSuffix(suffix, ".");
    var base := TrimSuffix(n, if "." <= s then s[1..] else s);
    |base| < |n| && EndsWith(base, ".")
  }

  /** A name without the dot it may end with. */
  function Bare(name: string): string {
    if |name| > 0 && name[|name| - 1] == '.' then name[..|name| - 1] else name
  }

  /** A suffix without the dots it may begin and end with. */
  function Core(suffix: string): string {
    var s := Bare(suffix);
    if |s| > 0 && s[0] == '.' then s[1..] else s
  }

  /** The name has the labels of the suffix at its end, and at least a dot before them. */
  predicate Below(name: string, suffix: string) {
    Core(suffix) != "" && EndsWith(Bare(name), "." + Core(suffix))
  }

  /** That is what `dnsname.HasSuffix` decides, for every name and suffix. */
  lemma HasSuffixIff(name: string, suffix: string)
    ensures HasSuffix(name, suffix) <==> Below(name, suffix)
  {
    var n, s := Bare(name), Core(suffix);
    assert TrimSuffix(name, ".") == n && TrimSuffix(suffix, ".") == Bare(suffix);
    SuffixBase(n, s);
  }

  lemma SuffixBase(n: string, s: string)
    ensures var base := TrimSuffix(n, s);
      |base| < |n| && EndsWith(base, ".") <==> s != "" && EndsWith(n, "." + s)
  {
    if EndsWith(n, s) && s != "" {
      var k := |n| - |s|;
      assert n[k..] == s;
      if EndsWith(n, "." + s) {
        assert n[k - 1] == n[k - 1..][0] == '.';
      }
      if EndsWith(n[..k], ".") {
        assert n[..k][k - 1..][0] == '.';
        assert n[k - 1..] == [n[k - 1]] + n[k..];
      }
    }
    if EndsWith(n, "." + s) {
      assert n[|n| - |s|..] == n[|n| - |s| - 1..][1..];
    }
  }

  /** For plain names: a wildcard matches what ends with a dot and its domain, and surrounding dots do not matter. */
  lemma SuffixIff(name: string, suffix: string)
    requires name != "" && name[|name| - 1] != '.'
    requires suffix != "" && suffix[0] != '.' && suffix[|suffix| - 1] != '.'
    ensures HasSuffix(name, suffix) <==> EndsWith(name, "." + suffix)
    ensures HasSuffix(name + ".", suffix) <==> HasSuffix(name, suffix)
    ensures HasSuffix(name, "." + suffix) <==> HasSuffix(name, suffix)
    ensures HasSuffix(name, suffix + ".") <==> HasSuffix(name, suffix)
  {
    HasSuffixIff(name, suffix);
    HasSuffixIff(name + ".", suffix);
    HasSuffixIff(name, "." + suffix);
    HasSuffixIff(name, suffix + ".");
    assert Bare(name + ".") == name;
    assert Bare("." + suffix) == "." + suffix && Core("." + suffix) == suffix;
    assert Bare(suffix + ".") == suffix;
  }

  predicate MatchesWildcard(wildcards: seq<string>, d: string) {
    exists w :: w in wildcards && Below(d, w)
  }

  function LowerChar(c: char): char {
    if 'A' <= c <= 'Z' then c - 'A' + 'a' else c
  }

  /** Domain names are ASCII. */
  function ToLower(s: string): string {
    seq(|s|, i requires 0 <= i < |s| => LowerChar(s[i]))
  }

  predicate IsUpper(c: char) {
    'A' <= c <= 'Z'
  }

  /** No upper-case letter is left, and what was none is as it was. */
  lemma LowerIs(s: string)
    ensures |ToLower(s)| == |s|
    ensures forall i :: 0 <= i < |s| ==> !IsUpper(ToLower(s)[i])
    ensures forall i :: 0 <= i < |s| ==> ToLower(s)[i] as int == s[i] as int + (if IsUpper(s[i]) then 32 else 0)
  {
  }

  /** Whether a name matches a wildcard, as the walk of the CNAME chain asks it. */
  function Wildcard(wildcards: seq<string>): string -> bool {
    d => MatchesWildcard(wildcards, d)
  }

  // ----- the configured domains -----

  function ExactOf(d: string): seq<string> {
    if |d| == 0 || "*." <= d then [] else [d]
  }

  function WildOf(d: string): seq<string> {
    if "*." <= d then [d[2..]] else []
  }

  function Exact(list: seq<string>): seq<string> {
    if list == [] then [] else Exact(list[..|list| - 1]) + ExactOf(ToLower(list[|list| - 1]))
  }

  function Wild(list: seq<string>): seq<string> {
    if list == [] then [] else Wild(list[..|list| - 1]) + WildOf(ToLower(list[|list| - 1]))
  }

  function Count(s: seq<string>, d: string): nat {
    if s == [] then 0 else Count(s[..|s| - 1], d) + (if s[|s| - 1] == d then 1 else 0)
  }

  lemma CountLast(s: seq<string>, x: string, d: string)
    ensures Count(s + [x], d) == Count(s, d) + (if x == d then 1 else 0)
  {
    assert (s + [x])[..|s + [x]| - 1] == s;
  }

  lemma {:induction false} CountIn(s: seq<string>, d: string)
    ensures Count(s, d) > 0 <==> d in s
  {
    if s != [] {
      SplitAt(s, |s| - 1);
      CountIn(s[..|s| - 1], d);
    }
  }

  ghost predicate NamedAt(list: seq<string>, i: nat, d: string) {
    i < |list| && ToLower(list[i]) == d
  }

  ghost predicate IsExact(d: string) {
    d != "" && !("*." <= d)
  }

  lemma NamedMore(list: seq<string>, d: string)
    requires list != []
    ensures var init := list[..|list| - 1];
      (exists i :: NamedAt(list, i, d)) <==> (exists i :: NamedAt(init, i, d)) || ToLower(list[|list| - 1]) == d
  {
    var n := |list| - 1;
    if i: nat :| NamedAt(list, i, d) {
      assert i < n ==> NamedAt(list[..n], i, d);
    }
    if i: nat :| NamedAt(list[..n], i, d) {
      assert NamedAt(list, i, d);
    }
    if ToLower(list[n]) == d {
      assert NamedAt(list, n, d);
    }
  }

  /** Listed by name are the entries, in lower case, that are not empty and do not begin with "*.". */
  lemma {:induction false} ExactIff(list: seq<string>, d: string)
    ensures d in Exact(list) <==> IsExact(d) && exists i :: NamedAt(list, i, d)
  {
    if list != [] {
      ExactIff(list[..|list| - 1], d);
      NamedMore(list, d);
    }
  }

  /** Wildcards are the entries that do, without it. */
  lemma {:induction false} WildIff(list: seq<string>, w: string)
    ensures w in Wild(list) <==> exists i :: NamedAt(list, i, "*." + w)
  {
    if list != [] {
      WildIff(list[..|list| - 1], w);
      NamedMore(list, "*." + w);
      var d := ToLower(list[|list| - 1]);
      if "*." <= d {
        assert d == "*." + d[2..];
        SameLeft("*.", w, d[2..]);
      }
    }
  }

  ghost predicate NamedTwice(list: seq<string>, i: nat, j: nat, d: string) {
    i < j && NamedAt(list, i, d) && NamedAt(list, j, d)
  }

  /** Twice in the list is at two places of it. */
  lemma {:induction false} TwiceIff(list: seq<string>, d: string)
    requires IsExact(d)
    ensures Count(Exact(list), d) >= 2 <==> exists i, j :: NamedTwice(list, i, j, d)
  {
    if list != [] {
      var n := |list| - 1;
      TwiceIff(list[..n], d);
      ExactIff(list[..n], d);
      CountIn(Exact(list[..n]), d);
      if ToLower(list[n]) == d {
        CountLast(Exact(list[..n]), d, d);
      } else {
        CountOther(Exact(list[..n]), ToLower(list[n]), d);
      }
      TwiceMore(list, d);
    }
  }

  lemma CountOther(s: seq<string>, x: string, d: string)
    requires x != d
    ensures Count(s + ExactOf(x), d) == Count(s, d)
  {
    if ExactOf(x) == [] {
      EmptyConcat(s);
    } else {
      CountLast(s, x, d);
    }
  }

  lemma TwiceMore(list: seq<string>, d: string)
    requires list != []
    ensures var init, last := list[..|list| - 1], ToLower(list[|list| - 1]);
      (exists i, j :: NamedTwice(list, i, j, d))
      <==> (exists i, j :: NamedTwice(init, i, j, d)) || (last == d && exists i :: NamedAt(init, i, d))
  {
    var n := |list| - 1;
    if i: nat, j: nat :| NamedTwice(list, i, j, d) {
      assert NamedAt(list[..n], i, d);
      assert j < n ==> NamedTwice(list[..n], i, j, d);
    }
    if i: nat, j: nat :| NamedTwice(list[..n], i, j, d) {
      assert NamedTwice(list, i, j, d);
    }
    if i: nat :| ToLower(list[n]) == d && NamedAt(list[..n], i, d) {
      assert NamedTwice(list, i, n, d);
    }
  }

  /** The domains listed by name: one listed twice forgets its addresses. */
  function Listed(prev: map<string, seq<Ip>>, exact: seq<string>): map<string, seq<Ip>> {
    map d | d in exact :: if Count(exact, d) == 1 && d in prev then prev[d] else []
  }

  /** The domains after `updateDomains`: those listed, and old ones a wildcard keeps alive. */
  function Kept(prev: map<string, seq<Ip>>, list: seq<string>): map<string, seq<Ip>> {
    (map d | d in prev && d !in Exact(list) && MatchesWildcard(Wild(list), d) :: prev[d]) + Listed(prev, Exact(list))
  }

  predicate Dropped(prev: map<string, seq<Ip>>, list: seq<string>, d: string) {
    d in prev && d !in Exact(list) && !MatchesWildcard(Wild(list), d)
  }

  /** A domain keeps the addresses it had iff it is listed exactly once, or only by a wildcard. */
  lemma AddressesKeptIff(prev: map<string, seq<Ip>>, list: seq<string>, d: string)
    requires d in prev && prev[d] != []
    ensures (d in Kept(prev, list) && Kept(prev, list)[d] == prev[d])
       <==> (Count(Exact(list), d) == 1 || (Count(Exact(list), d) == 0 && MatchesWildcard(Wild(list), d)))
    ensures d !in Kept(prev, list) <==> Dropped(prev, list, d)
  {
    CountIn(Exact(list), d);
    KeptAt(prev, list, d);
  }

  /** A known address is still recorded, or its route is withdrawn, which takes stored routes. */
  ghost predicate AccountedFor(prev: map<string, seq<Ip>>, list: seq<string>, stored: bool, a: Ip) {
    a in KnownAddrs(Kept(prev, list)) || (stored && IsSingleOf(DroppedDomains(prev, list), Single(a)))
  }

  /** d has the address, is not listed twice, and is kept unless routes are stored. */
  ghost predicate KeepsTrack(prev: map<string, seq<Ip>>, list: seq<string>, stored: bool, a: Ip, d: string) {
    d in prev && a in prev[d] && Count(Exact(list), d) < 2 && (stored || !Dropped(prev, list, d))
  }

  lemma StillRecorded(prev: map<string, seq<Ip>>, list: seq<string>, stored: bool, a: Ip, d: string)
    requires d in Kept(prev, list) && a in Kept(prev, list)[d]
    ensures KeepsTrack(prev, list, stored, a, d)
  {
    CountIn(Exact(list), d);
    KeptAt(prev, list, d);
  }

  lemma KeepsTrackAccounted(prev: map<string, seq<Ip>>, list: seq<string>, stored: bool, a: Ip, d: string)
    requires KeepsTrack(prev, list, stored, a, d)
    ensures AccountedFor(prev, list, stored, a)
  {
    CountIn(Exact(list), d);
    KeptAt(prev, list, d);
    if Dropped(prev, list, d) {
      assert d in DroppedDomains(prev, list);
    } else {
      assert d in Kept(prev, list) && Kept(prev, list)[d] == prev[d];
    }
  }

  lemma AccountedAsRemoved(prev: map<string, seq<Ip>>, list: seq<string>, stored: bool, toRemove: seq<Prefix>)
    requires forall p :: p in toRemove <==> stored && IsSingleOf(DroppedDomains(prev, list), p)
    ensures forall a: Ip :: AccountedFor(prev, list, stored, a) <==> a in KnownAddrs(Kept(prev, list)) || Single(a) in toRemove
  {
  }

  /**
    A known address is neither recorded any more nor withdrawn iff every domain that had it is
    listed twice, or is dropped while routes are not stored.
   */
  lemma AccountedForIff(prev: map<string, seq<Ip>>, list: seq<string>, stored: bool, a: Ip)
    ensures AccountedFor(prev, list, stored, a) <==> exists d :: KeepsTrack(prev, list, stored, a, d)
  {
    if AccountedFor(prev, list, stored, a) {
      if d :| d in Kept(prev, list) && a in Kept(prev, list)[d] {
        StillRecorded(prev, list, stored, a, d);
      } else {
        var d :| d in DroppedDomains(prev, list) && a in DroppedDomains(prev, list)[d];
        CountIn(Exact(list), d);
        assert KeepsTrack(prev, list, stored, a, d);
      }
    }
    if d :| KeepsTrack(prev, list, stored, a, d) {
      KeepsTrackAccounted(prev, list, stored, a, d);
    }
  }

  /** A domain listed twice, whatever its addresses: they are forgotten, and not withdrawn. */
  lemma TwiceListedForgets(d: string, addrs: seq<Ip>)
    requires ExactOf(ToLower(d)) == [d]
    ensures Exact([d, d]) == [d, d] && Wild([d, d]) == []
    ensures Kept(map[d := addrs], [d, d]) == map[d := []] && DroppedDomains(map[d := addrs], [d, d]) == map[]
  {
    ExactOne(d);
    assert [d, d][..1] == [d];
    assert [d] + [d] == [d, d];
    CountLast([d], d, d);
    assert [d][..0] == [];
    assert Count([d], d) == 1;
  }

  lemma ExactOne(d: string)
    ensures Exact([d]) == ExactOf(ToLower(d)) && Wild([d]) == WildOf(ToLower(d))
  {
    assert [d][..0] == [];
    EmptyConcat(ExactOf(ToLower(d)));
    EmptyConcat(WildOf(ToLower(d)));
  }

  lemma KeptAt(prev: map<string, seq<Ip>>, list: seq<string>, d: string)
    ensures d in Kept(prev, list) <==> d in Exact(list) || (d in prev && MatchesWildcard(Wild(list), d))
    ensures d in Exact(list) ==> Kept(prev, list)[d] == Listed(prev, Exact(list))[d]
    ensures d in Kept(prev, list) && d !in Exact(list) ==> Kept(prev, list)[d] == prev[d]
  {
  }

  /** No domain and no address recorded is lost. */
  ghost predicate Grows(prev: map<string, seq<Ip>>, now: map<string, seq<Ip>>) {
    forall d :: d in prev ==> d in now && forall x :: x in prev[d] ==> x in now[d]
  }

  lemma GrowsTrans(a: map<string, seq<Ip>>, b: map<string, seq<Ip>>, c: map<string, seq<Ip>>)
    requires Grows(a, b) && Grows(b, c)
    ensures Grows(a, c)
  {
  }

  lemma GrowsOne(prev: map<string, seq<Ip>>, d: string, addrs: seq<Ip>)
    requires d in prev && forall x :: x in prev[d] ==> x in addrs
    ensures Grows(prev, prev[d := addrs])
  {
  }

  lemma LearnedNext(known: seq<Ip>, before: seq<Ip>, now: seq<Ip>, addrs: seq<Ip>, a: Ip, control: seq<Prefix>, isKnown: bool)
    requires Learned(known, before, addrs, control) && (isKnown <==> a in before || CoveredBy(control, a))
    requires forall x :: x in now <==> x in before || (isKnown && x == a)
    ensures Learned(known, now, addrs + [a], control)
    ensures forall p :: IsNewRoute(known, addrs + [a], control, p)
                   <==> IsNewRoute(known, addrs, control, p) || (!isKnown && p == Single(a))
  {
  }

  /** Some route is of a single address. */
  predicate HasSingle(routes: seq<Prefix>) {
    exists r :: r in routes && r.bits == BitLen(r.addr)
  }

  /** Exactly the single addresses among the routes were recorded, for d, which is a domain then if there are any. */
  ghost predicate Recorded(prev: map<string, seq<Ip>>, now: map<string, seq<Ip>>, d: string, routes: seq<Prefix>) {
    && (forall e :: e in now <==> e in prev || (e == d && HasSingle(routes)))
    && (forall e :: e != d ==> AddrsOf(now, e) == AddrsOf(prev, e))
    && (forall x: Ip :: x in AddrsOf(now, d) <==> x in AddrsOf(prev, d) || Single(x) in routes)
  }

  lemma RecordedNone(m: map<string, seq<Ip>>, d: string)
    ensures Recorded(m, m, d, [])
  {
  }

  lemma RecordedNext(prev: map<string, seq<Ip>>, before: map<string, seq<Ip>>, now: map<string, seq<Ip>>, d: string,
                     routes: seq<Prefix>, r: Prefix)
    requires Recorded(prev, before, d, routes) && Recorded(before, now, d, [r])
    ensures Recorded(prev, now, d, routes + [r])
  {
    assert HasSingle(routes + [r]) <==> HasSingle(routes) || HasSingle([r]);
  }

  lemma SingleNext(routes: seq<Prefix>, i: nat)
    requires i < |routes|
    ensures HasSingle(routes[..i + 1]) <==> HasSingle(routes[..i]) || HasSingle([routes[i]])
    ensures HasSingle([routes[i]]) ==> HasSingle(routes)
  {
    assert routes[..i + 1] == routes[..i] + [routes[i]];
    assert routes[i] in routes;
  }

  predicate CoveredBy(routes: seq<Prefix>, a: Ip) {
    exists r :: r in routes && Contains(r, a)
  }

  /** The single addresses observed that are neither known nor covered by control: those to advertise. */
  predicate IsNewRoute(known: seq<Ip>, addrs: seq<Ip>, control: seq<Prefix>, p: Prefix) {
    p == Single(p.addr) && p.addr in addrs && p.addr !in known && !CoveredBy(control, p.addr)
  }

  /** The addresses observed that control covers were added to those known, and no others. */
  ghost predicate Learned(known: seq<Ip>, now: seq<Ip>, addrs: seq<Ip>, control: seq<Prefix>) {
    forall x :: x in now <==> x in known || (x in addrs && CoveredBy(control, x))
  }

  /** An advertisement of a for d is queued. */
  ghost predicate Queued(queue: seq<Task>, d: string, a: Ip) {
    exists t :: t in queue && t.Advertise? && t.domain == d && Single(a) in t.routes
  }

  /** Some domain on the path has all these addresses, recorded or about to be advertised. */
  ghost predicate Handled(domains: map<string, seq<Ip>>, queue: seq<Task>, addrs: seq<Ip>, path: seq<string>) {
    exists d :: d in path && HandledBy(domains, queue, addrs, d)
  }

  ghost predicate HandledBy(domains: map<string, seq<Ip>>, queue: seq<Task>, addrs: seq<Ip>, d: string) {
    d in domains && forall a :: a in addrs ==> a in domains[d] || Queued(queue, d, a)
  }

  /** Every name in the response that was routed, but for those still to do, has its addresses handled. */
  ghost predicate AllHandled(routed: set<string>, domains: map<string, seq<Ip>>, queue: seq<Task>, records: map<string, seq<Ip>>,
                             chain: map<string, string>, wild: string -> bool, todo: set<string>)
  {
    forall name :: name in records && name !in todo && Routed(routed, wild, Path(chain, name, {})) ==>
      Handled(domains, queue, records[name], Path(chain, name, {}))
  }

  /** The response has a as an address of a name from which the chain leads over d. */
  ghost predicate Observed(records: map<string, seq<Ip>>, chain: map<string, string>, d: string, a: Ip) {
    exists name :: name in records && a in records[name] && d in Path(chain, name, {})
  }

  ghost predicate NewTask(records: map<string, seq<Ip>>, chain: map<string, string>, control: seq<Prefix>, t: Task) {
    && t.Advertise?
    && forall p :: p in t.routes ==>
         p == Single(p.addr) && Observed(records, chain, t.domain, p.addr) && !CoveredBy(control, p.addr)
  }

  function AddrsOf(m: map<string, seq<Ip>>, d: string): seq<Ip> {
    if d in m then m[d] else []
  }

  /** Only observed addresses that control covers were recorded. */
  ghost predicate OnlyObserved(prev: map<string, seq<Ip>>, now: map<string, seq<Ip>>, records: map<string, seq<Ip>>,
                               chain: map<string, string>, control: seq<Prefix>)
  {
    forall d, x :: x in AddrsOf(now, d) && x !in AddrsOf(prev, d) ==> Observed(records, chain, d, x) && CoveredBy(control, x)
  }

  /** Only names the response leads over that match a wildcard became domains. */
  ghost predicate OnlyHits(prev: set<string>, now: set<string>, records: map<string, seq<Ip>>, chain: map<string, string>,
                           wild: string -> bool)
  {
    forall d :: d in now && d !in prev ==> wild(d) && exists name :: name in records && d in Path(chain, name, {})
  }

  lemma StillOnlyHits(prev: set<string>, before: set<string>, now: set<string>, records: map<string, seq<Ip>>,
                      chain: map<string, string>, wild: string -> bool, name: string, at: nat)
    requires OnlyHits(prev, before, records, chain, wild)
    requires name in records && at < |Path(chain, name, {})|
    requires HitKeys(before, now, wild, Path(chain, name, {})[..at + 1])
    ensures OnlyHits(prev, now, records, chain, wild)
  {
    forall d | d in now && d !in prev
      ensures wild(d) && exists n :: n in records && d in Path(chain, n, {})
    {
      if d !in before {
        assert d in Path(chain, name, {});
      }
    }
  }

  lemma HandledStays(m: map<string, seq<Ip>>, q: seq<Task>, m2: map<string, seq<Ip>>, q2: seq<Task>, addrs: seq<Ip>, path: seq<string>)
    requires Handled(m, q, addrs, path) && Grows(m, m2) && q <= q2
    ensures Handled(m2, q2, addrs, path)
  {
    var d :| d in path && HandledBy(m, q, addrs, d);
    forall a | a in addrs
      ensures a in m2[d] || Queued(q2, d, a)
    {
      if a !in m[d] {
        var t :| t in q && t.Advertise? && t.domain == d && Single(a) in t.routes;
        assert t in q2;
      }
    }
    assert HandledBy(m2, q2, addrs, d);
  }

  /** The addresses of the domains that are no longer tracked. */
  function DroppedDomains(prev: map<string, seq<Ip>>, list: seq<string>): map<string, seq<Ip>> {
    map d | d in prev && Dropped(prev, list, d) :: prev[d]
  }

  ghost predicate IsSingleOf(m: map<string, seq<Ip>>, p: Prefix) {
    p == Single(p.addr) && exists d :: d in m && p.addr in m[d]
  }

  // ----- the connector -----

  /** What is persisted of a connector; the domain map may be nil. */
  datatype RouteInfo = RouteInfo(control: seq<Prefix>, domains: Option<map<string, seq<Ip>>>, wildcards: seq<string>)

  ghost predicate Storable(info: RouteInfo) {
    info.domains.Some? ==> forall d :: d in info.domains.value ==> StrictlySorted(info.domains.value[d])
  }

  /** Writing it as JSON and reading it back: an empty map is omitted, and comes back as nil. */
  function ThroughJson(info: RouteInfo): RouteInfo {
    if info.domains == Some(map[]) then info.(domains := None) else info
  }

  datatype Task =
    | Advertise(domain: string, routes: seq<Prefix>)
    | AdvertiseThenWithdraw(routes: seq<Prefix>, toRemove: seq<Prefix>)
    | WithdrawOnly(toRemove: seq<Prefix>)

  class Connector {
    const stored: bool
    var made: bool
    var domains: map<string, seq<Ip>>
    var wildcards: seq<string>
    var control: seq<Prefix>
    var queue: seq<Task>
    ghost var listed: set<string>

    /** Address lists are strictly sorted; a nil domain map has no domains. */
    ghost predicate Valid()
      reads this
    {
      && (forall d :: d in domains ==> StrictlySorted(domains[d]))
      && (!made ==> domains == map[])
    }

    /** Every domain is listed in the configuration or matches a wildcard. */
    ghost predicate Tracked()
      reads this
    {
      forall d :: d in domains ==> d in listed || Wildcard(wildcards)(d)
    }

    /** What indexing the map gives. */
    function Addrs(d: string): seq<Ip>
      reads this
    {
      AddrsOf(domains, d)
    }

    constructor (stored: bool)
      ensures Valid() && Tracked() && this.stored == stored && !made && queue == [] && control == [] && wildcards == []
    {
      this.stored, made, listed := stored, false, {};
      domains, wildcards, control, queue := map[], [], [], [];
    }

    /** A connector that starts from persisted route information, installed as it is. */
    constructor Restore(stored: bool, info: RouteInfo, ghost listed: set<string>)
      requires Storable(info)
      ensures Valid() && this.stored == stored && queue == [] && this.listed == listed
      ensures made == info.domains.Some? && domains == (if made then info.domains.value else map[])
      ensures wildcards == info.wildcards && control == info.control
    {
      this.stored, made, this.listed := stored, info.domains.Some?, listed;
      domains := if info.domains.Some? then info.domains.value else map[];
      wildcards, control, queue := info.wildcards, info.control, [];
    }

    /** `storeRoutesLocked`: what is published to be persisted. */
    method StoreRoutes() returns (info: RouteInfo)
      requires Valid()
      ensures info == RouteInfo(control, if made then Some(domains) else None, wildcards) && Storable(info)
    {
      info := RouteInfo(control, if made then Some(domains) else None, wildcards);
    }

    /** The loop over the wildcards. */
    method MatchWildcard(d: string) returns (hit: bool)
      ensures hit == Wildcard(wildcards)(d)
    {
      for i := 0 to |wildcards|
        invariant forall k :: 0 <= k < i ==> !Below(d, wildcards[k])
      {
        HasSuffixIff(d, wildcards[i]);
        if HasSuffix(d, wildcards[i]) {
          assert wildcards[i] in wildcards;
          return true;
        }
      }
      hit := false;
    }

    /**
      `findRoutedDomainLocked`. It panics exactly if the domain map is nil and some name of the
      path matches a wildcard; otherwise it misses a routed domain exactly if it passes a
      wildcard match and stops where there is none.
     */
    method FindRoutedDomain(start: string, chain: map<string, string>)
      returns (d: string, isRouted: bool, ok: bool, ghost at: nat)
      requires Valid()
      modifies this`domains
      ensures Valid()
      ensures ok <==> made || !Matching(Wildcard(wildcards), Path(chain, start, {}))
      ensures !ok ==> domains == old(domains) && !isRouted
      ensures at < |Path(chain, start, {})| && d == Path(chain, start, {})[at]
      ensures ok ==> StopsAt(old(domains.Keys), Path(chain, start, {}), at)
      ensures ok ==> WithHits(old(domains), domains, Wildcard(wildcards), Path(chain, start, {})[..at + 1])
      ensures ok ==> (isRouted <==> Routed(old(domains.Keys), Wildcard(wildcards), Path(chain, start, {})))
      ensures ok ==> (isRouted <==> Promised(old(domains.Keys), Wildcard(wildcards), Path(chain, start, {}))
                                     && !Missed(old(domains.Keys), Wildcard(wildcards), Path(chain, start, {}), at))
      ensures isRouted ==> d in domains
      ensures old(Tracked()) ==> Tracked()
    {
      ghost var spot;
      d, isRouted, ok, at, spot := Walk(start, chain);
      ReachedOnPath(chain, start, old(domains), Wildcard(wildcards), at, spot);
      assert d in Path(chain, start, {});
      if ok {
        ReachedEnd(chain, start, old(domains), Wildcard(wildcards), at, spot);
        if !made {
          NothingHit(old(domains), domains, Wildcard(wildcards), Path(chain, start, {}), at);
        }
        RoutedWhereStopped(old(domains.Keys), Wildcard(wildcards), Path(chain, start, {}), at);
        MissedIff(old(domains.Keys), Wildcard(wildcards), Path(chain, start, {}), at);
      }
    }

    /** The loop, which goes on after a wildcard match. */
    method Walk(start: string, chain: map<string, string>)
      returns (d: string, isRouted: bool, ok: bool, ghost at: nat, ghost spot: Spot<Ip>)
      requires Valid()
      modifies this`domains
      ensures Valid() && Reached(chain, start, old(domains), Wildcard(wildcards), at, spot) && spot.d == d
      ensures ok ==> !GoesOn(chain, spot)
      ensures ok ==> domains == if d in spot.now then spot.now else Looked(spot.now, Wildcard(wildcards), d)
      ensures ok ==> (isRouted <==> d in spot.now || Wildcard(wildcards)(d))
      ensures !ok ==> !made && Wildcard(wildcards)(d) && !isRouted
      ensures isRouted ==> d in domains
    {
      d, isRouted, ok := start, false, true;
      var seen: set<string> := {};
      at := 0;
      while true
        invariant Valid() && Reached(chain, start, old(domains), Wildcard(wildcards), at, Spot(d, seen, domains))
        decreases chain.Values - seen
      {
        spot := Spot(d, seen, domains);
        var known := d in domains;
        isRouted, ok := Look(d);
        if !ok || known || d !in chain || chain[d] in seen {
          return;
        }
        d, at := chain[d], at + 1;
        seen := seen + {d};
        assert Spot(d, seen, domains) == Next(chain, Wildcard(wildcards), spot);
      }
    }

    /** One name: it is a domain, or it matches a wildcard and becomes one. */
    method Look(d: string) returns (isRouted: bool, ok: bool)
      requires Valid()
      modifies this`domains
      ensures Valid() && (ok <==> made || !Wildcard(wildcards)(d))
      ensures isRouted <==> ok && (d in old(domains) || Wildcard(wildcards)(d))
      ensures domains == if ok && d !in old(domains) then Looked(old(domains), Wildcard(wildcards), d) else old(domains)
    {
      isRouted, ok := d in domains, true;
      if isRouted {
        return;
      }
      var hit := MatchWildcard(d);
      if hit {
        if !made {
          return false, false;
        }
        domains := domains[d := []];
        isRouted := true;
      }
    }

    /** `hasDomainAddrLocked`: binary search decides membership. */
    method HasDomainAddr(d: string, a: Ip) returns (ok: bool)
      requires Valid()
      ensures ok <==> a in Addrs(d)
    {
      var s := Addrs(d);
      var lo, hi := 0, |s|;
      while lo < hi
        invariant 0 <= lo <= hi <= |s|
        invariant forall k :: 0 <= k < lo ==> Ord(s[k]) < Ord(a)
        invariant forall k :: hi <= k < |s| ==> Ord(a) <= Ord(s[k])
      {
        var mid := (lo + hi) / 2;
        if Ord(s[mid]) < Ord(a) {
          lo := mid + 1;
        } else {
          hi := mid;
        }
      }
      ok := lo < |s| && Ord(s[lo]) == Ord(a);
    }

    /** `addDomainAddrLocked`: it does not look whether the address is there, nor whether the map is. */
    method AddDomainAddr(d: string, a: Ip) returns (ok: bool)
      requires Valid()
      modifies this`domains
      ensures ok == made && (!ok ==> domains == old(domains))
      ensures ok ==> d in domains && domains == old(domains)[d := domains[d]]
      ensures ok ==> Ascending(domains[d]) && multiset(domains[d]) == multiset(old(Addrs(d))) + multiset{a}
      ensures ok ==> forall x :: x in domains[d] <==> x in old(Addrs(d)) || x == a
      ensures Valid() <==> !ok || a !in old(Addrs(d))
    {
      if !made {
        return false;
      }
      AppendAndSort(Addrs(d), a);
      domains := domains[d := Sort(Addrs(d) + [a])];
      ok := true;
    }

    /** `isAddrKnownLocked`; recording a covered address panics if the map is nil. */
    method IsAddrKnown(d: string, a: Ip) returns (known: bool, ok: bool)
      requires Valid()
      modifies this`domains
      ensures Valid() && (ok <==> made || !CoveredBy(control, a))
      ensures !ok ==> domains == old(domains) && !known
      ensures ok ==> (known <==> a in old(Addrs(d)) || CoveredBy(control, a))
      ensures known && a !in old(Addrs(d)) ==> d in domains && domains == old(domains)[d := domains[d]]
      ensures !known || a in old(Addrs(d)) ==> domains == old(domains)
      ensures forall x :: x in Addrs(d) <==> x in old(Addrs(d)) || (known && x == a)
    {
      known := HasDomainAddr(d, a);
      ok := true;
      if known {
        return;
      }
      for i := 0 to |control|
        invariant domains == old(domains)
        invariant !CoveredBy(control[..i], a)
      {
        assert control[..i + 1] == control[..i] + [control[i]];
        if Contains(control[i], a) {
          assert control[i] in control;
          ok := AddDomainAddr(d, a);
          return ok, ok;
        }
      }
      assert control[..|control|] == control;
    }

    /** Which of the addresses observed for a routed domain are new and have to be advertised. */
    method NewAddrs(d: string, addrs: seq<Ip>) returns (toAdvertise: seq<Prefix>)
      requires Valid() && d in domains
      modifies this`domains
      ensures Valid() && d in domains && domains == old(domains)[d := domains[d]]
      ensures Learned(old(domains[d]), domains[d], addrs, control)
      ensures forall p :: p in toAdvertise <==> IsNewRoute(old(domains[d]), addrs, control, p)
    {
      toAdvertise := [];
      ghost var known := domains[d];
      for i := 0 to |addrs|
        invariant Valid() && d in domains && domains == old(domains)[d := domains[d]]
        invariant Learned(known, domains[d], addrs[..i], control)
        invariant forall p :: p in toAdvertise <==> IsNewRoute(known, addrs[..i], control, p)
      {
        ghost var before := domains[d];
        var isKnown, _ := IsAddrKnown(d, addrs[i]);
        assert addrs[..i + 1] == addrs[..i] + [addrs[i]];
        LearnedNext(known, before, domains[d], addrs[..i], addrs[i], control, isKnown);
        if !isKnown {
          toAdvertise := toAdvertise + [Single(addrs[i])];
        }
      }
      assert addrs[..|addrs|] == addrs;
    }

    /**
      One address record of `ObserveDNSResponse`: if the name is routed, exactly the addresses
      control covers are recorded for the domain found, and an advertisement of exactly the
      other new ones is queued.
     */
    method ObserveRecord(name: string, addrs: seq<Ip>, chain: map<string, string>)
      returns (d: string, isRouted: bool, ok: bool, ghost queued: seq<Prefix>, ghost at: nat)
      requires Valid()
      modifies this`domains, this`queue
      ensures Valid() && Grows(old(domains), domains)
      ensures ok <==> made || !Matching(Wildcard(wildcards), Path(chain, name, {}))
      ensures !ok ==> domains == old(domains) && queue == old(queue) && !isRouted
      ensures at < |Path(chain, name, {})| && d == Path(chain, name, {})[at]
      ensures ok ==> StopsAt(old(domains.Keys), Path(chain, name, {}), at)
      ensures ok ==> HitKeys(old(domains.Keys), domains.Keys, Wildcard(wildcards), Path(chain, name, {})[..at + 1])
      ensures ok ==> (isRouted <==> Routed(old(domains.Keys), Wildcard(wildcards), Path(chain, name, {})))
      ensures forall e :: e != d || !isRouted ==> AddrsOf(domains, e) == AddrsOf(old(domains), e)
      ensures isRouted ==> d in domains && Learned(AddrsOf(old(domains), d), domains[d], addrs, control)
      ensures forall p :: p in queued <==> isRouted && IsNewRoute(AddrsOf(old(domains), d), addrs, control, p)
      ensures queue == if queued == [] then old(queue) else old(queue) + [Advertise(d, queued)]
    {
      d, isRouted, ok, at := FindRoutedDomain(name, chain);
      if ok {
        HitsKeepAddrs(old(domains), domains, Wildcard(wildcards), Path(chain, name, {})[..at + 1]);
      }
      queued := [];
      if !isRouted {
        return;
      }
      ghost var found := domains;
      queued := Learn(d, addrs);
      GrowsLearned(old(domains), found, domains, d, addrs, control);
    }

    /** The addresses observed for a routed domain: recorded if control covers them, else advertised if new. */
    method Learn(d: string, addrs: seq<Ip>) returns (ghost queued: seq<Prefix>)
      requires Valid() && d in domains
      modifies this`domains, this`queue
      ensures Valid() && d in domains && domains == old(domains)[d := domains[d]]
      ensures Learned(old(domains[d]), domains[d], addrs, control)
      ensures forall p :: p in queued <==> IsNewRoute(old(domains[d]), addrs, control, p)
      ensures queue == if queued == [] then old(queue) else old(queue) + [Advertise(d, queued)]
    {
      var toAdvertise := NewAddrs(d, addrs);
      queued := toAdvertise;
      if |toAdvertise| > 0 {
        queue := queue + [Advertise(d, toAdvertise)];
      }
    }

    /**
      The locked half of `ObserveDNSResponse`, visiting the records in any order. Every routed
      name's addresses end up recorded or queued for a domain on its chain; only observed
      addresses that control covers are recorded, and only observed ones it does not are queued.
     */
    method Observe(records: map<string, seq<Ip>>, chain: map<string, string>) returns (ok: bool)
      requires Valid()
      modifies this`domains, this`queue
      ensures Valid() && Grows(old(domains), domains)
      ensures ok <==> made || forall name :: name in records ==> !Matching(Wildcard(wildcards), Path(chain, name, {}))
      ensures ok ==> AllHandled(old(domains.Keys), domains, queue, records, chain, Wildcard(wildcards), {})
      ensures OnlyObserved(old(domains), domains, records, chain, control)
      ensures OnlyHits(old(domains.Keys), domains.Keys, records, chain, Wildcard(wildcards))
      ensures old(Tracked()) ==> Tracked()
      ensures old(queue) <= queue
      ensures forall i :: |old(queue)| <= i < |queue| ==> NewTask(records, chain, control, queue[i])
    {
      var todo := records.Keys;
      while todo != {}
        invariant Valid() && todo <= records.Keys
        invariant made || forall name :: name in records && name !in todo ==> !Matching(Wildcard(wildcards), Path(chain, name, {}))
        invariant Progress(old(domains), old(queue), records, chain, todo)
        decreases todo
      {
        var name :| name in todo;
        assert todo - {name} + {name} == todo;
        todo := todo - {name};
        var fine := ObserveNext(records, chain, name, old(domains), old(queue), todo);
        if !fine {
          return false;
        }
      }
      ok := true;
    }

    /** What holds while a response is observed, with these names still to do. */
    ghost predicate Progress(domains0: map<string, seq<Ip>>, queue0: seq<Task>, records: map<string, seq<Ip>>,
                             chain: map<string, string>, todo: set<string>)
      reads this
    {
      && Grows(domains0, domains)
      && AllHandled(domains0.Keys, domains, queue, records, chain, Wildcard(wildcards), todo)
      && OnlyObserved(domains0, domains, records, chain, control)
      && OnlyHits(domains0.Keys, domains.Keys, records, chain, Wildcard(wildcards))
      && queue0 <= queue && forall i :: |queue0| <= i < |queue| ==> NewTask(records, chain, control, queue[i])
    }

    method ObserveNext(records: map<string, seq<Ip>>, chain: map<string, string>, name: string,
                       ghost domains0: map<string, seq<Ip>>, ghost queue0: seq<Task>, ghost todo: set<string>)
      returns (fine: bool)
      requires Valid() && name in records && Progress(domains0, queue0, records, chain, todo + {name})
      modifies this`domains, this`queue
      ensures Valid() && (fine <==> made || !Matching(Wildcard(wildcards), Path(chain, name, {})))
      ensures !fine ==> domains == old(domains) && queue == old(queue)
      ensures fine ==> Progress(domains0, queue0, records, chain, todo)
    {
      var d, isRouted;
      ghost var queued, at, before, q := [], 0, domains, queue;
      d, isRouted, fine, queued, at := ObserveRecord(name, records[name], chain);
      if fine {
        GrowsTrans(domains0, before, domains);
        StillOnlyHits(domains0.Keys, before.Keys, domains.Keys, records, chain, Wildcard(wildcards), name, at);
        StillOnlyObserved(domains0, before, domains, records, chain, control, name, d, isRouted);
        StillNewTasks(queue0, q, queue, records, chain, control, name, d, AddrsOf(before, d), queued);
        if isRouted {
          RecordHandled(before, domains, q, queued, records[name], control, Path(chain, name, {}), d);
        }
        StillHandled(domains0.Keys, before, domains, q, queue, records, chain, Wildcard(wildcards), todo, name, isRouted);
      }
    }

    /**
      The locked half of a scheduled advertisement. If the domain map was cleared to nil in
      the meantime, recording a single address panics, and that is the only way it can.
     */
    method RecordAdvertised(d: string, routes: seq<Prefix>) returns (ok: bool)
      requires Valid()
      modifies this`domains
      ensures Valid() && (ok <==> made || !HasSingle(routes))
      ensures !ok ==> domains == old(domains)
      ensures ok ==> Recorded(old(domains), domains, d, routes)
      ensures old(Tracked()) ==>
        (Tracked() <==> d in old(domains) || !made || !HasSingle(routes) || d in listed || Wildcard(wildcards)(d))
    {
      RecordedNone(domains, d);
      for i := 0 to |routes|
        invariant Valid() && (made || !HasSingle(routes[..i])) && Recorded(old(domains), domains, d, routes[..i])
      {
        ghost var before := domains;
        var fine := RecordOne(d, routes[i]);
        if !fine {
          assert HasSingle([routes[i]]);
          SingleNext(routes, i);
          return false;
        }
        SingleNext(routes, i);
        RecordedNext(old(domains), before, domains, d, routes[..i], routes[i]);
        assert routes[..i + 1] == routes[..i] + [routes[i]];
      }
      assert routes[..|routes|] == routes;
      ok := true;
    }

    method RecordOne(d: string, r: Prefix) returns (ok: bool)
      requires Valid()
      modifies this`domains
      ensures Valid() && (ok <==> made || !HasSingle([r]))
      ensures if ok then Recorded(old(domains), domains, d, [r]) else domains == old(domains)
    {
      assert r in [r];
      ok := true;
      if r.bits == BitLen(r.addr) {
        var has := HasDomainAddr(d, r.addr);
        if !has {
          ok := AddDomainAddr(d, r.addr);
        }
      }
    }

    /** `ClearRoutes` */
    method ClearRoutes()
      modifies this
      ensures Valid() && !made && domains == map[] && wildcards == [] && control == [] && queue == old(queue)
      ensures Tracked()
    {
      made, domains, wildcards, control, listed := false, map[], [], [], {};
    }

    /** `updateDomains`; a domain no longer tracked has its addresses withdrawn. */
    method UpdateDomains(list: seq<string>) returns (ghost toRemove: seq<Prefix>)
      requires Valid()
      modifies this
      ensures Valid() && made && control == old(control)
      ensures domains == Kept(old(domains), list) && wildcards == Wild(list)
      ensures forall p :: p in toRemove <==> stored && IsSingleOf(DroppedDomains(old(domains), list), p)
      ensures !stored ==> toRemove == []
      ensures forall a: Ip :: AccountedFor(old(domains), list, stored, a) <==> a in KnownAddrs(domains) || Single(a) in toRemove
      ensures Tracked() && listed == Elems(Exact(list))
      ensures queue == if toRemove == [] then old(queue) else old(queue) + [WithdrawOnly(toRemove)]
    {
      var rest := ListExact(list);
      rest := KeepWildcards(rest, old(domains), list);
      var remove: seq<Prefix> := [];
      if stored {
        remove := SinglesOf(rest);
      }
      if |remove| != 0 {
        queue := queue + [WithdrawOnly(remove)];
      }
      toRemove := remove;
      listed := Elems(Exact(list));
      KeptTracked(old(domains), list);
      AccountedAsRemoved(old(domains), list, stored, remove);
    }

    /** The first loop: listed domains are moved over from the old map. */
    method ListExact(list: seq<string>) returns (rest: map<string, seq<Ip>>)
      requires Valid()
      modifies this
      ensures made && control == old(control) && queue == old(queue)
      ensures domains == Listed(old(domains), Exact(list)) && wildcards == Wild(list)
      ensures rest == old(domains) - Elems(Exact(list))
    {
      rest := domains;
      ghost var exact: seq<string> := [];
      ListNone(domains);
      made, domains, wildcards := true, map[], [];
      for i := 0 to |list|
        invariant made && control == old(control) && queue == old(queue)
        invariant exact == Exact(list[..i]) && wildcards == Wild(list[..i])
        invariant domains == Listed(old(domains), exact) && rest == old(domains) - Elems(exact)
      {
        var d := ToLower(list[i]);
        ListNext(list, i);
        if |d| == 0 {
          continue;
        }
        if "*." <= d {
          wildcards := wildcards + [d[2..]];
          continue;
        }
        ListOne(old(domains), exact, d);
        domains := domains[d := if d in rest then rest[d] else []];
        rest := rest - {d};
        exact := exact + [d];
      }
      assert list[..|list|] == list;
    }

    /** The second loop: what a wildcard still matches stays. */
    method KeepWildcards(dropped: map<string, seq<Ip>>, ghost prev: map<string, seq<Ip>>, ghost list: seq<string>)
      returns (rest: map<string, seq<Ip>>)
      requires made && wildcards == Wild(list) && domains == Listed(prev, Exact(list))
      requires dropped == prev - Elems(Exact(list))
      requires forall d :: d in prev ==> StrictlySorted(prev[d])
      modifies this`domains
      ensures Valid() && domains == Kept(prev, list)
      ensures rest == DroppedDomains(prev, list)
    {
      rest := MoveMatching(dropped);
      assert Matched(dropped, wildcards) == WildKept(prev, list);
      MovedIsKept(prev, list, dropped, domains, rest);
      RestIsDropped(prev, list);
      KeptSorted(prev, list);
    }

    method MoveMatching(dropped: map<string, seq<Ip>>) returns (rest: map<string, seq<Ip>>)
      modifies this`domains
      ensures Moved(old(domains), dropped, domains, rest, Matched(dropped, wildcards))
    {
      rest := dropped;
      var todo := dropped.Keys;
      ghost var matching := Matched(dropped, wildcards);
      assert matching - todo == {};
      while todo != {}
        invariant todo <= dropped.Keys
        invariant Moved(old(domains), dropped, domains, rest, matching - todo)
        decreases todo
      {
        var d :| d in todo;
        OneDone(matching, todo, d);
        var hit := MatchWildcard(d);
        if hit {
          MoveOne(old(domains), dropped, domains, rest, matching - todo, d);
          domains := domains[d := dropped[d]];
          rest := rest - {d};
        }
        todo := todo - {d};
      }
      assert matching - {} == matching;
    }

    method SinglesOf(m: map<string, seq<Ip>>) returns (ps: seq<Prefix>)
      ensures forall p :: p in ps <==> IsSingleOf(m, p)
    {
      ps := [];
      var todo := m.Keys;
      while todo != {}
        invariant todo <= m.Keys
        invariant forall p :: p in ps ==> IsSingleOf(m, p)
        invariant forall d, a :: d in m && d !in todo && a in m[d] ==> Single(a) in ps
        decreases todo
      {
        var d :| d in todo;
        var addrs := m[d];
        todo := todo - {d};
        for i := 0 to |addrs|
          invariant forall p :: p in ps ==> IsSingleOf(m, p)
          invariant forall e, a :: e in m && e !in todo && e != d && a in m[e] ==> Single(a) in ps
          invariant forall k :: 0 <= k < i ==> Single(addrs[k]) in ps
        {
          assert IsSingleOf(m, Single(addrs[i]));
          ps := ps + [Single(addrs[i])];
        }
      }
    }

    /** `updateRoutes`: the queued step, and exactly what it will withdraw. */
    method UpdateRoutes(routes: seq<Prefix>) returns (ghost toRemove: seq<Prefix>)
      requires Valid()
      modifies this`control, this`queue
      ensures Valid() && control == routes
      ensures routes == old(control) ==> queue == old(queue)
      ensures routes != old(control) ==>
        && queue == old(queue) + [AdvertiseThenWithdraw(routes, toRemove)]
        && forall p :: p in toRemove <==> ToRemove(stored, old(control), routes, KnownAddrs(domains), p)
    {
      toRemove := [];
      if control == routes {
        return;
      }
      var remove: seq<Prefix> := [];
      if stored {
        remove := RoutesWithout(control, routes);
      }
      var all := SinglesOf(domains);
      for i := 0 to |all|
        invariant forall p :: p in remove <==>
          (stored && p in control && p !in routes) || (p in all[..i] && Obsoleted(routes, KnownAddrs(domains), p.addr))
      {
        var a := all[i].addr;
        assert all[i] in all;
        assert all[..i + 1] == all[..i] + [all[i]];
        if exists r :: r in routes && Contains(r, a) && r != Single(a) {
          remove := remove + [all[i]];
        }
      }
      assert all[..|all|] == all;
      queue := queue + [AdvertiseThenWithdraw(routes, remove)];
      control := routes;
      toRemove := remove;
    }
  }

  lemma FirstListed(name: string)
    requires ExactOf(ToLower(name)) == [name]
    ensures Kept(map[], [name]) == map[name := []]
  {
    ExactOne(name);
  }

  /**
    A run that ends in a panic: an observed address is to be advertised, the routes are
    cleared, and then the queued advertisement is carried out.
   */
  method ClearedWhileQueued(name: string, a: Ip) returns (ok: bool)
    requires ExactOf(ToLower(name)) == [name]
    ensures !ok
  {
    var c := Observing(name, a);
    c.ClearRoutes();
    var task := c.queue[0];
    ok := c.RecordAdvertised(task.domain, task.routes);
  }

  /** A domain is configured, and an address for it observed and queued. */
  method Observing(name: string, a: Ip) returns (c: Connector)
    requires ExactOf(ToLower(name)) == [name]
    ensures fresh(c) && c.Valid() && c.made && !c.stored
    ensures |c.queue| == 1 && c.queue[0].Advertise? && c.queue[0].domain == name && Single(a) in c.queue[0].routes
  {
    FirstListed(name);
    c := new Connector(false);
    ghost var removed;
    removed := c.UpdateDomains([name]);
    assert c.domains == map[name := []];
    QueueOne(c, name, a);
  }

  /**
    Without stored routes, an address advertised for a domain that is dropped afterwards is
    forgotten and not withdrawn.
   */
  method UnstoredForgets(name: string, a: Ip) returns (c: Connector, ghost before: map<string, seq<Ip>>, ghost removed: seq<Prefix>)
    requires ExactOf(ToLower(name)) == [name]
    ensures name in before && a in before[name] && c.domains == map[] && removed == []
    ensures !AccountedFor(before, [], false, a)
  {
    c := Observing(name, a);
    var task := c.queue[0];
    var ok := c.RecordAdvertised(task.domain, task.routes);
    assert Single(a) in task.routes && HasSingle(task.routes);
    before := c.domains;
    KeptNone(before);
    removed := c.UpdateDomains([]);
  }

  lemma KeptNone(prev: map<string, seq<Ip>>)
    ensures Kept(prev, []) == map[] && Exact([]) == [] && Wild([]) == []
  {
  }

  /**
    A domain dropped while an advertisement for it is queued comes back: it is neither listed
    nor matched by a wildcard, and routed all the same.
   */
  method DroppedComesBack(name: string, a: Ip) returns (c: Connector)
    requires ExactOf(ToLower(name)) == [name]
    ensures c.Valid() && name in c.domains && c.listed == {} && c.wildcards == [] && !c.Tracked()
  {
    c := Observing(name, a);
    var task := c.queue[0];
    KeptNone(c.domains);
    ghost var removed;
    removed := c.UpdateDomains([]);
    assert Single(a) in task.routes && HasSingle(task.routes);
    var ok := c.RecordAdvertised(task.domain, task.routes);
  }

  method QueueOne(c: Connector, name: string, a: Ip)
    requires c.Valid() && c.domains == map[name := []] && c.control == [] && c.queue == []
    modifies c`domains, c`queue
    ensures c.Valid() && |c.queue| == 1 && c.queue[0].Advertise? && c.queue[0].domain == name && Single(a) in c.queue[0].routes
  {
    assert Path(map[], name, {}) == [name] && name in [name];
    assert IsNewRoute([], [a], [], Single(a));
    var d, isRouted, fine;
    ghost var queued, at;
    d, isRouted, fine, queued, at := c.ObserveRecord(name, [a], map[]);
    assert Single(a) in queued;
  }

  lemma OnlyWildcard(w: string)
    requires ToLower("*." + w) == "*." + w
    ensures Kept(map[], ["*." + w]) == map[] && Wild(["*." + w]) == [w]
  {
    ExactOne("*." + w);
    CutAt("*.", w);
  }

  /**
    Another: only a wildcard is configured, the routes are persisted and restored, and a name
    that matches is observed.
   */
  method RestoredWalkPanics(w: string, name: string, r: Prefix) returns (ok: bool)
    requires ToLower("*." + w) == "*." + w && HasSuffix(name, w)
    ensures !ok
  {
    OnlyWildcard(w);
    var c := new Connector(true);
    ghost var removed;
    removed := c.UpdateDomains(["*." + w]);
    removed := c.UpdateRoutes([r]);
    var info := c.StoreRoutes();
    var restored := new Connector.Restore(true, ThroughJson(info), {});
    assert !restored.made && restored.wildcards == [w];
    ok := WildcardWalk(restored, w, name);
  }

  method WildcardWalk(c: Connector, w: string, name: string) returns (ok: bool)
    requires c.Valid() && c.wildcards == [w] && HasSuffix(name, w)
    modifies c`domains
    ensures ok == c.made
  {
    assert Path(map[], name, {}) == [name];
    HasSuffixIff(name, w);
    assert name in [name] && w in [w] && Wildcard([w])(name);
    var d, isRouted;
    ghost var at;
    d, isRouted, ok, at := c.FindRoutedDomain(name, map[]);
  }

  /** Two walks over the same chain: the second finds exactly what is promised, whatever the first missed. */
  method WalkTwice(c: Connector, start: string, chain: map<string, string>) returns (first: bool, second: bool)
    requires c.Valid() && c.made
    modifies c`domains
    ensures second <==> Promised(old(c.domains.Keys), Wildcard(c.wildcards), Path(chain, start, {}))
    ensures first ==> second
  {
    var d, ok;
    ghost var at, again;
    d, first, ok, at := c.FindRoutedDomain(start, chain);
    SecondWalkFinds(old(c.domains), c.domains, Wildcard(c.wildcards), Path(chain, start, {}), at);
    d, second, ok, again := c.FindRoutedDomain(start, chain);
  }

  /** Wildcard hits add domains, but no addresses. */
  lemma HitsKeepAddrs(prev: map<string, seq<Ip>>, now: map<string, seq<Ip>>, wild: string -> bool, names: seq<string>)
    requires WithHits(prev, now, wild, names)
    ensures Grows(prev, now) && (forall e :: AddrsOf(now, e) == AddrsOf(prev, e))
    ensures HitKeys(prev.Keys, now.Keys, wild, names)
  {
  }

  lemma GrowsLearned(prev: map<string, seq<Ip>>, found: map<string, seq<Ip>>, now: map<string, seq<Ip>>,
                     d: string, addrs: seq<Ip>, control: seq<Prefix>)
    requires Grows(prev, found) && d in found && d in now && now == found[d := now[d]]
    requires Learned(found[d], now[d], addrs, control)
    ensures Grows(prev, now) && now.Keys == found.Keys && forall e :: e != d ==> AddrsOf(now, e) == AddrsOf(found, e)
  {
    GrowsOne(found, d, now[d]);
    GrowsTrans(prev, found, now);
  }

  /** A record that was observed is handled. */
  lemma RecordHandled(before: map<string, seq<Ip>>, now: map<string, seq<Ip>>, q: seq<Task>, queued: seq<Prefix>,
                      addrs: seq<Ip>, control: seq<Prefix>, path: seq<string>, d: string)
    requires d in path && d in now && Learned(AddrsOf(before, d), now[d], addrs, control)
    requires forall p :: p in queued <==> IsNewRoute(AddrsOf(before, d), addrs, control, p)
    ensures Handled(now, if queued == [] then q else q + [Advertise(d, queued)], addrs, path)
  {
    var q2 := if queued == [] then q else q + [Advertise(d, queued)];
    forall a | a in addrs
      ensures a in now[d] || Queued(q2, d, a)
    {
      if a !in now[d] {
        assert IsNewRoute(AddrsOf(before, d), addrs, control, Single(a));
        assert Single(a) in queued;
        assert Advertise(d, queued) in q2;
      }
    }
    assert HandledBy(now, q2, addrs, d);
  }

  lemma StillHandled(routed: set<string>, before: map<string, seq<Ip>>, now: map<string, seq<Ip>>, q: seq<Task>, q2: seq<Task>,
                     records: map<string, seq<Ip>>, chain: map<string, string>, wild: string -> bool,
                     todo: set<string>, name: string, isRouted: bool)
    requires AllHandled(routed, before, q, records, chain, wild, todo + {name})
    requires Grows(before, now) && q <= q2 && routed <= before.Keys && name in records
    requires isRouted <==> Routed(before.Keys, wild, Path(chain, name, {}))
    requires isRouted ==> Handled(now, q2, records[name], Path(chain, name, {}))
    ensures AllHandled(routed, now, q2, records, chain, wild, todo)
  {
    forall n | n in records && n !in todo && Routed(routed, wild, Path(chain, n, {}))
      ensures Handled(now, q2, records[n], Path(chain, n, {}))
    {
      if n == name {
        RoutedStays(routed, before.Keys, wild, Path(chain, n, {}));
      } else {
        HandledStays(before, q, now, q2, records[n], Path(chain, n, {}));
      }
    }
  }

  lemma StillOnlyObserved(prev: map<string, seq<Ip>>, before: map<string, seq<Ip>>, now: map<string, seq<Ip>>,
                          records: map<string, seq<Ip>>, chain: map<string, string>, control: seq<Prefix>,
                          name: string, d: string, isRouted: bool)
    requires OnlyObserved(prev, before, records, chain, control)
    requires name in records && d in Path(chain, name, {})
    requires forall e :: e != d || !isRouted ==> AddrsOf(now, e) == AddrsOf(before, e)
    requires isRouted ==> d in now && Learned(AddrsOf(before, d), now[d], records[name], control)
    ensures OnlyObserved(prev, now, records, chain, control)
  {
    forall e, x | x in AddrsOf(now, e) && x !in AddrsOf(prev, e)
      ensures Observed(records, chain, e, x) && CoveredBy(control, x)
    {
      if x !in AddrsOf(before, e) {
        assert e == d && x in records[name];
      }
    }
  }

  lemma StillNewTasks(q0: seq<Task>, q: seq<Task>, q2: seq<Task>, records: map<string, seq<Ip>>, chain: map<string, string>,
                      control: seq<Prefix>, name: string, d: string, known: seq<Ip>, queued: seq<Prefix>)
    requires q0 <= q && q2 == if queued == [] then q else q + [Advertise(d, queued)]
    requires forall i :: |q0| <= i < |q| ==> NewTask(records, chain, control, q[i])
    requires name in records && d in Path(chain, name, {})
    requires forall p :: p in queued ==> IsNewRoute(known, records[name], control, p)
    ensures q0 <= q2 && forall i :: |q0| <= i < |q2| ==> NewTask(records, chain, control, q2[i])
  {
    if queued != [] {
      forall p | p in queued
        ensures p == Single(p.addr) && Observed(records, chain, d, p.addr) && !CoveredBy(control, p.addr)
      {
        assert IsNewRoute(known, records[name], control, p);
      }
      assert NewTask(records, chain, control, Advertise(d, queued));
    }
  }

  /** These of the dropped domains were moved back among the listed ones. */
  ghost predicate Moved(listed: map<string, seq<Ip>>, dropped: map<string, seq<Ip>>,
                        now: map<string, seq<Ip>>, rest: map<string, seq<Ip>>, moved: set<string>)
  {
    && rest == dropped - moved
    && (forall d :: d in now <==> d in listed || d in moved)
    && (forall d :: d in listed && d !in moved ==> now[d] == listed[d])
    && (forall d :: d in moved ==> d in dropped && now[d] == dropped[d])
  }

  lemma MoveOne(listed: map<string, seq<Ip>>, dropped: map<string, seq<Ip>>, now: map<string, seq<Ip>>,
                rest: map<string, seq<Ip>>, moved: set<string>, d: string)
    requires Moved(listed, dropped, now, rest, moved) && d in dropped
    ensures Moved(listed, dropped, now[d := dropped[d]], rest - {d}, moved + {d})
  {
  }

  ghost function Matched(m: map<string, seq<Ip>>, wildcards: seq<string>): set<string> {
    set d | d in m && MatchesWildcard(wildcards, d)
  }

  lemma OneDone(matching: set<string>, todo: set<string>, d: string)
    requires d in todo
    ensures matching - (todo - {d}) == (matching - todo) + if d in matching then {d} else {}
  {
  }

  /** The old domains that only a wildcard keeps. */
  ghost function WildKept(prev: map<string, seq<Ip>>, list: seq<string>): set<string> {
    set d | d in prev && d !in Exact(list) && MatchesWildcard(Wild(list), d)
  }

  lemma MovedIsKept(prev: map<string, seq<Ip>>, list: seq<string>, dropped: map<string, seq<Ip>>,
                    now: map<string, seq<Ip>>, rest: map<string, seq<Ip>>)
    requires dropped == prev - Elems(Exact(list))
    requires Moved(Listed(prev, Exact(list)), dropped, now, rest, WildKept(prev, list))
    ensures now == Kept(prev, list)
  {
    var k := Kept(prev, list);
    forall d ensures (d in now <==> d in k) && (d in now ==> now[d] == k[d]) {
      KeptAt(prev, list, d);
    }
  }

  lemma RestIsDropped(prev: map<string, seq<Ip>>, list: seq<string>)
    ensures prev - Elems(Exact(list)) - WildKept(prev, list) == DroppedDomains(prev, list)
  {
    var l, r := prev - Elems(Exact(list)) - WildKept(prev, list), DroppedDomains(prev, list);
    forall d ensures d in l <==> d in r {
    }
  }

  lemma KeptTracked(prev: map<string, seq<Ip>>, list: seq<string>)
    ensures forall d :: d in Kept(prev, list) ==> d in Elems(Exact(list)) || Wildcard(Wild(list))(d)
  {
    forall d | d in Kept(prev, list) ensures d in Elems(Exact(list)) || Wildcard(Wild(list))(d) {
      KeptAt(prev, list, d);
    }
  }

  lemma KeptSorted(prev: map<string, seq<Ip>>, list: seq<string>)
    requires forall d :: d in prev ==> StrictlySorted(prev[d])
    ensures forall d :: d in Kept(prev, list) ==> StrictlySorted(Kept(prev, list)[d])
  {
    forall d | d in Kept(prev, list) ensures StrictlySorted(Kept(prev, list)[d]) {
      KeptAt(prev, list, d);
    }
  }

  /** Every address recorded for some domain. */
  ghost function KnownAddrs(m: map<string, seq<Ip>>): set<Ip> {
    set d, a | d in m && a in m[d] :: a
  }

  lemma ListNone(prev: map<string, seq<Ip>>)
    ensures Listed(prev, []) == map[] && prev - Elems([]) == prev
  {
  }

  lemma ListNext(list: seq<string>, i: nat)
    requires i < |list|
    ensures Exact(list[..i + 1]) == Exact(list[..i]) + ExactOf(ToLower(list[i]))
    ensures Wild(list[..i + 1]) == Wild(list[..i]) + WildOf(ToLower(list[i]))
    ensures Exact(list[..i]) + [] == Exact(list[..i]) && Wild(list[..i]) + [] == Wild(list[..i])
  {
    assert list[..i + 1][..i] == list[..i];
  }

  /** Listing one more name: new, it takes its addresses over; again, it loses them. */
  lemma ListOne(prev: map<string, seq<Ip>>, exact: seq<string>, d: string)
    ensures var rest := prev - Elems(exact);
      && Listed(prev, exact + [d]) == Listed(prev, exact)[d := if d in rest then rest[d] else []]
      && prev - Elems(exact + [d]) == rest - {d}
  {
    RestOne(prev, exact, d);
    var l, r := Listed(prev, exact + [d]), Listed(prev, exact)[d := if d in prev && d !in exact then prev[d] else []];
    forall e ensures (e in l <==> e in r) && (e in l ==> l[e] == r[e]) {
      ListOneAt(prev, exact, d, e);
    }
    assert l == r;
  }

  lemma RestOne(prev: map<string, seq<Ip>>, exact: seq<string>, d: string)
    ensures prev - Elems(exact + [d]) == prev - Elems(exact) - {d}
    ensures d in prev - Elems(exact) <==> d in prev && d !in exact
  {
    assert Elems(exact + [d]) == Elems(exact) + {d};
  }

  lemma ListOneAt(prev: map<string, seq<Ip>>, exact: seq<string>, d: string, e: string)
    ensures var l, m := Listed(prev, exact + [d]), Listed(prev, exact);
      && (e in l <==> e in m || e == d)
      && (e in m && e != d ==> l[e] == m[e])
      && l[d] == if d in prev && d !in exact then prev[d] else []
  {
    CountLast(exact, d, e);
    CountLast(exact, d, d);
    CountIn(exact, e);
    CountIn(exact, d);
  }
}
