/**
  Prefixes and route advertisement: what `AppConnector.updateRoutes` adds and withdraws,
  and whether the addresses of the new routes stay covered while it does.
 */
module Routes {
  import opened Bytes
  import opened Netip

  // ----- blocks of addresses: n shifted right, and the first and last of its block -----

  function Shr(n: nat, k: nat): nat {
    if k == 0 then n else Shr(n / 2, k - 1)
  }

  function First(n: nat, k: nat): nat {
    if k == 0 then n else 2 * First(n / 2, k - 1)
  }

  function Last(n: nat, k: nat): nat {
    if k == 0 then n else 2 * Last(n / 2, k - 1) + 1
  }

  lemma {:induction false} ShrMonotone(x: nat, y: nat, k: nat)
    requires x <= y
    ensures Shr(x, k) <= Shr(y, k)
  {
    if k > 0 {
      ShrMonotone(x / 2, y / 2, k - 1);
    }
  }

  lemma {:induction false} BlockBounds(x: nat, n: nat, k: nat)
    requires Shr(x, k) == Shr(n, k)
    ensures First(n, k) <= x <= Last(n, k)
    ensures Shr(First(n, k), k) == Shr(n, k) == Shr(Last(n, k), k)
    decreases k
  {
    if k > 0 {
      BlockBounds(x / 2, n / 2, k - 1);
    }
  }

  /** Two numbers in one block of size 2^k are in one block of any larger size. */
  lemma {:induction false} CoarserBlock(x: nat, y: nat, k: nat, j: nat)
    requires k <= j && Shr(x, k) == Shr(y, k)
    ensures Shr(x, j) == Shr(y, j)
    decreases k
  {
    if k > 0 {
      CoarserBlock(x / 2, y / 2, k - 1, j - 1);
    }
  }

  // ----- prefixes -----

  /** Addresses without a zone: those of A and AAAA records, and of prefixes. */
  type Ip = a: Addr | a.V4? || (a.V6? && a.zone == "") witness V4(0)

  function BitLen(a: Ip): nat {
    if a.V4? then 32 else 128
  }

  function Num(a: Ip): nat {
    if a.V4? then a.v4 else a.v6
  }

  datatype Prefix = Prefix(addr: Ip, bits: nat)

  predicate Valid(p: Prefix) {
    p.bits <= BitLen(p.addr)
  }

  /** The number of host bits. */
  function Host(p: Prefix): nat
    requires Valid(p)
  {
    BitLen(p.addr) - p.bits
  }

  predicate Contains(p: Prefix, a: Ip) {
    Valid(p) && (p.addr.V4? <==> a.V4?) && Shr(Num(a), Host(p)) == Shr(Num(p.addr), Host(p))
  }

  /** The prefix of a single address. */
  function Single(a: Ip): (p: Prefix)
    ensures Contains(p, a)
  {
    Prefix(a, BitLen(a))
  }

  lemma SingleContains(a: Ip, b: Ip)
    ensures Contains(Single(a), b) <==> a == b
  {
  }

  lemma SingleIfNoHostBits(p: Prefix, a: Ip)
    requires Contains(p, a) && p.bits == BitLen(p.addr)
    ensures p == Single(a)
  {
  }

  function Pow2(k: nat): (p: nat)
    ensures p > 0
  {
    if k == 0 then 1 else 2 * Pow2(k - 1)
  }

  lemma HalfDiv(n: nat, p: nat)
    requires p > 0
    ensures n / 2 / p == n / (2 * p)
  {
    var q, r := n / 2 / p, n / 2 % p;
    assert n / 2 == p * q + r;
    Twice(q, p);
    Quotient(n, 2 * p, q, 2 * r + n % 2);
  }

  /** A block of k host bits is a multiple of 2^k and the 2^k - 1 numbers after it. */
  lemma {:induction false} BlockIs(n: nat, k: nat)
    ensures Shr(n, k) == n / Pow2(k)
    ensures First(n, k) == n / Pow2(k) * Pow2(k)
    ensures Last(n, k) == First(n, k) + Pow2(k) - 1
  {
    if k > 0 {
      BlockIs(n / 2, k - 1);
      HalfDiv(n, Pow2(k - 1));
      Twice(n / Pow2(k), Pow2(k - 1));
    }
  }

  lemma Twice(q: nat, p: nat)
    ensures 2 * (q * p) == q * (2 * p)
  {
  }

  /** A prefix contains the addresses of its family that agree with it in all but the host bits. */
  lemma ContainsIff(p: Prefix, a: Ip)
    ensures Contains(p, a) <==>
      && p.bits <= BitLen(p.addr) == BitLen(a)
      && Num(a) / Pow2(BitLen(a) - p.bits) == Num(p.addr) / Pow2(BitLen(a) - p.bits)
  {
    if p.bits <= BitLen(p.addr) == BitLen(a) {
      BlockIs(Num(a), Host(p));
      BlockIs(Num(p.addr), Host(p));
    }
  }

  // ----- updateRoutes -----

  function Elems<T>(s: seq<T>): set<T> {
    set x | x in s
  }

  predicate Covered(adv: set<Prefix>, a: Ip) {
    exists p :: p in adv && Contains(p, a)
  }

  /** The address of a domain is now inside a new route that is not just that address. */
  predicate Obsoleted(routes: seq<Prefix>, known: set<Ip>, a: Ip) {
    a in known && exists r :: r in routes && Contains(r, a) && r != Single(a)
  }

  /** `routesWithout` */
  function RoutesWithout(a: seq<Prefix>, b: seq<Prefix>): (r: seq<Prefix>)
    ensures forall p :: p in r <==> p in a && p !in b
  {
    if a == [] then []
    else (if a[0] in b then [] else [a[0]]) + RoutesWithout(a[1..], b)
  }

  /** The prefixes `updateRoutes` withdraws. */
  predicate ToRemove(stored: bool, control: seq<Prefix>, routes: seq<Prefix>, known: set<Ip>, p: Prefix) {
    || (stored && p in control && p !in routes)
    || (p == Single(p.addr) && Obsoleted(routes, known, p.addr))
  }

  /**
    Withdrawn are the stored routes that are gone and, for each known address that a new route
    with host bits contains, the route of that address alone.
   */
  lemma WithdrawnIff(stored: bool, control: seq<Prefix>, routes: seq<Prefix>, known: set<Ip>, p: Prefix)
    ensures ToRemove(stored, control, routes, known, p) <==>
      || (stored && p in control && p !in routes)
      || (p == Prefix(p.addr, BitLen(p.addr)) && p.addr in known
          && exists r :: r in routes && Contains(r, p.addr) && r.bits < BitLen(r.addr))
  {
    forall r | r in routes && Contains(r, p.addr)
      ensures r != Single(p.addr) <==> r.bits < BitLen(r.addr)
    {
      if r.bits == BitLen(r.addr) {
        SingleIfNoHostBits(r, p.addr);
      }
    }
  }

  /**
    With an advertiser that advertises what it is told to, no address of the new routes loses
    coverage, even when a new route is itself among those withdrawn.
   */
  lemma NewRoutesStayCovered(adv: set<Prefix>, stored: bool, control: seq<Prefix>, routes: seq<Prefix>,
                             known: set<Ip>, toRemove: set<Prefix>, a: Ip)
    requires forall p :: p in toRemove <==> ToRemove(stored, control, routes, known, p)
    requires Covered(Elems(routes), a)
    ensures Covered((adv + Elems(routes)) - toRemove, a)
  {
    var r :| r in routes && Contains(r, a);
    if r in toRemove {
      SingleContains(r.addr, a);
      var r2 :| r2 in routes && Contains(r2, a) && r2 != Single(a);
      if r2 in toRemove {
        SingleIfNoHostBits(r2, a);
        assert false;
      }
      assert r2 in (adv + Elems(routes)) - toRemove;
    } else {
      assert r in (adv + Elems(routes)) - toRemove;
    }
  }

  // ----- the local backend as advertiser -----

  predicate Masked(p: Prefix) {
    Valid(p) && Num(p.addr) == First(Num(p.addr), Host(p))
  }

  /** r contains both ends of p, and so all of it. */
  predicate Spans(r: Prefix, p: Prefix) {
    Valid(p) && Contains(r, p.addr) && Shr(Last(Num(p.addr), Host(p)), Host(r)) == Shr(Num(r.addr), Host(r))
  }

  /** `coveredRouteRangeNoDefault` for one advertised prefix: default routes do not count. */
  predicate Covers(r: Prefix, p: Prefix) {
    !(r.bits == 0 && Num(r.addr) == 0) && Spans(r, p)
  }

  predicate CoveredByAny(final: seq<Prefix>, p: Prefix) {
    exists r :: r in final && Covers(r, p)
  }

  predicate AllMasked(routes: seq<Prefix>) {
    forall p :: p in routes ==> Masked(p)
  }

  /** The loop of `LocalBackend.AdvertiseRoute`, over routes it is allowed to advertise. */
  function AdvertiseLocal(final: seq<Prefix>, routes: seq<Prefix>): seq<Prefix>
    decreases |routes|
  {
    if routes == [] then final
    else if routes[0] in final || CoveredByAny(final, routes[0]) then AdvertiseLocal(final, routes[1..])
    else AdvertiseLocal(final + [routes[0]], routes[1..])
  }

  /** A route with host bits set is an error, and then none of the routes is advertised. */
  function AdvertiseRoute(adv: seq<Prefix>, routes: seq<Prefix>): seq<Prefix> {
    if AllMasked(routes) then AdvertiseLocal(adv, routes) else adv
  }

  /** What is advertised after the queued step of `updateRoutes`, which withdraws even after an error. */
  ghost function AfterUpdate(adv: seq<Prefix>, routes: seq<Prefix>, toRemove: seq<Prefix>): set<Prefix>
  {
    Elems(AdvertiseRoute(adv, routes)) - Elems(toRemove)
  }

  ghost predicate StaysCovered(adv: seq<Prefix>, routes: seq<Prefix>, toRemove: seq<Prefix>)
  {
    forall r, a :: r in routes && Contains(r, a) ==> Covered(AfterUpdate(adv, routes, toRemove), a)
  }

  /** A new route that is neither withdrawn nor inside a prefix that is. */
  predicate Anchor(toRemove: seq<Prefix>, s: Prefix) {
    s !in toRemove && !CoveredByAny(toRemove, s)
  }

  predicate InAnchor(routes: seq<Prefix>, toRemove: seq<Prefix>, r: Prefix) {
    exists s :: s in routes && Spans(s, r) && Anchor(toRemove, s)
  }

  /** All routes are masked and lie in an anchor each. */
  ghost predicate Anchored(routes: seq<Prefix>, toRemove: seq<Prefix>) {
    AllMasked(routes) && forall r {:trigger InAnchor(routes, toRemove, r)} :: r in routes ==> InAnchor(routes, toRemove, r)
  }

  /** Everything between two covered ends is covered. */
  lemma SpansAll(r: Prefix, p: Prefix, a: Ip)
    requires Masked(p) && Spans(r, p) && Contains(p, a)
    ensures Contains(r, a)
  {
    BlockBounds(Num(a), Num(p.addr), Host(p));
    ShrMonotone(Num(p.addr), Num(a), Host(r));
    ShrMonotone(Num(a), Last(Num(p.addr), Host(p)), Host(r));
  }

  /** A prefix spans another iff it contains all of its addresses. */
  lemma SpansIff(r: Prefix, p: Prefix)
    requires Masked(p)
    ensures Spans(r, p) <==> forall a :: Contains(p, a) ==> Contains(r, a)
  {
    if Spans(r, p) {
      forall a | Contains(p, a) ensures Contains(r, a) {
        SpansAll(r, p, a);
      }
    } else {
      var n, k := Num(p.addr), Host(p);
      BlockBounds(n, n, k);
      LastFits(p);
      var last: Ip := if p.addr.V4? then V4(Last(n, k)) else V6(Last(n, k), "");
      assert Contains(p, p.addr) && Contains(p, last);
    }
  }

  lemma LastFits(p: Prefix)
    requires Valid(p)
    ensures Last(Num(p.addr), Host(p)) < if p.addr.V4? then 0x1_0000_0000 else 0x1_0000_0000_0000_0000_0000_0000_0000_0000
  {
    Pow2Width();
    LastBelow(Num(p.addr), Host(p), BitLen(p.addr));
  }

  lemma {:induction false} LastBelow(n: nat, k: nat, w: nat)
    requires k <= w && n < Pow2(w)
    ensures Last(n, k) < Pow2(w)
  {
    if k > 0 {
      LastBelow(n / 2, k - 1, w - 1);
    }
  }

  lemma Pow2Eight(k: nat)
    ensures Pow2(k + 8) == 256 * Pow2(k)
  {
    assert Pow2(k + 2) == 4 * Pow2(k);
    assert Pow2(k + 4) == 4 * Pow2(k + 2);
    assert Pow2(k + 6) == 4 * Pow2(k + 4);
  }

  lemma {:induction false} Pow2Bytes(n: nat)
    ensures Pow2(8 * n) == Pow256(n)
  {
    if n > 0 {
      Pow2Bytes(n - 1);
      Pow2Eight(8 * (n - 1));
    }
  }

  lemma Pow2Width()
    ensures Pow2(32) == 0x1_0000_0000
    ensures Pow2(128) == 0x1_0000_0000_0000_0000_0000_0000_0000_0000
  {
    Pow2Bytes(4);
    Pow2Bytes(16);
    Widths();
    Width128();
  }

  /** A default route covers nothing; any other prefix covers the routes all of whose addresses it contains. */
  lemma CoversIff(r: Prefix, p: Prefix)
    requires Masked(p)
    ensures Covers(r, p) <==>
      r != Prefix(V4(0), 0) && r != Prefix(V6(0, ""), 0) && forall a :: Contains(p, a) ==> Contains(r, a)
  {
    SpansIff(r, p);
  }

  lemma SpansTrans(p: Prefix, q: Prefix, r: Prefix)
    requires Masked(q) && Masked(r) && Spans(p, q) && Spans(q, r)
    ensures Spans(p, r)
  {
    var first, last := Num(r.addr), Last(Num(r.addr), Host(r));
    BlockBounds(first, Num(q.addr), Host(q));
    BlockBounds(last, Num(q.addr), Host(q));
    ShrMonotone(Num(q.addr), first, Host(p));
    ShrMonotone(first, Last(Num(q.addr), Host(q)), Host(p));
    ShrMonotone(Num(q.addr), last, Host(p));
    ShrMonotone(last, Last(Num(q.addr), Host(q)), Host(p));
  }

  /** Prefixes that share an address are nested one in the other. */
  lemma Nested(p: Prefix, q: Prefix, a: Ip)
    requires Masked(p) && Masked(q) && Contains(p, a) && Contains(q, a)
    ensures Spans(p, q) || Spans(q, p)
  {
    var x, y := Num(p.addr), Num(q.addr);
    BlockBounds(y, y, Host(q));
    BlockBounds(x, x, Host(p));
    if Host(q) <= Host(p) {
      CoarserBlock(Num(a), y, Host(q), Host(p));
      CoarserBlock(y, Last(y, Host(q)), Host(q), Host(p));
    } else {
      CoarserBlock(Num(a), x, Host(p), Host(q));
      CoarserBlock(x, Last(x, Host(p)), Host(p), Host(q));
    }
  }

  lemma {:induction false} AdvertiseGrows(final: seq<Prefix>, routes: seq<Prefix>, p: Prefix)
    requires p in final
    ensures p in AdvertiseLocal(final, routes)
    decreases |routes|
  {
    if routes != [] {
      AdvertiseGrows(final, routes[1..], p);
      AdvertiseGrows(final + [routes[0]], routes[1..], p);
    }
  }

  /** A route that was asked for is advertised, or a prefix that covers it is. */
  lemma {:induction false} AdvertiseRepresents(final: seq<Prefix>, routes: seq<Prefix>, s: Prefix)
    requires s in routes
    ensures exists c :: c in AdvertiseLocal(final, routes) && (c == s || Covers(c, s))
    decreases |routes|
  {
    var skip := routes[0] in final || CoveredByAny(final, routes[0]);
    var rest := if skip then final else final + [routes[0]];
    assert AdvertiseLocal(final, routes) == AdvertiseLocal(rest, routes[1..]);
    if s != routes[0] {
      AdvertiseRepresents(rest, routes[1..], s);
    } else if skip && s !in final {
      var c :| c in final && Covers(c, s);
      AdvertiseGrows(rest, routes[1..], c);
    } else {
      assert s in rest;
      AdvertiseGrows(rest, routes[1..], s);
    }
  }

  /** A prefix newly advertised was asked for and not covered by what was there. */
  lemma {:induction false} AdvertiseAdds(final: seq<Prefix>, routes: seq<Prefix>, p: Prefix)
    requires p in AdvertiseLocal(final, routes) && p !in final
    ensures p in routes && !CoveredByAny(final, p)
    decreases |routes|
  {
    if routes[0] in final || CoveredByAny(final, routes[0]) {
      AdvertiseAdds(final, routes[1..], p);
    } else if p != routes[0] {
      AdvertiseAdds(final + [routes[0]], routes[1..], p);
      forall r | r in final ensures !Covers(r, p) {
        assert r in final + [routes[0]];
      }
    }
  }

  lemma AnchorCovers(adv: seq<Prefix>, routes: seq<Prefix>, toRemove: seq<Prefix>, s: Prefix, a: Ip)
    requires AllMasked(routes) && s in routes && Anchor(toRemove, s) && Contains(s, a)
    ensures Covered(AfterUpdate(adv, routes, toRemove), a)
  {
    AdvertiseRepresents(adv, routes, s);
    var c :| c in AdvertiseLocal(adv, routes) && (c == s || Covers(c, s));
    if c != s {
      SpansAll(c, s, a);
    }
    assert c in AfterUpdate(adv, routes, toRemove);
  }

  lemma RouteStaysCovered(adv: seq<Prefix>, routes: seq<Prefix>, toRemove: seq<Prefix>, r: Prefix, a: Ip)
    requires AllMasked(routes) && InAnchor(routes, toRemove, r) && r in routes && Contains(r, a)
    ensures Covered(AfterUpdate(adv, routes, toRemove), a)
  {
    var s :| s in routes && Spans(s, r) && Anchor(toRemove, s);
    SpansAll(s, r, a);
    AnchorCovers(adv, routes, toRemove, s, a);
  }

  lemma AnchoredStaysCovered(adv: seq<Prefix>, routes: seq<Prefix>, toRemove: seq<Prefix>)
    requires Anchored(routes, toRemove)
    ensures StaysCovered(adv, routes, toRemove)
  {
    forall r, a | r in routes && Contains(r, a) ensures Covered(AfterUpdate(adv, routes, toRemove), a) {
      assert InAnchor(routes, toRemove, r);
      RouteStaysCovered(adv, routes, toRemove, r, a);
    }
  }

  /**
    If what is advertised is what is to be withdrawn, a route without an anchor is lost, and so
    is every route of a list with one that is not masked.
   */
  lemma UnanchoredIsLost(routes: seq<Prefix>, toRemove: seq<Prefix>, r: Prefix)
    requires r in routes && (!AllMasked(routes) || !InAnchor(routes, toRemove, r))
    requires forall p :: p in routes && p in toRemove ==> p == Single(p.addr)
    ensures !Covered(AfterUpdate(toRemove, routes, toRemove), r.addr)
  {
    if AllMasked(routes) {
      forall p | p in AfterUpdate(toRemove, routes, toRemove) ensures !Contains(p, r.addr) {
        AdvertiseAdds(toRemove, routes, p);
        if Contains(p, r.addr) {
          UnanchoredNotIn(routes, toRemove, r, p);
        }
      }
    }
  }

  lemma UnanchoredNotIn(routes: seq<Prefix>, toRemove: seq<Prefix>, r: Prefix, p: Prefix)
    requires AllMasked(routes) && r in routes && !InAnchor(routes, toRemove, r)
    requires forall q :: q in routes && q in toRemove ==> q == Single(q.addr)
    requires p in routes && Anchor(toRemove, p)
    ensures !Contains(p, r.addr)
  {
    if Contains(p, r.addr) {
      BlockBounds(Num(r.addr), Num(r.addr), Host(r));
      Nested(p, r, r.addr);
      if Spans(p, r) {
        assert false;
      } else if r in toRemove {
        SingleContains(r.addr, p.addr);
        assert false;
      } else {
        var c :| c in toRemove && Covers(c, r);
        SpansTrans(c, r, p);
        assert false;
      }
    }
  }

  /**
    The local backend does not advertise a route that an advertised prefix covers, and the
    withdrawal that follows may take that prefix away; and one route with host bits set keeps it
    from advertising any. So the new routes stay covered, whatever is advertised, exactly if
    all are masked and each of them lies in a new route that is neither withdrawn itself nor
    covered by a prefix that is, or if there is nothing to cover.
   */
  lemma LocalBackendCoversIff(routes: seq<Prefix>, toRemove: seq<Prefix>)
    requires forall p :: p in routes && p in toRemove ==> p == Single(p.addr)
    ensures (forall adv :: StaysCovered(adv, routes, toRemove))
       <==> Anchored(routes, toRemove) || forall r :: r in routes ==> !Valid(r)
  {
    if Anchored(routes, toRemove) {
      forall adv ensures StaysCovered(adv, routes, toRemove) {
        AnchoredStaysCovered(adv, routes, toRemove);
      }
    } else if r :| r in routes && Valid(r) {
      var lost := if AllMasked(routes) then LostRoute(routes, toRemove) else r;
      UnanchoredIsLost(routes, toRemove, lost);
      assert Contains(lost, lost.addr);
      assert !StaysCovered(toRemove, routes, toRemove);
    }
  }

  ghost function LostRoute(routes: seq<Prefix>, toRemove: seq<Prefix>): (r: Prefix)
    requires AllMasked(routes) && !Anchored(routes, toRemove)
    ensures r in routes && Valid(r) && !InAnchor(routes, toRemove, r)
  {
    var r :| r in routes && !InAnchor(routes, toRemove, r);
    assert Masked(r);
    r
  }

  /** The removal list of `updateRoutes` takes from the new routes only single addresses. */
  lemma OnlySinglesOverlap(stored: bool, control: seq<Prefix>, routes: seq<Prefix>, known: set<Ip>, p: Prefix)
    requires ToRemove(stored, control, routes, known, p) && p in routes
    ensures p == Single(p.addr)
  {
  }

  /** Narrowing a stored control route 10.0.0.0/30 to 10.0.0.0/31 leaves nothing advertised. */
  lemma NarrowingLosesCoverage()
    ensures var wide, narrow := Prefix(V4(0x0a00_0000), 30), Prefix(V4(0x0a00_0000), 31);
      && Masked(wide) && Masked(narrow)
      && (forall p :: ToRemove(true, [wide], [narrow], {}, p) <==> p == wide)
      && AfterUpdate([wide], [narrow], [wide]) == {}
  {
    var wide, narrow := Prefix(V4(0x0a00_0000), 30), Prefix(V4(0x0a00_0000), 31);
    assert Covers(wide, narrow);
    assert wide in [wide];
    assert [narrow][1..] == [];
    assert AdvertiseLocal([wide], [narrow]) == [wide];
    assert Masked(narrow);
  }
}
