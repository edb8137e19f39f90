/**
  `sortAndDedup`: the listening ports, sorted in place and reduced to one entry per
  (Port, Proto).
 */
module PortList {
  import opened Netip
  import opened Strings

  datatype Port = Port(proto: string, port: u16, process: string, pid: int)

  const ZERO := Port("", 0, "", 0)

  predicate SameKey(a: Port, b: Port) {
    a.proto == b.proto && a.port == b.port
  }

  predicate KeyLess(a: Port, b: Port) {
    if a.port != b.port then a.port < b.port else Less(a.proto, b.proto)
  }

  predicate LessThan(a: Port, b: Port) {
    if a.port != b.port then a.port < b.port
    else if a.proto != b.proto then Less(a.proto, b.proto)
    else Less(a.process, b.process)
  }

  /** `LessThan` is a strict weak order, as `sort.Slice` demands: what it cannot tell apart differs only in Pid. */
  lemma LessThanIsOrder(a: Port, b: Port, c: Port)
    ensures !LessThan(a, a)
    ensures LessThan(a, b) && LessThan(b, c) ==> LessThan(a, c)
    ensures !LessThan(a, b) && !LessThan(b, a) <==> a.(pid := b.pid) == b
  {
    LessIrreflexive(a.process);
    LessIrreflexive(a.proto);
    LessTotal(a.proto, b.proto);
    LessTotal(a.process, b.process);
    if a.port == b.port == c.port {
      if Less(a.proto, b.proto) && Less(b.proto, c.proto) {
        LessTransitive(a.proto, b.proto, c.proto);
        LessIrreflexive(c.proto);
      }
      if Less(a.process, b.process) && Less(b.process, c.process) {
        LessTransitive(a.process, b.process, c.process);
      }
      if Less(a.proto, b.proto) && Less(b.proto, a.proto) {
        LessTransitive(a.proto, b.proto, a.proto);
      }
    }
    if Less(a.proto, b.proto) && Less(b.proto, a.proto) {
      LessTransitive(a.proto, b.proto, a.proto);
    }
    if Less(a.process, b.process) && Less(b.process, a.process) {
      LessTransitive(a.process, b.process, a.process);
    }
  }

  ghost predicate Sorted(s: seq<Port>) {
    forall i, j :: 0 <= i < j < |s| ==> !LessThan(s[j], s[i])
  }

  /** What the loop keeps of the ports it has read; `last` starts out as the zero Port. */
  function Dedup(s: seq<Port>): seq<Port> {
    if s == [] then []
    else
      var out, p := Dedup(s[..|s| - 1]), s[|s| - 1];
      if SameKey(Last(out), p) then out else out + [p]
  }

  function Last(out: seq<Port>): Port {
    if out == [] then ZERO else out[|out| - 1]
  }

  /** The loop over the sorted array: it writes to the prefix it has already read. */
  method DedupInPlace(ps: array<Port>) returns (n: nat)
    modifies ps
    ensures n <= ps.Length && ps[..n] == Dedup(old(ps[..]))
  {
    n := 0;
    var last := ZERO;
    ghost var all := ps[..];
    var i := 0;
    while i < ps.Length
      invariant n <= i <= ps.Length
      invariant forall k :: i <= k < ps.Length ==> ps[k] == all[k]
      invariant ps[..n] == Dedup(all[..i]) && last == Last(ps[..n])
    {
      var p := ps[i];
      ghost var out := ps[..n];
      assert all[..i + 1][..i] == all[..i] && all[..i + 1][i] == p;
      if !SameKey(last, p) {
        ps[n] := p;
        assert ps[..n + 1] == out + [p];
        n := n + 1;
        last := p;
      }
      i := i + 1;
    }
    assert all[..i] == all;
  }

  // ----- what is kept -----

  ghost predicate StrictByKey(s: seq<Port>) {
    forall i, j :: 0 <= i < j < |s| ==> KeyLess(s[i], s[j])
  }

  /** q stands for p: same (Port, Proto), and no greater a process name. */
  predicate Represents(q: Port, p: Port) {
    SameKey(q, p) && !Less(p.process, q.process)
  }

  ghost predicate Represented(out: seq<Port>, p: Port) {
    exists q :: q in out && Represents(q, p)
  }

  /** What is true of the output after each port read. */
  ghost predicate Kept(s: seq<Port>, out: seq<Port>) {
    && StrictByKey(out)
    && (forall q :: q in out ==> q in s && !SameKey(q, ZERO))
    && (forall p :: p in s && !SameKey(p, ZERO) ==> Represented(out, p))
    && (s != [] ==> SameKey(Last(out), s[|s| - 1]))
  }

  lemma KeyOrder(a: Port, b: Port)
    requires !LessThan(b, a)
    ensures SameKey(a, b) || KeyLess(a, b)
    ensures SameKey(b, ZERO) ==> SameKey(a, ZERO)
    ensures SameKey(a, b) ==> Represents(a, b)
  {
    LessTotal(a.proto, b.proto);
  }

  lemma AppendStrict(out: seq<Port>, p: Port)
    requires StrictByKey(out) && (out != [] ==> KeyLess(Last(out), p))
    ensures StrictByKey(out + [p])
  {
    forall i | 0 <= i < |out| - 1
      ensures KeyLess(out[i], p)
    {
      if out[i].port == Last(out).port == p.port {
        LessTransitive(out[i].proto, Last(out).proto, p.proto);
      }
    }
  }

  lemma KeptWithout(front: seq<Port>, p: Port, out: seq<Port>)
    requires Sorted(front + [p]) && Kept(front, out) && SameKey(Last(out), p)
    ensures Kept(front + [p], out)
  {
    if out != [] {
      var q := Last(out);
      assert q in out;
      var i :| 0 <= i < |front| && front[i] == q;
      assert (front + [p])[i] == q && (front + [p])[|front|] == p;
      KeyOrder(q, p);
      assert Represented(out, p);
    }
  }

  lemma NextKey(prev: Port, p: Port, last: Port)
    requires !LessThan(p, prev) && SameKey(last, prev) && !SameKey(last, p)
    ensures KeyLess(last, p) && !SameKey(p, ZERO)
  {
    KeyOrder(prev, p);
  }

  lemma NextStrict(front: seq<Port>, p: Port, out: seq<Port>)
    requires Sorted(front + [p]) && Kept(front, out) && !SameKey(Last(out), p)
    ensures StrictByKey(out + [p]) && !SameKey(p, ZERO)
  {
    if front == [] {
      assert out != [] ==> Last(out) in out;
    } else {
      var prev := front[|front| - 1];
      assert (front + [p])[|front| - 1] == prev && (front + [p])[|front|] == p;
      NextKey(prev, p, Last(out));
    }
    AppendStrict(out, p);
  }

  lemma NextRepresented(p: Port, out: seq<Port>, x: Port)
    requires x == p || Represented(out, x)
    ensures Represented(out + [p], x)
  {
    if x == p {
      LessIrreflexive(p.process);
      assert p in out + [p] && Represents(p, p);
    } else {
      var q :| q in out && Represents(q, x);
      assert q in out + [p];
    }
  }

  lemma KeptWith(front: seq<Port>, p: Port, out: seq<Port>)
    requires Sorted(front + [p]) && Kept(front, out) && !SameKey(Last(out), p)
    ensures Kept(front + [p], out + [p])
  {
    NextStrict(front, p, out);
    KeptMore(front, p, out);
  }

  lemma KeptMore(front: seq<Port>, p: Port, out: seq<Port>)
    requires StrictByKey(out + [p]) && !SameKey(p, ZERO)
    requires forall q :: q in out ==> q in front && !SameKey(q, ZERO)
    requires forall x :: x in front && !SameKey(x, ZERO) ==> Represented(out, x)
    ensures Kept(front + [p], out + [p])
  {
    MoreKept(front, p, out);
    MoreRepresented(front, p, out);
    assert Last(out + [p]) == p;
  }

  lemma MoreKept(front: seq<Port>, p: Port, out: seq<Port>)
    requires !SameKey(p, ZERO) && forall q :: q in out ==> q in front && !SameKey(q, ZERO)
    ensures forall q :: q in out + [p] ==> q in front + [p] && !SameKey(q, ZERO)
  {
  }

  lemma MoreRepresented(front: seq<Port>, p: Port, out: seq<Port>)
    requires forall x :: x in front && !SameKey(x, ZERO) ==> Represented(out, x)
    ensures forall x :: x in front + [p] && !SameKey(x, ZERO) ==> Represented(out + [p], x)
  {
    forall x | x in front + [p] && !SameKey(x, ZERO)
      ensures Represented(out + [p], x)
    {
      NextRepresented(p, out, x);
    }
  }

  lemma {:induction false} DedupKept(s: seq<Port>)
    requires Sorted(s)
    ensures Kept(s, Dedup(s))
  {
    if s != [] {
      var front, p := s[..|s| - 1], s[|s| - 1];
      assert s == front + [p];
      DedupKept(front);
      if SameKey(Last(Dedup(front)), p) {
        KeptWithout(front, p, Dedup(front));
      } else {
        KeptWith(front, p, Dedup(front));
      }
    }
  }

  /**
    Whatever sorted order `sort.Slice` leaves of the ports: the result is strictly sorted by
    (Port, Proto), so holds each at most once; its entries are among the ports; and a port is
    represented, by an entry with the least process name of its (Port, Proto), exactly if its
    key is not that of the zero Port, with which the loop starts.
   */
  lemma DedupOfSorted(ports: seq<Port>, s: seq<Port>)
    requires multiset(s) == multiset(ports) && Sorted(s)
    ensures StrictByKey(Dedup(s))
    ensures forall q :: q in Dedup(s) ==> q in ports
    ensures forall p :: p in ports ==> (Represented(Dedup(s), p) <==> !SameKey(p, ZERO))
  {
    DedupKept(s);
    forall q | q in Dedup(s)
      ensures q in ports
    {
      assert q in multiset(s);
    }
    forall p | p in ports
      ensures Represented(Dedup(s), p) <==> !SameKey(p, ZERO)
    {
      assert p in multiset(ports);
    }
  }

  // ----- sorting -----

  function InsertPort(s: seq<Port>, p: Port): seq<Port> {
    if s != [] && LessThan(p, s[|s| - 1]) then InsertPort(s[..|s| - 1], p) + [s[|s| - 1]] else s + [p]
  }

  lemma NotLessTransitive(a: Port, b: Port, c: Port)
    requires !LessThan(a, b) && !LessThan(b, c)
    ensures !LessThan(a, c)
  {
    LessThanIsOrder(a, c, b);
    LessThanIsOrder(c, b, c);
  }

  lemma {:induction false} InsertPortMembers(s: seq<Port>, p: Port)
    ensures multiset(InsertPort(s, p)) == multiset(s) + multiset{p}
    ensures forall x :: x in InsertPort(s, p) <==> x in s || x == p
  {
    if s != [] && LessThan(p, s[|s| - 1]) {
      InsertPortMembers(s[..|s| - 1], p);
      assert s == s[..|s| - 1] + [s[|s| - 1]];
    }
  }

  lemma SortedBelow(s: seq<Port>, x: Port)
    requires Sorted(s) && x in s
    ensures !LessThan(s[|s| - 1], x)
  {
    LessThanIsOrder(x, x, x);
  }

  lemma {:induction false} InsertPortSorted(s: seq<Port>, p: Port)
    requires Sorted(s)
    ensures Sorted(InsertPort(s, p))
  {
    if s != [] && LessThan(p, s[|s| - 1]) {
      var init, last := s[..|s| - 1], s[|s| - 1];
      InsertPortSorted(init, p);
      InsertPortMembers(init, p);
      LessThanIsOrder(p, last, p);
      forall x | x in InsertPort(init, p)
        ensures !LessThan(last, x)
      {
        if x != p {
          assert x in s;
          SortedBelow(s, x);
        }
      }
      SortedMore(InsertPort(init, p), last);
    } else {
      forall x | x in s
        ensures !LessThan(p, x)
      {
        SortedBelow(s, x);
        NotLessTransitive(p, s[|s| - 1], x);
      }
      SortedMore(s, p);
    }
  }

  lemma SortedMore(s: seq<Port>, p: Port)
    requires Sorted(s) && forall x :: x in s ==> !LessThan(p, x)
    ensures Sorted(s + [p])
  {
    assert forall i :: 0 <= i < |s| ==> s[i] in s;
  }

  /** Stands for `sort.Slice`, of which only this is used: some sorted order of the ports. */
  method SortPorts(ports: seq<Port>) returns (s: seq<Port>)
    ensures Sorted(s) && multiset(s) == multiset(ports)
  {
    s := [];
    for i := 0 to |ports|
      invariant Sorted(s) && multiset(s) == multiset(ports[..i])
    {
      assert ports[..i + 1] == ports[..i] + [ports[i]];
      InsertPortSorted(s, ports[i]);
      InsertPortMembers(s, ports[i]);
      s := InsertPort(s, ports[i]);
    }
    assert ports[..|ports|] == ports;
  }

  /** `sortAndDedup`: sort, then dedup in place. */
  method SortAndDedup(ports: seq<Port>) returns (out: seq<Port>)
    ensures StrictByKey(out)
    ensures forall i, j :: 0 <= i < j < |out| ==>
      out[i].port < out[j].port || (out[i].port == out[j].port && Less(out[i].proto, out[j].proto))
    ensures forall q :: q in out ==> q in ports
    ensures forall p :: p in ports ==> (Represented(out, p) <==> !SameKey(p, ZERO))
  {
    var s := SortPorts(ports);
    var ps := new Port[|s|](i requires 0 <= i < |s| => s[i]);
    assert ps[..] == s;
    var n := DedupInPlace(ps);
    out := ps[..n];
    DedupOfSorted(ports, s);
  }
}
