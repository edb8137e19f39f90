/**
  The transmission records of the queuing-delay probe. The sender expires old records and
  appends new ones, the receiver takes out the one that answers a packet; each does so under
  the lock, so a run is any interleaving of the methods below. The clock is a parameter.
 */
module ProbeLedger {
  import opened Bytes
  import opened Seqs

  datatype Record = Record(at: int, seqno: nat)

  ghost predicate Increasing(s: seq<Record>) {
    forall i, j :: 0 <= i < j < |s| ==> s[i].seqno < s[j].seqno
  }

  ghost function Seqnos(s: seq<Record>): set<nat> {
    set r | r in s :: r.seqno
  }

  predicate Expired(r: Record, now: int, timeout: int) {
    now - r.at >= timeout
  }

  function Unexpired(s: seq<Record>, now: int, timeout: int): seq<Record> {
    if s == [] then []
    else
      var front, r := Unexpired(s[..|s| - 1], now, timeout), s[|s| - 1];
      if Expired(r, now, timeout) then front else front + [r]
  }

  /** The first record of this packet taken out, if there is one. */
  function TakenOut(s: seq<Record>, seqno: nat): seq<Record> {
    if s == [] then []
    else if s[0].seqno == seqno then s[1..]
    else [s[0]] + TakenOut(s[1..], seqno)
  }

  /** One more record, at the expense of the first if there is no room. */
  function Appended(s: seq<Record>, capacity: nat, r: Record): seq<Record>
    requires 0 < capacity
  {
    (if |s| < capacity then s else s[1..]) + [r]
  }

  /** The new record is last, and the ones before it are the latest there is room for. */
  lemma AppendedIs(s: seq<Record>, capacity: nat, r: Record)
    requires 0 < capacity && |s| <= capacity
    ensures var t := Appended(s, capacity, r);
      && |t| == (if |s| < capacity then |s| + 1 else capacity) && t[|t| - 1] == r
      && forall i :: 0 <= i < |t| - 1 ==> t[i] == s[|s| - |t| + 1 + i]
  {
  }

  /** Every packet recorded is outstanding, measured or dropped, and only one of these. */
  ghost predicate Accounted(tx: seq<Record>, next: nat, measured: set<nat>, dropped: set<nat>) {
    && Increasing(tx) && measured !! dropped
    && (forall n :: n in Seqnos(tx) ==> n < next && n !in measured && n !in dropped)
    && (forall n :: n in measured || n in dropped ==> n < next)
    && (forall n :: 0 <= n < next ==> n in Seqnos(tx) || n in measured || n in dropped)
  }

  lemma {:induction false} CountSeqnos(s: seq<Record>)
    requires Increasing(s)
    ensures |Seqnos(s)| == |s|
  {
    if s != [] {
      var front, r := s[..|s| - 1], s[|s| - 1];
      CountSeqnos(front);
      assert s == front + [r];
      assert Seqnos(s) == Seqnos(front) + {r.seqno};
      assert r.seqno !in Seqnos(front);
    }
  }

  lemma {:induction false} CountBelow(n: nat, s: set<nat>)
    requires forall k :: k in s <==> 0 <= k < n
    ensures |s| == n
  {
    if n > 0 {
      CountBelow(n - 1, s - {n - 1});
    }
  }

  lemma Conserved(tx: seq<Record>, next: nat, measured: set<nat>, dropped: set<nat>)
    requires Accounted(tx, next, measured, dropped)
    ensures next == |measured| + |dropped| + |tx|
  {
    CountSeqnos(tx);
    var all := measured + dropped + Seqnos(tx);
    CountBelow(next, all);
    assert |measured + dropped| == |measured| + |dropped|;
    assert (measured + dropped) !! Seqnos(tx);
  }

  lemma IncreasingWithout(s: seq<Record>, i: nat)
    requires i < |s| && Increasing(s)
    ensures Increasing(RemoveAt(s, i))
  {
    var w := RemoveAt(s, i);
    forall j, k | 0 <= j < k < |w|
      ensures w[j].seqno < w[k].seqno
    {
      RemovedAt(s, i, j);
      RemovedAt(s, i, k);
    }
  }

  lemma SeqnosWithout(s: seq<Record>, i: nat)
    requires i < |s| && Increasing(s)
    ensures Seqnos(RemoveAt(s, i)) == Seqnos(s) - {s[i].seqno}
  {
    var w := RemoveAt(s, i);
    forall n | n in Seqnos(s) - {s[i].seqno}
      ensures n in Seqnos(w)
    {
      var j :| 0 <= j < |s| && s[j].seqno == n;
      RemovedAt(s, i, if j < i then j else j - 1);
      assert s[j] in w;
    }
    forall n | n in Seqnos(w)
      ensures n in Seqnos(s) - {s[i].seqno}
    {
      var j :| 0 <= j < |w| && w[j].seqno == n;
      RemovedAt(s, i, j);
    }
  }

  lemma Removed(tx: seq<Record>, i: nat, next: nat, measured: set<nat>, dropped: set<nat>)
    requires i < |tx| && Accounted(tx, next, measured, dropped)
    ensures tx[i].seqno !in measured && tx[i].seqno !in dropped
    ensures Accounted(RemoveAt(tx, i), next, measured + {tx[i].seqno}, dropped)
    ensures Accounted(RemoveAt(tx, i), next, measured, dropped + {tx[i].seqno})
  {
    assert tx[i] in tx && tx[i].seqno in Seqnos(tx);
    IncreasingWithout(tx, i);
    SeqnosWithout(tx, i);
  }

  lemma Added(tx: seq<Record>, at: int, next: nat, measured: set<nat>, dropped: set<nat>)
    requires Accounted(tx, next, measured, dropped)
    ensures Accounted(tx + [Record(at, next)], next + 1, measured, dropped)
  {
    var r := Record(at, next);
    assert Seqnos(tx + [r]) == Seqnos(tx) + {next};
    forall i | 0 <= i < |tx|
      ensures tx[i].seqno < next
    {
      assert tx[i].seqno in Seqnos(tx);
    }
  }

  // ----- runs -----

  datatype Setup = Setup(capacity: nat, timeout: int, interval: nat)

  /** What happens to the records: the sender sweeps and sends, a packet arrives. */
  datatype Event = Sweep(now: int) | Send(now: int) | Arrive(seqno: nat)

  /**
    The records, the last send, the sweep since then, whether every send so far was prompt,
    and whether a record was ever given up for lack of room.
   */
  datatype State = State(tx: seq<Record>, next: nat, lastSend: Option<int>, swept: Option<int>, paced: bool, overflowed: bool)

  const START := State([], 0, None, None, true, false)

  /** A send at this time is an interval after the last one, counted from the sweep before it. */
  predicate Prompt(s: State, interval: nat, now: int) {
    s.swept.Some? && s.swept.value <= now && (s.lastSend.Some? ==> s.lastSend.value + interval <= s.swept.value)
  }

  function Step(c: Setup, s: State, e: Event): State
    requires 0 < c.capacity
  {
    match e
    case Sweep(now) => s.(tx := Unexpired(s.tx, now, c.timeout), swept := Some(now))
    case Send(now) =>
      State(Appended(s.tx, c.capacity, Record(now, s.next)), s.next + 1, Some(now), None,
            s.paced && Prompt(s, c.interval, now), s.overflowed || |s.tx| >= c.capacity)
    case Arrive(seqno) => s.(tx := TakenOut(s.tx, seqno))
  }

  function Exec(c: Setup, es: seq<Event>): State
    requires 0 < c.capacity
  {
    if es == [] then START else Step(c, Exec(c, es[..|es| - 1]), es[|es| - 1])
  }

  lemma ExecMore(c: Setup, es: seq<Event>, e: Event)
    requires 0 < c.capacity
    ensures Exec(c, es + [e]) == Step(c, Exec(c, es), e)
  {
    assert (es + [e])[..|es + [e]| - 1] == es;
  }

  lemma {:induction false} TakenOutAt(s: seq<Record>, i: nat)
    requires i < |s| && forall j :: 0 <= j < i ==> s[j].seqno != s[i].seqno
    ensures TakenOut(s, s[i].seqno) == RemoveAt(s, i)
  {
    if i > 0 {
      TakenOutAt(s[1..], i - 1);
    }
  }

  lemma {:induction false} TakenOutNone(s: seq<Record>, seqno: nat)
    requires seqno !in Seqnos(s)
    ensures TakenOut(s, seqno) == s
  {
    if s != [] {
      assert s[0] in s && s[0].seqno in Seqnos(s);
      assert forall r :: r in s[1..] ==> r in s;
      TakenOutNone(s[1..], seqno);
    }
  }

  class Ledger {
    const capacity: nat
    const timeout: int
    var tx: seq<Record>
    var next: nat
    var packetsMeasured: nat
    var packetsDropped: nat
    ghost var measured: set<nat>
    ghost var dropped: set<nat>
    ghost const interval: nat
    ghost var events: seq<Event>

    ghost predicate Balanced()
      reads this
    {
      && 0 < capacity && |tx| <= capacity
      && Accounted(tx, next, measured, dropped)
      && packetsMeasured == |measured| && packetsDropped == |dropped|
    }

    /** The ledger is what the run so far makes of it. */
    ghost predicate Valid()
      reads this
    {
      Balanced() && tx == Run().tx && next == Run().next
    }

    ghost function Run(): State
      requires 0 < capacity
      reads this
    {
      Exec(Setup(capacity, timeout, interval), events)
    }

    /** Recorded sends = measured + dropped + outstanding, in every state a run can reach. */
    lemma Balance()
      requires Valid()
      ensures next == packetsMeasured + packetsDropped + |tx|
    {
      Conserved(tx, next, measured, dropped);
    }

    constructor (capacity: nat, timeout: int, ghost interval: nat)
      requires capacity > 0
      ensures Valid() && events == [] && tx == [] && next == 0
      ensures this.capacity == capacity && this.timeout == timeout && this.interval == interval
    {
      this.capacity, this.timeout, this.interval := capacity, timeout, interval;
      tx, next, packetsMeasured, packetsDropped := [], 0, 0, 0;
      measured, dropped, events := {}, {}, [];
    }

    /** Drops the records that are too old and no others. */
    method ApplyTimeouts(now: int)
      requires Valid()
      modifies `tx, `packetsDropped, `dropped, `events
      ensures Valid() && events == old(events) + [Sweep(now)]
      ensures tx == Unexpired(old(tx), now, timeout)
    {
      ExecMore(Setup(capacity, timeout, interval), events, Sweep(now));
      Expire(now);
      events := events + [Sweep(now)];
    }

    method Expire(now: int)
      requires Balanced()
      modifies `tx, `packetsDropped, `dropped
      ensures Balanced() && tx == Unexpired(old(tx), now, timeout)
    {
      ExpireAll(tx, now, timeout, next, measured, dropped);
      ghost var all := WithExpired(dropped, tx, now, timeout);
      var recs := CountExpired(now);
      tx := recs;
      dropped := all;
    }

    /** The loop: what is kept, the rest being counted as dropped. */
    method CountExpired(now: int) returns (recs: seq<Record>)
      modifies `packetsDropped
      ensures recs == Unexpired(tx, now, timeout)
      ensures packetsDropped == old(packetsDropped) + |tx| - |recs|
    {
      recs := [];
      var i := 0;
      while i < |tx|
        invariant 0 <= i <= |tx|
        invariant recs == Unexpired(tx[..i], now, timeout)
        invariant packetsDropped == old(packetsDropped) + i - |recs|
      {
        UnexpiredStep(tx, i, now, timeout);
        if Expired(tx[i], now, timeout) {
          packetsDropped := packetsDropped + 1;
        } else {
          recs := recs + [tx[i]];
        }
        i := i + 1;
      }
      assert tx[..i] == tx;
    }

    /**
      Records a packet about to be sent, at the expense of the oldest record if there is no
      room; there is room if this and all sends before it were prompt and the capacity suffices.
     */
    method RecordSend(now: int) returns (seqno: nat)
      requires Valid()
      modifies `tx, `next, `packetsDropped, `dropped, `events
      ensures Valid() && events == old(events) + [Send(now)]
      ensures seqno == old(next) && next == old(next) + 1
      ensures tx == Appended(old(tx), capacity, Record(now, seqno))
      ensures packetsDropped == old(packetsDropped) + (if |old(tx)| == capacity then 1 else 0)
      ensures Run().paced && interval * capacity >= timeout ==> |old(tx)| < capacity
    {
      ghost var c := Setup(capacity, timeout, interval);
      ExecMore(c, events, Send(now));
      PacedFits(c, events + [Send(now)]);
      seqno := Append(now);
      events := events + [Send(now)];
    }

    method Append(now: int) returns (seqno: nat)
      requires Balanced()
      modifies `tx, `next, `packetsDropped, `dropped
      ensures Balanced() && seqno == old(next) && next == old(next) + 1
      ensures tx == Appended(old(tx), capacity, Record(now, seqno))
      ensures packetsDropped == old(packetsDropped) + (if |old(tx)| == capacity then 1 else 0)
    {
      if |tx| == capacity {
        DropOldest();
      }
      Added(tx, now, next, measured, dropped);
      tx := tx + [Record(now, next)];
      seqno := next;
      next := next + 1;
    }

    method DropOldest()
      requires Balanced() && tx != []
      modifies `tx, `packetsDropped, `dropped
      ensures Balanced() && tx == old(tx)[1..] && packetsDropped == old(packetsDropped) + 1
    {
      Removed(tx, 0, next, measured, dropped);
      assert RemoveAt(tx, 0) == tx[1..];
      dropped := dropped + {tx[0].seqno};
      tx := tx[1..];
      packetsDropped := packetsDropped + 1;
    }

    /** The search stops at the first greater sequence number, and still finds a record exactly if there is one. */
    method Find(seqno: nat) returns (i: nat, found: bool)
      requires Balanced()
      ensures found <==> seqno in Seqnos(tx)
      ensures found ==> i < |tx| && tx[i].seqno == seqno
    {
      i := 0;
      while i < |tx|
        invariant 0 <= i <= |tx| && forall j :: 0 <= j < i ==> tx[j].seqno < seqno
      {
        if tx[i].seqno == seqno {
          assert tx[i] in tx;
          return i, true;
        }
        if tx[i].seqno > seqno {
          return i, false;
        }
        i := i + 1;
      }
      found := false;
    }

    /** A packet arrives: if its record is there it is measured and taken out, otherwise nothing changes. */
    method Receive(seqno: nat, now: int) returns (rtt: Option<int>)
      requires Valid()
      modifies `tx, `packetsMeasured, `measured, `events
      ensures Valid() && events == old(events) + [Arrive(seqno)]
      ensures rtt.Some? <==> seqno in Seqnos(old(tx))
      ensures forall r :: r in old(tx) && r.seqno == seqno ==> rtt == Some(now - r.at)
      ensures tx == TakenOut(old(tx), seqno)
      ensures measured == old(measured) + if rtt.Some? then {seqno} else {}
    {
      ExecMore(Setup(capacity, timeout, interval), events, Arrive(seqno));
      rtt := TakeOut(seqno, now);
      events := events + [Arrive(seqno)];
    }

    method TakeOut(seqno: nat, now: int) returns (rtt: Option<int>)
      requires Balanced()
      modifies `tx, `packetsMeasured, `measured
      ensures Balanced() && tx == TakenOut(old(tx), seqno)
      ensures rtt.Some? <==> seqno in Seqnos(old(tx))
      ensures forall r :: r in old(tx) && r.seqno == seqno ==> rtt == Some(now - r.at)
      ensures measured == old(measured) + if rtt.Some? then {seqno} else {}
    {
      var i, found := Find(seqno);
      if found {
        rtt := Some(now - tx[i].at);
        Measure(i);
      } else {
        rtt := None;
        TakenOutNone(tx, seqno);
      }
    }

    method Measure(i: nat)
      requires Balanced() && i < |tx|
      modifies `tx, `packetsMeasured, `measured
      ensures Balanced() && tx == TakenOut(old(tx), old(tx)[i].seqno) && measured == old(measured) + {old(tx)[i].seqno}
      ensures forall r :: r in old(tx) && r.seqno == old(tx)[i].seqno ==> r == old(tx)[i]
    {
      TakenOutAt(tx, i);
      Removed(tx, i, next, measured, dropped);
      packetsMeasured := packetsMeasured + 1;
      measured := measured + {tx[i].seqno};
      tx := RemoveAt(tx, i);
    }
  }

  lemma UnexpiredStep(all: seq<Record>, i: nat, now: int, timeout: int)
    requires i < |all|
    ensures Unexpired(all[..i + 1], now, timeout)
         == Unexpired(all[..i], now, timeout) + if Expired(all[i], now, timeout) then [] else [all[i]]
  {
    assert all[..i + 1][..i] == all[..i];
    EmptyConcat(Unexpired(all[..i], now, timeout));
  }

  lemma UnexpiredBelow(front: seq<Record>, r: Record, out: seq<Record>)
    requires Increasing(front + [r]) && Increasing(out) && forall x :: x in out ==> x in front
    ensures Increasing(front) && Increasing(out + [r])
  {
    var s := front + [r];
    forall i | 0 <= i < |out|
      ensures out[i].seqno < r.seqno
    {
      assert out[i] in front;
      var j :| 0 <= j < |front| && front[j] == out[i];
      assert s[j] == out[i] && s[|front|] == r;
    }
    forall i, j | 0 <= i < j < |front|
      ensures front[i].seqno < front[j].seqno
    {
      assert s[i] == front[i] && s[j] == front[j];
    }
  }

  lemma {:induction false} UnexpiredKept(s: seq<Record>, now: int, timeout: int)
    ensures forall r :: r in Unexpired(s, now, timeout) <==> r in s && !Expired(r, now, timeout)
    ensures Increasing(s) ==> Increasing(Unexpired(s, now, timeout))
    ensures |Unexpired(s, now, timeout)| <= |s|
  {
    if s != [] {
      var front, r := s[..|s| - 1], s[|s| - 1];
      assert s == front + [r];
      assert Increasing(s) ==> Increasing(front);
      UnexpiredKept(front, now, timeout);
      if Increasing(s) {
        UnexpiredBelow(front, r, Unexpired(front, now, timeout));
      }
    }
  }

  ghost function WithExpired(dropped: set<nat>, tx: seq<Record>, now: int, timeout: int): set<nat> {
    dropped + (Seqnos(tx) - Seqnos(Unexpired(tx, now, timeout)))
  }

  lemma ExpireAll(tx: seq<Record>, now: int, timeout: int, next: nat, measured: set<nat>, dropped: set<nat>)
    requires Accounted(tx, next, measured, dropped)
    ensures var recs, all := Unexpired(tx, now, timeout), WithExpired(dropped, tx, now, timeout);
      |recs| <= |tx| && Accounted(recs, next, measured, all) && |all| == |dropped| + |tx| - |recs|
  {
    var recs, all := Unexpired(tx, now, timeout), WithExpired(dropped, tx, now, timeout);
    UnexpiredKept(tx, now, timeout);
    assert Seqnos(recs) <= Seqnos(tx);
    Conserved(tx, next, measured, dropped);
    Conserved(recs, next, measured, all);
  }

  // ----- room for every record -----

  ghost predicate Spaced(s: seq<Record>, interval: nat) {
    forall i, j :: 0 <= i < j < |s| ==> s[j].at - s[i].at >= interval
  }

  lemma SpacedMore(s: seq<Record>, r: Record, interval: nat)
    requires Spaced(s, interval) && forall x :: x in s ==> r.at - x.at >= interval
    ensures Spaced(s + [r], interval)
  {
    assert forall i :: 0 <= i < |s| ==> s[i] in s;
  }

  lemma {:induction false} SpacedUnexpired(s: seq<Record>, interval: nat, now: int, timeout: int)
    requires Spaced(s, interval)
    ensures Spaced(Unexpired(s, now, timeout), interval)
  {
    if s != [] {
      var front, r := s[..|s| - 1], s[|s| - 1];
      SpacedUnexpired(front, interval, now, timeout);
      UnexpiredKept(front, now, timeout);
      forall x | x in Unexpired(front, now, timeout)
        ensures r.at - x.at >= interval
      {
        assert x in front;
        var j :| 0 <= j < |front| && front[j] == x;
        assert s[j] == x;
      }
      SpacedMore(Unexpired(front, now, timeout), r, interval);
    }
  }

  lemma {:induction false} Spread(s: seq<Record>, interval: nat)
    requires s != [] && Spaced(s, interval)
    ensures s[|s| - 1].at - s[0].at >= interval * (|s| - 1)
  {
    if |s| > 1 {
      var front := s[..|s| - 1];
      Spread(front, interval);
      assert s[|s| - 1].at - s[|s| - 2].at >= interval;
      assert interval * (|s| - 1) == interval * (|s| - 2) + interval;
    }
  }

  /** The records when the sender sweeps: an interval apart from each other and from now, none expired. */
  ghost predicate OnTime(s: seq<Record>, interval: nat, now: int, timeout: int) {
    && Spaced(s, interval)
    && (forall r :: r in s ==> r.at + interval <= now && !Expired(r, now, timeout))
  }

  lemma NoOverflow(s: seq<Record>, interval: nat, now: int, timeout: int, capacity: nat)
    requires OnTime(s, interval, now, timeout)
    requires capacity > 0 && interval * capacity >= timeout
    ensures |s| < capacity
  {
    if s != [] {
      Spread(s, interval);
      assert s[0] in s && s[|s| - 1] in s;
      assert interval * |s| == interval * (|s| - 1) + interval;
      Monotone(interval, |s|, capacity);
    }
  }

  /** Records an interval apart, none later than the last send nor expired at the last sweep. */
  ghost predicate Apart(tx: seq<Record>, interval: nat, lastSend: Option<int>, swept: Option<int>, timeout: int) {
    && Spaced(tx, interval)
    && (forall r :: r in tx ==> lastSend.Some? && r.at <= lastSend.value)
    && (swept.Some? ==> forall r :: r in tx ==> !Expired(r, swept.value, timeout))
  }

  lemma ApartSwept(tx: seq<Record>, interval: nat, lastSend: Option<int>, swept: Option<int>, now: int, timeout: int)
    requires Apart(tx, interval, lastSend, swept, timeout)
    ensures Apart(Unexpired(tx, now, timeout), interval, lastSend, Some(now), timeout)
  {
    UnexpiredKept(tx, now, timeout);
    SpacedUnexpired(tx, interval, now, timeout);
  }

  /** A prompt send finds room if the capacity suffices, and is an interval after every record. */
  lemma ApartSend(tx: seq<Record>, interval: nat, lastSend: Option<int>, swept: Option<int>, now: int, seqno: nat,
                  timeout: int, capacity: nat)
    requires Apart(tx, interval, lastSend, swept, timeout) && 0 < capacity
    requires swept.Some? && swept.value <= now && (lastSend.Some? ==> lastSend.value + interval <= swept.value)
    ensures |tx| < capacity || interval * capacity < timeout
    ensures Apart(Appended(tx, capacity, Record(now, seqno)), interval, Some(now), None, timeout)
  {
    if interval * capacity >= timeout {
      NoOverflow(tx, interval, swept.value, timeout, capacity);
    }
    SpacedMore(if |tx| < capacity then tx else tx[1..], Record(now, seqno), interval);
  }

  lemma {:induction false} TakenOutIn(s: seq<Record>, seqno: nat)
    ensures forall r :: r in TakenOut(s, seqno) ==> r in s
    ensures |TakenOut(s, seqno)| <= |s|
  {
    if s != [] {
      TakenOutIn(s[1..], seqno);
    }
  }

  lemma {:induction false} SpacedTakenOut(s: seq<Record>, seqno: nat, interval: nat)
    requires Spaced(s, interval)
    ensures Spaced(TakenOut(s, seqno), interval)
  {
    if s != [] && s[0].seqno != seqno {
      var rest := TakenOut(s[1..], seqno);
      SpacedTakenOut(s[1..], seqno, interval);
      TakenOutIn(s[1..], seqno);
      forall j | 0 <= j < |rest|
        ensures rest[j].at - s[0].at >= interval
      {
        assert rest[j] in s[1..];
        var k :| 0 <= k < |s| - 1 && s[1..][k] == rest[j];
        assert s[k + 1] == rest[j];
      }
    }
  }

  /**
    While every send so far was prompt, records are an interval apart, and one was given up
    only if the capacity is less than a timeout's worth of intervals.
   */
  lemma {:induction false} PacedFits(c: Setup, es: seq<Event>)
    requires 0 < c.capacity
    ensures var s := Exec(c, es);
      s.paced ==> Apart(s.tx, c.interval, s.lastSend, s.swept, c.timeout) && (s.overflowed ==> c.interval * c.capacity < c.timeout)
  {
    if es != [] {
      var prev := es[..|es| - 1];
      PacedFits(c, prev);
      if Exec(c, es).paced {
        StepFits(c, Exec(c, prev), es[|es| - 1]);
      }
    }
  }

  lemma StepFits(c: Setup, s: State, e: Event)
    requires 0 < c.capacity && Step(c, s, e).paced
    requires Apart(s.tx, c.interval, s.lastSend, s.swept, c.timeout) && (s.overflowed ==> c.interval * c.capacity < c.timeout)
    ensures var t := Step(c, s, e);
      Apart(t.tx, c.interval, t.lastSend, t.swept, c.timeout) && (t.overflowed ==> c.interval * c.capacity < c.timeout)
  {
    match e
    case Sweep(now) => ApartSwept(s.tx, c.interval, s.lastSend, s.swept, now, c.timeout);
    case Send(now) => ApartSend(s.tx, c.interval, s.lastSend, s.swept, now, s.next, c.timeout, c.capacity);
    case Arrive(seqno) =>
      TakenOutIn(s.tx, seqno);
      SpacedTakenOut(s.tx, seqno, c.interval);
  }

  /** Records an interval apart. */
  function Steady(interval: nat, n: nat): (s: seq<Record>)
    ensures |s| == n
    ensures forall i :: 0 <= i < n ==> s[i] == Record(interval * i, i)
  {
    seq(n, i requires 0 <= i < n => Record(interval * i, i))
  }

  /** The sender alone, sweeping and sending once an interval. */
  function SteadyRun(interval: nat, n: nat): seq<Event> {
    if n == 0 then []
    else SteadyRun(interval, n - 1) + [Sweep(interval * (n - 1))] + [Send(interval * (n - 1))]
  }

  lemma {:induction false} NoneExpired(s: seq<Record>, now: int, timeout: int)
    requires forall r :: r in s ==> !Expired(r, now, timeout)
    ensures Unexpired(s, now, timeout) == s
  {
    if s != [] {
      SplitAt(s, |s| - 1);
      NoneExpired(s[..|s| - 1], now, timeout);
    }
  }

  lemma SteadyKept(interval: nat, n: nat, timeout: int)
    requires interval * n < timeout
    ensures Unexpired(Steady(interval, n), interval * n, timeout) == Steady(interval, n)
  {
    forall r | r in Steady(interval, n)
      ensures !Expired(r, interval * n, timeout)
    {
      var i :| 0 <= i < n && Steady(interval, n)[i] == r;
      assert interval * i >= 0;
    }
    NoneExpired(Steady(interval, n), interval * n, timeout);
  }

  ghost function SteadyState(interval: nat, n: nat): State {
    State(Steady(interval, n), n, if n == 0 then None else Some(interval * (n - 1)), None, true, false)
  }

  lemma SteadyStep(c: Setup, n: nat)
    requires 0 < c.capacity && n <= c.capacity && c.interval * c.capacity < c.timeout
    ensures var at := c.interval * n;
      var s := Step(c, Step(c, SteadyState(c.interval, n), Sweep(at)), Send(at));
      s.paced && (if n < c.capacity then s == SteadyState(c.interval, n + 1) else s.overflowed)
  {
    Scaled(c.interval, c.capacity, n);
    SteadyKept(c.interval, n, c.timeout);
    if n > 0 {
      assert c.interval * n == c.interval * (n - 1) + c.interval;
    }
    assert Steady(c.interval, n) + [Record(c.interval * n, n)] == Steady(c.interval, n + 1);
  }

  lemma {:induction false} SteadyReached(c: Setup, n: nat)
    requires 0 < c.capacity && n <= c.capacity && c.interval * c.capacity < c.timeout
    ensures Exec(c, SteadyRun(c.interval, n)) == SteadyState(c.interval, n)
  {
    if n == 0 {
      assert Steady(c.interval, 0) == [];
    } else {
      SteadyReached(c, n - 1);
      SteadyMore(c, n - 1);
      SteadyStep(c, n - 1);
    }
  }

  lemma SteadyMore(c: Setup, n: nat)
    requires 0 < c.capacity
    ensures var at := c.interval * n;
      Exec(c, SteadyRun(c.interval, n + 1)) == Step(c, Step(c, Exec(c, SteadyRun(c.interval, n)), Sweep(at)), Send(at))
  {
    var es, at := SteadyRun(c.interval, n), c.interval * n;
    ExecMore(c, es, Sweep(at));
    ExecMore(c, es + [Sweep(at)], Send(at));
  }

  /** A sender that is never late gives a record up if the capacity is too small. */
  lemma SteadyOverflows(c: Setup)
    requires 0 < c.capacity && c.interval * c.capacity < c.timeout
    ensures var s := Exec(c, SteadyRun(c.interval, c.capacity + 1)); s.paced && s.overflowed
  {
    SteadyReached(c, c.capacity);
    SteadyMore(c, c.capacity);
    SteadyStep(c, c.capacity);
  }

  /** In all runs in which every send is prompt there is room iff the capacity is a timeout's worth of intervals. */
  lemma RoomIff(c: Setup)
    requires 0 < c.capacity
    ensures (forall es :: Exec(c, es).paced ==> !Exec(c, es).overflowed) <==> c.interval * c.capacity >= c.timeout
  {
    if c.interval * c.capacity >= c.timeout {
      forall es | Exec(c, es).paced
        ensures !Exec(c, es).overflowed
      {
        PacedFits(c, es);
      }
    } else {
      SteadyOverflows(c);
    }
  }

  /** The same on a ledger: one send more than there is room for, each an interval after the last. */
  method SendSteadily(capacity: nat, timeout: int, interval: nat) returns (l: Ledger)
    requires 0 < capacity
    ensures l.Valid() && l.capacity == capacity && l.events == SteadyRun(interval, capacity + 1)
    ensures interval * capacity < timeout ==> l.Run().paced && l.Run().overflowed
  {
    l := new Ledger(capacity, timeout, interval);
    for n := 0 to capacity + 1
      invariant l.Valid() && fresh(l) && l.capacity == capacity && l.timeout == timeout && l.interval == interval
      invariant l.events == SteadyRun(interval, n)
    {
      l.ApplyTimeouts(interval * n);
      var _ := l.RecordSend(interval * n);
    }
    if interval * capacity < timeout {
      SteadyOverflows(Setup(capacity, timeout, interval));
    }
  }

  const SECOND := 1_000_000_000

  /** The ticker's interval in nanoseconds. */
  function Interval(perSecond: nat): nat
    requires perSecond > 0
  {
    SECOND / perSecond
  }

  /** The capacity given to the records: the packets of a timeout, rounded up, and one more. */
  function Capacity(perSecond: nat, timeout: nat): nat {
    (perSecond * timeout + SECOND - 1) / SECOND + 1
  }

  /**
    That is enough unless the nanoseconds lost by rounding the interval down, over a whole
    timeout, amount to more than the one interval to spare.
   */
  lemma CapacitySuffices(perSecond: nat, timeout: nat)
    requires perSecond > 0 && (SECOND % perSecond) * timeout <= SECOND * Interval(perSecond)
    ensures Interval(perSecond) * Capacity(perSecond, timeout) >= timeout
  {
    var d, r, c := Interval(perSecond), SECOND % perSecond, Capacity(perSecond, timeout);
    assert SECOND == d * perSecond + r;
    var packets := perSecond * timeout;
    assert (c - 1) * SECOND >= packets by {
      RoundedUp(packets);
    }
    Scaled(d, (c - 1) * SECOND, packets);
    assert d * packets == (d * perSecond) * timeout == SECOND * timeout - r * timeout;
    assert d * ((c - 1) * SECOND) == SECOND * (d * c) - SECOND * d;
    assert SECOND * (d * c) >= SECOND * timeout;
  }

  /** So it is for the default timeout of five seconds and up to ten thousand packets per second. */
  lemma DefaultTimeoutFits(perSecond: nat)
    requires 0 < perSecond <= 10_000
    ensures Interval(perSecond) * Capacity(perSecond, 5 * SECOND) >= 5 * SECOND
  {
    var d, r := Interval(perSecond), SECOND % perSecond;
    assert SECOND == d * perSecond + r;
    assert d >= 100_000 by {
      if d < 100_000 {
        Scaled(perSecond, 99_999, d);
        assert false;
      }
    }
    CapacitySuffices(perSecond, 5 * SECOND);
  }

  /** It is not for thirty thousand packets per second and a timeout of ten seconds. */
  lemma FastProbeOverflows()
    ensures var c := Setup(Capacity(30_000, 10 * SECOND), 10 * SECOND, Interval(30_000));
      var s := Exec(c, SteadyRun(c.interval, c.capacity + 1));
      s.paced && s.overflowed
  {
    var c := Setup(Capacity(30_000, 10 * SECOND), 10 * SECOND, Interval(30_000));
    assert c.interval == 33_333 && c.capacity == 300_001;
    SteadyOverflows(c);
  }

  lemma RoundedUp(n: nat)
    ensures (n + SECOND - 1) / SECOND * SECOND >= n
  {
  }

  lemma Scaled(d: nat, a: int, b: int)
    requires a >= b
    ensures d * a >= d * b
  {
  }

  lemma Monotone(k: nat, a: nat, b: nat)
    requires k * a < k * b
    ensures a < b
  {
    if a >= b {
      assert false;
    }
  }
}
