/**
  The double-buffer protocol of `derp.forwardBuffers`, as a transition system.

  `Add`, `Swap` and `Fail` are the three critical sections of the source: what each does to
  the fields the mutex guards. A `State` adds everything around them: the flusher goroutines,
  the callers blocked in the condition variable, and the connection that flushes share with
  the client's other senders. A run is any sequence of events; an event that is not enabled
  changes nothing, so every interleaving is a run.
 */
module ForwardProtocol {
  import opened Bytes
  import opened Frame
  import opened Seqs

  const BUF_SIZE := 0x4000
  const FORWARD: byte := 0x0a

  datatype Packet = Packet(src: Key, dst: Key, data: seq<byte>)

  predicate Fits(p: Packet) {
    |p.data| <= MAX_PACKET_SIZE
  }

  function FrameOf(p: Packet): (f: Frame)
    ensures |f.body| == 2 * KEY_LEN + |p.data|
  {
    Frame(FORWARD, p.src + p.dst + p.data)
  }

  function FramesOf(ps: seq<Packet>): (fs: seq<Frame>)
    ensures |fs| == |ps|
  {
    seq(|ps|, i requires 0 <= i < |ps| => FrameOf(ps[i]))
  }

  /** The bytes a run of packets takes up in a buffer. */
  function WireOf(ps: seq<Packet>): seq<byte> {
    EncodeAll(FramesOf(ps))
  }

  /** What the receiving side makes of one frame: at most one forwarded packet. */
  function PacketIn(f: Frame): seq<Packet> {
    if f.kind == FORWARD && 2 * KEY_LEN <= |f.body|
    then [Packet(f.body[..KEY_LEN], f.body[KEY_LEN..2 * KEY_LEN], f.body[2 * KEY_LEN..])]
    else []
  }

  /** The packets forwarded in a list of frames. */
  function Forwarded(fs: seq<Frame>): seq<Packet> {
    if fs == [] then [] else PacketIn(fs[0]) + Forwarded(fs[1..])
  }

  const SEND_PACKET: byte := 0x04
  const NOTE_PREFERRED: byte := 0x07
  const PING: byte := 0x12
  const PONG: byte := 0x13

  /** The frames the client's other senders write. */
  predicate OtherFrame(f: Frame) {
    || (f.kind == SEND_PACKET && KEY_LEN <= |f.body| <= KEY_LEN + MAX_PACKET_SIZE)
    || (f.kind == NOTE_PREFERRED && |f.body| == 1)
    || ((f.kind == PING || f.kind == PONG) && |f.body| == 8)
  }

  predicate ForwardFrame(f: Frame) {
    f.kind == FORWARD && |f.body| <= 2 * KEY_LEN + MAX_PACKET_SIZE
  }

  /** Every frame on the connection is one of those. */
  predicate OurFrames(fs: seq<Frame>) {
    forall i :: 0 <= i < |fs| ==> OtherFrame(fs[i]) || ForwardFrame(fs[i])
  }

  // ----- the critical sections -----

  /** The fields guarded by the mutex; `ready` is "pending is not nil", `idle` "idle is not nil". */
  datatype Shared = Shared(ready: bool, pending: seq<byte>, frames: nat, idle: bool, err: Option<string>)

  const Zero := Shared(false, [], 0, false, None)

  function Initialised(sh: Shared): Shared {
    if sh.ready then sh else sh.(ready := true, pending := [], idle := true)
  }

  /** The wait condition of `add`. */
  predicate Full(pending: nat, p: Packet) {
    pending > 0 && pending + HEADER_LEN + 2 * KEY_LEN + |p.data| > BUF_SIZE
  }

  datatype Admission = Rejected(err: string) | MustWait | Accepted(startFlusher: bool)

  function Add(shared: Shared, p: Packet): (Shared, Admission) {
    var sh := Initialised(shared);
    if sh.err.Some? then (sh, Rejected(sh.err.value))
    else if Full(|sh.pending|, p) then (sh, MustWait)
    else (sh.(pending := sh.pending + Encode(FrameOf(p)), frames := sh.frames + 1, idle := false),
          Accepted(sh.idle))
  }

  /**
    A caller has to wait exactly if something is pending and the frame would take it over
    16 KiB; without an error it is accepted otherwise, and its frame goes to the end.
   */
  lemma AdmissionIff(sh: Shared, p: Packet)
    ensures var (t, r) := Add(sh, p);
      && (r.Rejected? <==> sh.err.Some?)
      && (r.MustWait? <==> sh.err.None? && sh.ready && sh.pending != [] && |sh.pending| + |Encode(FrameOf(p))| > 16 * 1024)
      && (r.Accepted? ==> t.pending == (if sh.ready then sh.pending else []) + Encode(FrameOf(p)))
  {
  }

  /** A forwarded packet on the wire: its kind, the length, the source and destination keys, and the data. */
  lemma ForwardLayout(p: Packet)
    ensures Encode(FrameOf(p)) == [0x0a] + BigEndian(4, 64 + |p.data|) + p.src + p.dst + p.data
  {
    Assoc(Header(FORWARD, 64 + |p.data|), p.src, p.dst);
    Assoc(Header(FORWARD, 64 + |p.data|), p.src + p.dst, p.data);
  }

  datatype Taken = Park | Take(buf: seq<byte>, frames: nat)

  function Swap(sh: Shared): (Shared, Taken) {
    if sh.pending == [] then (sh.(idle := true), Park)
    else (sh.(pending := [], frames := 0), Take(sh.pending, sh.frames))
  }

  datatype Loss = Loss(frames: nat, bytes: nat)

  function Fail(sh: Shared, e: string, buf: seq<byte>, frames: nat): (Shared, Loss) {
    (sh.(err := Some(e), pending := [], frames := 0), Loss(frames + sh.frames, |buf| + |sh.pending|))
  }

  // ----- the machine -----

  datatype Flusher = Holding | Writing(buf: seq<byte>, frames: nat)
  datatype Waiter = Waiter(packet: Packet, notified: bool)

  /**
    `accepted` are the packets whose push returned nil, `flushed` how many of them were in a
    flush that succeeded. `sent` are the frames of every successful write to the connection,
    `torn` those of the write that failed, of which the first `cut` bytes went out.
   */
  datatype State = State(
    sh: Shared,
    flushers: seq<Flusher>,
    waiters: map<nat, Waiter>,
    accepted: seq<Packet>,
    flushed: nat,
    conn: seq<byte>,
    sent: seq<Frame>,
    torn: seq<Frame>,
    cut: nat,
    dead: bool,
    reports: seq<Loss>)

  const Start := State(Zero, [], map[], [], 0, [], [], [], 0, false, [])

  datatype Event =
    | Push(caller: nat, packet: Packet)
    | Wake(caller: nat)
    | SwapOrPark(flusher: nat)
    | FlushOk(flusher: nat)
    | FlushFail(flusher: nat, err: string, written: nat)
    | OtherSend(frame: Frame)
    | OtherSendFail(frame: Frame, written: nat)

  predicate Enabled(s: State, e: Event) {
    match e
    case Push(c, p) => c !in s.waiters && Fits(p)
    case Wake(c) => c in s.waiters && s.waiters[c].notified
    case SwapOrPark(i) => i < |s.flushers| && s.flushers[i].Holding?
    case FlushOk(i) => i < |s.flushers| && s.flushers[i].Writing? && !s.dead
    case FlushFail(i, _, k) =>
      i < |s.flushers| && s.flushers[i].Writing? && k <= |s.flushers[i].buf| && (s.dead ==> k == 0)
    case OtherSend(f) => OtherFrame(f) && !s.dead
    case OtherSendFail(f, k) => OtherFrame(f) && !s.dead && k <= |Encode(f)|
  }

  /** One pass through the body of `add` by a caller holding the lock. */
  function Attempt(s: State, c: nat, p: Packet): State {
    var (sh, r) := Add(s.sh, p);
    match r
    case Rejected(_) => s.(sh := sh, waiters := s.waiters - {c})
    case MustWait => s.(sh := sh, waiters := s.waiters[c := Waiter(p, false)])
    case Accepted(start) =>
      s.(sh := sh, waiters := s.waiters - {c}, accepted := s.accepted + [p],
         flushers := if start then s.flushers + [Holding] else s.flushers)
  }

  function Broadcast(ws: map<nat, Waiter>): map<nat, Waiter> {
    map c | c in ws :: Waiter(ws[c].packet, true)
  }

  function Apply(s: State, e: Event): State {
    if !Enabled(s, e) then s
    else match e
      case Push(c, p) => Attempt(s, c, p)
      case Wake(c) => Attempt(s, c, s.waiters[c].packet)
      case SwapOrPark(i) =>
        var (sh, t) := Swap(s.sh);
        (match t
         case Park => s.(sh := sh, flushers := RemoveAt(s.flushers, i))
         case Take(buf, n) =>
           s.(sh := sh, flushers := s.flushers[i := Writing(buf, n)], waiters := Broadcast(s.waiters)))
      case FlushOk(i) =>
        var Writing(buf, n) := s.flushers[i];
        s.(flushers := s.flushers[i := Holding],
           conn := s.conn + buf,
           sent := s.sent + DecodeAll(buf),
           flushed := s.flushed + n)
      case FlushFail(i, err, k) =>
        var Writing(buf, n) := s.flushers[i];
        var (sh, loss) := Fail(s.sh, err, buf, n);
        s.(sh := sh, flushers := RemoveAt(s.flushers, i), waiters := Broadcast(s.waiters),
           conn := s.conn + buf[..k],
           torn := if s.dead then s.torn else DecodeAll(buf),
           cut := if s.dead then s.cut else k,
           dead := true,
           reports := s.reports + [loss])
      case OtherSend(f) => s.(conn := s.conn + Encode(f), sent := s.sent + [f])
      case OtherSendFail(f, k) => s.(conn := s.conn + Encode(f)[..k], torn := [f], cut := k, dead := true)
  }

  /** The state a run ends in. */
  function Exec(es: seq<Event>): State {
    if es == [] then Start else Apply(Exec(es[..|es| - 1]), es[|es| - 1])
  }

  // ----- the invariant -----

  function InFlight(fl: seq<Flusher>): (r: nat) {
    if fl == [] || fl[0].Holding? then 0 else fl[0].frames
  }

  function InFlightBytes(fl: seq<Flusher>): seq<byte> {
    if fl == [] || fl[0].Holding? then [] else fl[0].buf
  }

  /** The packets being written and the packets waiting behind them. */
  function Written(s: State): seq<Packet>
    requires s.flushed + InFlight(s.flushers) <= |s.accepted|
  {
    s.accepted[s.flushed..s.flushed + InFlight(s.flushers)]
  }

  function Behind(s: State): seq<Packet>
    requires s.flushed + InFlight(s.flushers) <= |s.accepted|
  {
    s.accepted[s.flushed + InFlight(s.flushers)..]
  }

  predicate AllFit(ps: seq<Packet>) {
    forall i :: 0 <= i < |ps| ==> Fits(ps[i])
  }

  /** A buffer holds exactly these packets, and is overfull only when it holds just one. */
  predicate Holds(buf: seq<byte>, frames: nat, ps: seq<Packet>) {
    && buf == WireOf(ps)
    && frames == |ps|
    && (|buf| > BUF_SIZE ==> frames == 1)
  }

  /** Nothing is lost or reordered between acceptance and the connection. */
  predicate Conserved(s: State) {
    && AllFit(s.accepted)
    && s.flushed + InFlight(s.flushers) <= |s.accepted|
    && (s.sh.err.None? ==>
          && Holds(s.sh.pending, s.sh.frames, Behind(s))
          && (s.flushers != [] && s.flushers[0].Writing? ==>
                s.flushers[0].buf != [] && Holds(s.flushers[0].buf, s.flushers[0].frames, Written(s))))
  }

  /** At most one flusher, and `idle` says whether there is one. */
  predicate OneFlusher(s: State) {
    && |s.flushers| <= 1
    && (!s.sh.ready ==> s.sh == Zero && s.flushers == [] && s.accepted == [] && s.waiters == map[])
    && (s.sh.ready && s.sh.err.None? ==> (s.sh.idle <==> s.flushers == []))
    && (s.sh.idle ==> s.sh.pending == [])
  }

  /** A caller that is blocked and has not been woken still has to wait. */
  predicate NoLostWakeup(s: State) {
    forall c :: c in s.waiters ==>
      && Fits(s.waiters[c].packet)
      && (!s.waiters[c].notified ==> s.sh.err.None? && Full(|s.sh.pending|, s.waiters[c].packet))
  }

  /**
    The connection carries the frames written, in order, and a cut of the failed write;
    the packets in it are `done` and, in the failed write, the next of `rest`.
   */
  predicate OnWire(conn: seq<byte>, sent: seq<Frame>, torn: seq<Frame>, cut: nat,
                   done: seq<Packet>, rest: seq<Packet>)
  {
    && OurFrames(sent) && OurFrames(torn)
    && cut <= |EncodeAll(torn)|
    && conn == EncodeAll(sent) + EncodeAll(torn)[..cut]
    && Forwarded(sent) == done
    && |Forwarded(torn)| <= |rest| && Forwarded(torn) == rest[..|Forwarded(torn)|]
  }

  predicate WireInOrder(s: State) {
    && s.flushed <= |s.accepted|
    && (!s.dead ==> s.torn == [] && s.cut == 0)
    && OnWire(s.conn, s.sent, s.torn, s.cut, s.accepted[..s.flushed], s.accepted[s.flushed..])
  }

  /** A failure is final, and its one report is exactly what was accepted and not flushed. */
  predicate FailedOnce(s: State) {
    && (s.sh.err.None? ==> s.reports == [])
    && s.flushed <= |s.accepted|
    && (s.sh.err.Some? ==>
          && s.dead && s.sh.ready && s.flushers == [] && !s.sh.idle && s.sh.pending == [] && s.sh.frames == 0
          && s.reports == [Loss(|s.accepted| - s.flushed, |WireOf(s.accepted[s.flushed..])|)])
  }

  predicate Inv(s: State) {
    Conserved(s) && OneFlusher(s) && NoLostWakeup(s) && WireInOrder(s) && FailedOnce(s)
  }

  // ----- facts about packets on the wire -----

  lemma WireOfConcat(a: seq<Packet>, b: seq<Packet>)
    ensures WireOf(a + b) == WireOf(a) + WireOf(b)
  {
    assert FramesOf(a + b) == FramesOf(a) + FramesOf(b);
    EncodeAllConcat(FramesOf(a), FramesOf(b));
  }

  lemma WireOfOne(p: Packet)
    ensures WireOf([p]) == Encode(FrameOf(p))
  {
    assert FramesOf([p]) == [FrameOf(p)];
    EncodeAllOne(FrameOf(p));
  }

  lemma WireOfEmpty(ps: seq<Packet>)
    ensures WireOf(ps) == [] <==> ps == []
  {
    if ps != [] {
      assert FramesOf(ps)[0] == FrameOf(ps[0]);
    }
  }

  lemma {:induction false} ForwardedConcat(a: seq<Frame>, b: seq<Frame>)
    ensures Forwarded(a + b) == Forwarded(a) + Forwarded(b)
  {
    if a == [] {
      EmptyConcat(b);
      EmptyConcat(Forwarded(b));
    } else {
      ForwardedConcat(a[1..], b);
      ConsConcat(a, b);
      Assoc(PacketIn(a[0]), Forwarded(a[1..]), Forwarded(b));
    }
  }

  lemma PacketInFrame(p: Packet)
    ensures PacketIn(FrameOf(p)) == [p]
  {
    var f := FrameOf(p);
    assert f.body[..KEY_LEN] == p.src;
    assert f.body[KEY_LEN..2 * KEY_LEN] == p.dst;
    assert f.body[2 * KEY_LEN..] == p.data;
  }

  /** The receiver recovers the packets from their frames. */
  lemma {:induction false} ForwardedFrames(ps: seq<Packet>)
    ensures Forwarded(FramesOf(ps)) == ps
  {
    if ps != [] {
      PacketInFrame(ps[0]);
      assert FramesOf(ps)[1..] == FramesOf(ps[1..]);
      ForwardedFrames(ps[1..]);
    }
  }

  lemma ForwardedOther(f: Frame)
    requires f.kind != FORWARD
    ensures Forwarded([f]) == []
  {
    assert Forwarded([f][1..]) == [];
  }

  lemma ForwardedPrefix(a: seq<Frame>, b: seq<Frame>)
    requires a <= b
    ensures Forwarded(a) <= Forwarded(b)
  {
    SplitAt(b, |a|);
    ForwardedConcat(a, b[|a|..]);
  }

  /** A buffer of whole packets decodes to their frames. */
  lemma DecodeWire(ps: seq<Packet>)
    requires AllFit(ps)
    ensures OurFrames(FramesOf(ps))
    ensures DecodeAll(WireOf(ps)) == FramesOf(ps)
  {
    DecodeEncoded(FramesOf(ps), []);
    EmptyConcat(WireOf(ps));
    EmptyConcat(FramesOf(ps));
  }

  // ----- every event keeps the invariant -----

  /** An accepted frame goes to the end of pending, in a buffer that had room for it. */
  lemma AcceptedHeld(sh: Shared, ps: seq<Packet>, p: Packet)
    requires sh.err.None? && Holds(sh.pending, sh.frames, ps) && !Full(|sh.pending|, p)
    ensures Holds(sh.pending + Encode(FrameOf(p)), sh.frames + 1, ps + [p])
  {
    WireOfEmpty(ps);
    WireOfConcat(ps, [p]);
    WireOfOne(p);
  }

  lemma AttemptConserves(s: State, c: nat, p: Packet)
    requires Conserved(s) && OneFlusher(s) && Fits(p)
    ensures Conserved(Attempt(s, c, p))
  {
    if Add(s.sh, p).1.Accepted? {
      AcceptedConserves(s, c, p);
    } else {
      RefusedConserves(s, c, p);
    }
  }

  lemma AcceptedConserves(s: State, c: nat, p: Packet)
    requires Conserved(s) && OneFlusher(s) && Fits(p) && Add(s.sh, p).1.Accepted?
    ensures Conserved(Attempt(s, c, p))
  {
    FlusherStarts(s, c, p);
    AcceptedPending(s, p);
    OneMoreConserved(s, Attempt(s, c, p), p);
  }

  lemma RefusedConserves(s: State, c: nat, p: Packet)
    requires Conserved(s) && OneFlusher(s) && !Add(s.sh, p).1.Accepted?
    ensures Conserved(Attempt(s, c, p))
  {
    RefusedSame(s.sh, p);
    WaitersAside(s, Attempt(s, c, p).waiters);
  }

  lemma RefusedSame(sh: Shared, p: Packet)
    requires !Add(sh, p).1.Accepted? && (!sh.ready ==> sh == Zero)
    ensures Add(sh, p).0 == sh
  {
  }

  lemma WaitersAside(s: State, waiters: map<nat, Waiter>)
    requires Conserved(s)
    ensures Conserved(s.(waiters := waiters))
  {
  }

  /** A flusher is started only where there is none, so what is in flight stays the same. */
  lemma FlusherStarts(s: State, c: nat, p: Packet)
    requires OneFlusher(s) && Add(s.sh, p).1.Accepted?
    ensures var t := Attempt(s, c, p);
      && InFlight(t.flushers) == InFlight(s.flushers)
      && (t.flushers != [] && t.flushers[0].Writing? ==> s.flushers != [] && t.flushers[0] == s.flushers[0])
  {
    assert Add(s.sh, p).1 == Accepted(true) ==> s.flushers == [];
  }

  lemma AcceptedSlices(s: State, t: State, p: Packet)
    requires s.flushed + InFlight(s.flushers) <= |s.accepted|
    requires t.accepted == s.accepted + [p] && t.flushed == s.flushed && InFlight(t.flushers) == InFlight(s.flushers)
    ensures Behind(t) == Behind(s) + [p] && Written(t) == Written(s)
  {
    DropLeft(s.accepted, [p], s.flushed + InFlight(s.flushers));
    TakeLeft(s.accepted, [p], s.flushed + InFlight(s.flushers));
  }

  lemma OneMoreConserved(s: State, t: State, p: Packet)
    requires Conserved(s) && Fits(p) && s.sh.err.None?
    requires t.accepted == s.accepted + [p] && t.flushed == s.flushed && InFlight(t.flushers) == InFlight(s.flushers)
    requires Holds(t.sh.pending, t.sh.frames, Behind(s) + [p])
    requires t.flushers != [] && t.flushers[0].Writing? ==> s.flushers != [] && t.flushers[0] == s.flushers[0]
    ensures Conserved(t)
  {
    AcceptedSlices(s, t, p);
  }

  lemma AcceptedPending(s: State, p: Packet)
    requires Conserved(s) && OneFlusher(s) && Add(s.sh, p).1.Accepted?
    ensures Holds(Add(s.sh, p).0.pending, Add(s.sh, p).0.frames, Behind(s) + [p])
  {
    AcceptedHeld(Initialised(s.sh), Behind(s), p);
  }

  lemma AttemptWire(s: State, c: nat, p: Packet)
    requires WireInOrder(s)
    ensures WireInOrder(Attempt(s, c, p))
  {
    DropLeft(s.accepted, [p], s.flushed);
    TakeLeft(s.accepted, [p], s.flushed);
    OnWireMore(s.conn, s.sent, s.torn, s.cut, s.accepted[..s.flushed], s.accepted[s.flushed..], p);
  }

  lemma OnWireMore(conn: seq<byte>, sent: seq<Frame>, torn: seq<Frame>, cut: nat, done: seq<Packet>, rest: seq<Packet>, p: Packet)
    requires OnWire(conn, sent, torn, cut, done, rest)
    ensures OnWire(conn, sent, torn, cut, done, rest + [p])
  {
    TakeLeft(rest, [p], |Forwarded(torn)|);
  }

  lemma AttemptKeeps(s: State, c: nat, p: Packet)
    requires Inv(s) && Fits(p)
    ensures Inv(Attempt(s, c, p))
  {
    AttemptConserves(s, c, p);
    AttemptWire(s, c, p);
    AttemptCallers(s, c, p);
  }

  lemma AttemptCallers(s: State, c: nat, p: Packet)
    requires OneFlusher(s) && NoLostWakeup(s) && FailedOnce(s) && Fits(p)
    ensures OneFlusher(Attempt(s, c, p)) && NoLostWakeup(Attempt(s, c, p)) && FailedOnce(Attempt(s, c, p))
  {
  }

  lemma SwapKeeps(s: State, i: nat)
    requires Inv(s) && Enabled(s, SwapOrPark(i))
    ensures Inv(Apply(s, SwapOrPark(i)))
  {
    var t := Apply(s, SwapOrPark(i));
    if s.sh.pending != [] {
      assert Written(t) == Behind(s);
      assert Behind(t) == [];
    }
  }

  /** A write of whole frames that goes through. */
  lemma WriteOnWire(conn: seq<byte>, sent: seq<Frame>, fs: seq<Frame>, done: seq<Packet>, rest: seq<Packet>)
    requires OnWire(conn, sent, [], 0, done, Forwarded(fs) + rest) && OurFrames(fs)
    ensures OnWire(conn + EncodeAll(fs), sent + fs, [], 0, done + Forwarded(fs), rest)
  {
    EmptyConcat(EncodeAll(sent));
    EmptyConcat(EncodeAll(sent + fs));
    EncodeAllConcat(sent, fs);
    ForwardedConcat(sent, fs);
  }

  /** One that fails after `cut` bytes. */
  lemma CutOnWire(conn: seq<byte>, sent: seq<Frame>, fs: seq<Frame>, cut: nat, done: seq<Packet>, rest: seq<Packet>)
    requires OnWire(conn, sent, [], 0, done, Forwarded(fs) + rest) && OurFrames(fs) && cut <= |EncodeAll(fs)|
    ensures OnWire(conn + EncodeAll(fs)[..cut], sent, fs, cut, done, Forwarded(fs) + rest)
  {
    EmptyConcat(EncodeAll(sent));
    TakeLeft(Forwarded(fs), rest, |Forwarded(fs)|);
  }

  /** The same for a buffer holding the next n packets. */
  lemma FlushOnWire(conn: seq<byte>, sent: seq<Frame>, ps: seq<Packet>, done: nat, n: nat)
    requires done + n <= |ps| && AllFit(ps) && OnWire(conn, sent, [], 0, ps[..done], ps[done..])
    ensures var buf := WireOf(ps[done..done + n]);
      OnWire(conn + buf, sent + DecodeAll(buf), [], 0, ps[..done + n], ps[done + n..])
  {
    var written := ps[done..done + n];
    DecodeWire(written);
    ForwardedFrames(written);
    SplitAt2(ps, done, done + n);
    WriteOnWire(conn, sent, FramesOf(written), ps[..done], ps[done + n..]);
  }

  lemma FlushCutOnWire(conn: seq<byte>, sent: seq<Frame>, ps: seq<Packet>, done: nat, n: nat, cut: nat)
    requires done + n <= |ps| && AllFit(ps) && OnWire(conn, sent, [], 0, ps[..done], ps[done..])
    requires cut <= |WireOf(ps[done..done + n])|
    ensures var buf := WireOf(ps[done..done + n]);
      OnWire(conn + buf[..cut], sent, DecodeAll(buf), cut, ps[..done], ps[done..])
  {
    var written := ps[done..done + n];
    DecodeWire(written);
    ForwardedFrames(written);
    SplitAt2(ps, done, done + n);
    CutOnWire(conn, sent, FramesOf(written), cut, ps[..done], ps[done + n..]);
  }

  lemma FlushOkWire(s: State)
    requires Conserved(s) && OneFlusher(s) && s.sh.err.None? && WireInOrder(s) && Enabled(s, FlushOk(0))
    ensures WireInOrder(Apply(s, FlushOk(0)))
  {
    FlushOnWire(s.conn, s.sent, s.accepted, s.flushed, s.flushers[0].frames);
  }

  lemma FlushOkKeeps(s: State, i: nat)
    requires Inv(s) && Enabled(s, FlushOk(i))
    ensures Inv(Apply(s, FlushOk(i)))
  {
    FlushOkWire(s);
    FlushOkConserves(s);
    FlushOkCallers(s);
  }

  lemma FlushOkConserves(s: State)
    requires Conserved(s) && OneFlusher(s) && s.sh.err.None? && Enabled(s, FlushOk(0))
    ensures Conserved(Apply(s, FlushOk(0)))
  {
    assert Apply(s, FlushOk(0)).flushers == [Holding];
  }

  lemma FlushOkCallers(s: State)
    requires Conserved(s) && OneFlusher(s) && NoLostWakeup(s) && FailedOnce(s) && s.sh.err.None? && Enabled(s, FlushOk(0))
    ensures var t := Apply(s, FlushOk(0)); OneFlusher(t) && NoLostWakeup(t) && FailedOnce(t)
  {
    assert Apply(s, FlushOk(0)).flushers == [Holding];
  }

  lemma FlushFailWire(s: State, e: string, k: nat)
    requires Conserved(s) && OneFlusher(s) && s.sh.err.None? && WireInOrder(s)
    requires Enabled(s, FlushFail(0, e, k))
    ensures WireInOrder(Apply(s, FlushFail(0, e, k)))
  {
    if s.dead {
      EmptyConcat(s.conn);
    } else {
      FlushCutWire(s, e, k);
    }
  }

  lemma FlushCutWire(s: State, e: string, k: nat)
    requires Conserved(s) && OneFlusher(s) && s.sh.err.None? && WireInOrder(s) && !s.dead
    requires Enabled(s, FlushFail(0, e, k))
    ensures WireInOrder(Apply(s, FlushFail(0, e, k)))
  {
    FlushCutOnWire(s.conn, s.sent, s.accepted, s.flushed, s.flushers[0].frames, k);
  }

  /** What a failed flush reports lost is everything accepted and not flushed. */
  lemma FlushFailReport(s: State, e: string)
    requires Conserved(s) && OneFlusher(s) && s.sh.err.None? && s.flushers != [] && s.flushers[0].Writing?
    ensures Fail(s.sh, e, s.flushers[0].buf, s.flushers[0].frames).1
         == Loss(|s.accepted| - s.flushed, |WireOf(s.accepted[s.flushed..])|)
  {
    SplitAt2(s.accepted, s.flushed, s.flushed + InFlight(s.flushers));
    WireOfConcat(Written(s), Behind(s));
  }

  lemma FlushFailCallers(s: State, e: string, k: nat)
    requires Conserved(s) && OneFlusher(s) && NoLostWakeup(s) && FailedOnce(s) && s.sh.err.None?
    requires Enabled(s, FlushFail(0, e, k))
    ensures var t := Apply(s, FlushFail(0, e, k));
      Conserved(t) && OneFlusher(t) && NoLostWakeup(t) && FailedOnce(t)
  {
    FlushFailReport(s, e);
    assert Apply(s, FlushFail(0, e, k)).flushers == [];
  }

  lemma FlushFailKeeps(s: State, i: nat, e: string, k: nat)
    requires Inv(s) && Enabled(s, FlushFail(i, e, k))
    ensures Inv(Apply(s, FlushFail(i, e, k)))
  {
    FlushFailWire(s, e, k);
    FlushFailCallers(s, e, k);
  }

  lemma OtherWire(s: State, f: Frame, k: nat)
    requires WireInOrder(s) && Enabled(s, OtherSendFail(f, k))
    ensures WireInOrder(Apply(s, OtherSendFail(f, k)))
    ensures WireInOrder(Apply(s, OtherSend(f)))
  {
    var done, rest := s.accepted[..s.flushed], s.accepted[s.flushed..];
    EncodeAllOne(f);
    ForwardedOther(f);
    EmptyConcat(rest);
    EmptyConcat(done);
    WriteOnWire(s.conn, s.sent, [f], done, rest);
    CutOnWire(s.conn, s.sent, [f], k, done, rest);
  }

  lemma OtherCallers(s: State, e: Event)
    requires Conserved(s) && OneFlusher(s) && NoLostWakeup(s) && FailedOnce(s)
    requires e.OtherSend? || e.OtherSendFail?
    ensures var t := Apply(s, e); Conserved(t) && OneFlusher(t) && NoLostWakeup(t) && FailedOnce(t)
  {
  }

  lemma OtherKeeps(s: State, e: Event)
    requires Inv(s) && Enabled(s, e) && (e.OtherSend? || e.OtherSendFail?)
    ensures Inv(Apply(s, e))
  {
    OtherCallers(s, e);
    OtherWire(s, e.frame, if e.OtherSend? then 0 else e.written);
  }

  lemma StepKeeps(s: State, e: Event)
    requires Inv(s)
    ensures Inv(Apply(s, e))
  {
    if Enabled(s, e) {
      match e
      case Push(c, p) => AttemptKeeps(s, c, p);
      case Wake(c) => AttemptKeeps(s, c, s.waiters[c].packet);
      case SwapOrPark(i) => SwapKeeps(s, i);
      case FlushOk(i) => FlushOkKeeps(s, i);
      case FlushFail(i, err, k) => FlushFailKeeps(s, i, err, k);
      case OtherSend(_) => OtherKeeps(s, e);
      case OtherSendFail(_, _) => OtherKeeps(s, e);
    }
  }

  /** Safety of whole runs: every state any interleaving reaches satisfies the invariant. */
  lemma {:induction false} Safety(es: seq<Event>)
    ensures Inv(Exec(es))
  {
    if es == [] {
      assert WireOf([]) == [];
      assert Start.accepted[0..] == [];
    } else {
      Safety(es[..|es| - 1]);
      StepKeeps(Exec(es[..|es| - 1]), es[|es| - 1]);
    }
  }
}
