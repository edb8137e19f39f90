/**
  What the double-buffer protocol promises its callers, over every run.
 */
module ForwardGuarantees {
  import opened Bytes
  import opened Frame
  import opened Seqs
  import opened ForwardProtocol

  lemma DecodeOnWire(conn: seq<byte>, sent: seq<Frame>, torn: seq<Frame>, cut: nat,
                     done: seq<Packet>, rest: seq<Packet>)
    requires OnWire(conn, sent, torn, cut, done, rest)
    ensures Forwarded(DecodeAll(conn)) <= done + rest
    ensures torn == [] ==> DecodeAll(conn) == sent
  {
    var tail := EncodeAll(torn)[..cut];
    DecodeEncoded(sent, tail);
    DecodeCut(torn, cut);
    ForwardedConcat(sent, DecodeAll(tail));
    ForwardedPrefix(DecodeAll(tail), torn);
    if torn == [] {
      EmptyConcat(sent);
    }
  }

  /**
    Whatever is on the connection, including a write cut short anywhere, decodes to frames
    whose forwarded packets are a prefix of the packets accepted, in acceptance order; on a
    live connection it decodes to every frame written and the packets are those flushed.
   */
  lemma DeliveredInOrder(es: seq<Event>)
    ensures var s := Exec(es);
      && Forwarded(DecodeAll(s.conn)) <= s.accepted
      && s.flushed <= |s.accepted|
      && (!s.dead ==> DecodeAll(s.conn) == s.sent && Forwarded(s.sent) == s.accepted[..s.flushed])
  {
    var s := Exec(es);
    Safety(es);
    DecodeOnWire(s.conn, s.sent, s.torn, s.cut, s.accepted[..s.flushed], s.accepted[s.flushed..]);
    SplitAt(s.accepted, s.flushed);
  }

  lemma WireInPieces(ps: seq<Packet>, j: nat, k: nat)
    requires j <= k <= |ps|
    ensures WireOf(ps) == WireOf(ps[..j]) + WireOf(ps[j..k]) + WireOf(ps[k..])
  {
    SplitAt(ps, j);
    SplitAt2(ps, j, k);
    WireOfConcat(ps[..j], ps[j..]);
    WireOfConcat(ps[j..k], ps[k..]);
    Assoc(WireOf(ps[..j]), WireOf(ps[j..k]), WireOf(ps[k..]));
  }

  lemma PiecesHeld(s: State)
    requires Conserved(s) && s.sh.err.None?
    ensures InFlightBytes(s.flushers) == WireOf(Written(s)) && s.sh.pending == WireOf(Behind(s))
    ensures |DecodeAll(s.sh.pending)| == s.sh.frames
  {
    if InFlight(s.flushers) == 0 {
      assert Written(s) == [];
    }
    DecodeWire(Behind(s));
  }

  lemma StateConservesBytes(s: State)
    requires Conserved(s) && s.sh.err.None?
    ensures WireOf(s.accepted) == WireOf(s.accepted[..s.flushed]) + InFlightBytes(s.flushers) + s.sh.pending
  {
    PiecesHeld(s);
    WireInPieces(s.accepted, s.flushed, s.flushed + InFlight(s.flushers));
  }

  /**
    Until a failure the bytes flushed, in flight and pending are together the encodings of
    all packets accepted, and `frames` counts the frames pending holds.
   */
  lemma BytesConserved(es: seq<Event>)
    requires Exec(es).sh.err.None?
    ensures var s := Exec(es);
      && s.flushed <= |s.accepted|
      && WireOf(s.accepted) == WireOf(s.accepted[..s.flushed]) + InFlightBytes(s.flushers) + s.sh.pending
      && |DecodeAll(s.sh.pending)| == s.sh.frames
  {
    Safety(es);
    PiecesHeld(Exec(es));
    StateConservesBytes(Exec(es));
  }

  /**
    No lost wakeup, no stranded frame: in every reachable error-free state a blocked caller
    that was not notified has to wait still, a flusher is there to release it, nothing is
    pending without a flusher, and a buffer over the limit holds a single frame.
   */
  lemma NothingStranded(es: seq<Event>)
    ensures var s := Exec(es);
      && |s.flushers| <= 1
      && (s.sh.ready && s.sh.err.None? ==> (s.sh.idle <==> s.flushers == []))
      && (forall c :: c in s.waiters && !s.waiters[c].notified ==>
            && s.sh.err.None? && |s.flushers| == 1 && s.sh.pending != []
            && |s.sh.pending| + |Encode(FrameOf(s.waiters[c].packet))| > BUF_SIZE)
      && (s.sh.pending != [] ==> |s.flushers| == 1)
      && (|s.sh.pending| > BUF_SIZE ==> s.sh.frames == 1)
  {
    Safety(es);
  }

  // ----- what is accepted -----

  function Pushes(ps: seq<Packet>): seq<Event> {
    if ps == [] then [] else Pushes(ps[..|ps| - 1]) + [Push(|ps| - 1, ps[|ps| - 1])]
  }

  /** Exactly these packets are accepted and in the pending buffer, nobody waits, and a flusher is about to swap. */
  ghost predicate Collected(s: State, ps: seq<Packet>) {
    && s.accepted == ps && s.sh.pending == WireOf(ps) && s.waiters == map[]
    && s.sh.err.None? && (s.sh.ready <==> ps != []) && !s.sh.idle && s.flushers == if ps == [] then [] else [Holding]
  }

  /** Packets pushed before the flusher gets to swap are batched: nobody waits while they fit into the buffer together. */
  lemma {:induction false} Batched(ps: seq<Packet>)
    requires AllFit(ps) && |WireOf(ps)| <= 16 * 1024
    ensures Collected(Exec(Pushes(ps)), ps)
  {
    if ps == [] {
      WireOfEmpty(ps);
    } else {
      var init, p := ps[..|ps| - 1], ps[|ps| - 1];
      assert ps == init + [p];
      WireOfMore(init, p);
      Batched(init);
      ExecConcat(Pushes(init), Push(|init|, p));
      BatchMore(Exec(Pushes(init)), init, p);
    }
  }

  lemma WireOfMore(ps: seq<Packet>, p: Packet)
    ensures WireOf(ps + [p]) == WireOf(ps) + Encode(FrameOf(p))
  {
    WireOfConcat(ps, [p]);
    WireOfOne(p);
  }

  lemma BatchMore(s: State, ps: seq<Packet>, p: Packet)
    requires Collected(s, ps) && Fits(p) && |WireOf(ps)| + |Encode(FrameOf(p))| <= 16 * 1024
    ensures Collected(Apply(s, Push(|ps|, p)), ps + [p])
  {
    AdmissionIff(s.sh, p);
    WireOfMore(ps, p);
    WireOfEmpty(ps);
  }

  /** On a live connection what another sender writes arrives next. */
  lemma OthersGoThrough(es: seq<Event>, f: Frame)
    requires !Exec(es).dead && OtherFrame(f)
    ensures var s := Exec(es + [OtherSend(f)]);
      !s.dead && DecodeAll(s.conn) == DecodeAll(Exec(es).conn) + [f]
  {
    DeliveredInOrder(es);
    DeliveredInOrder(es + [OtherSend(f)]);
    ExecConcat(es, OtherSend(f));
  }

  // ----- failure is final -----

  lemma {:induction false} ExecConcat(es: seq<Event>, e: Event)
    ensures Exec(es + [e]) == Apply(Exec(es), e)
  {
    assert (es + [e])[..|es + [e]| - 1] == es;
  }

  predicate Frozen(s: State, t: State) {
    && t.sh.err == s.sh.err && t.accepted == s.accepted && t.flushed == s.flushed
    && t.conn == s.conn && t.flushers == [] && t.reports == s.reports
  }

  lemma FailedStaysFailed(s: State, e: Event)
    requires FailedOnce(s) && s.sh.err.Some?
    ensures Frozen(s, Apply(s, e))
  {
  }

  lemma RunFailsOnce(es: seq<Event>)
    ensures FailedOnce(Exec(es))
  {
    Safety(es);
  }

  /**
    After a failed flush the error is sticky and nothing moves any more: no packet is
    accepted, nothing more is written, and `flushFailed` has run exactly once, reporting the
    frames and bytes that were accepted and not flushed.
   */
  lemma {:induction false} FailureIsFinal(es: seq<Event>, more: seq<Event>)
    requires Exec(es).sh.err.Some?
    ensures var s, t := Exec(es), Exec(es + more);
      && Frozen(s, t)
      && t.flushed <= |t.accepted|
      && t.reports == [Loss(|t.accepted| - t.flushed, |WireOf(t.accepted[t.flushed..])|)]
  {
    RunFailsOnce(es);
    if more == [] {
      EmptyConcat(es);
    } else {
      var init, e := more[..|more| - 1], more[|more| - 1];
      FailureIsFinal(es, init);
      assert es + more == (es + init) + [e];
      ExecConcat(es + init, e);
      RunFailsOnce(es + init);
      FailedStaysFailed(Exec(es + init), e);
    }
  }

  // ----- the flusher gets everything out -----

  /** The next step of the running flusher, if any; on a dead connection its write fails. */
  function FlusherStep(s: State, err: string): State {
    if s.flushers == [] then s
    else if s.flushers[0].Holding? then Apply(s, SwapOrPark(0))
    else if s.dead then Apply(s, FlushFail(0, err, 0))
    else Apply(s, FlushOk(0))
  }

  function FlusherSteps(s: State, err: string, n: nat): State
    decreases n
  {
    if n == 0 then s else FlusherSteps(FlusherStep(s, err), err, n - 1)
  }

  /** Nobody is stuck: no flusher, nothing pending, and every blocked caller is notified. */
  predicate Settled(s: State) {
    && s.flushers == [] && s.sh.pending == []
    && (forall c :: c in s.waiters ==> s.waiters[c].notified)
    && (s.sh.err.None? ==> s.flushed == |s.accepted|)
  }

  /** How far the flusher is from exiting. */
  function Remaining(s: State): nat {
    if s.flushers == [] then 0
    else (if s.flushers[0].Holding? then 1 else 2) + (if s.sh.pending == [] then 0 else 2)
  }

  lemma NotRunningIsSettled(s: State)
    requires Inv(s) && s.flushers == []
    ensures Settled(s)
  {
    WireOfEmpty(Behind(s));
  }

  lemma FlusherKeeps(s: State, err: string)
    requires Inv(s)
    ensures Inv(FlusherStep(s, err))
  {
    StepKeeps(s, SwapOrPark(0));
    StepKeeps(s, FlushFail(0, err, 0));
    StepKeeps(s, FlushOk(0));
  }

  lemma FlusherAdvances(s: State, err: string)
    requires OneFlusher(s) && s.flushers != []
    ensures Remaining(FlusherStep(s, err)) < Remaining(s)
    ensures FlusherStep(s, err).accepted == s.accepted
  {
    assert |s.flushers| == 1;
  }

  lemma {:induction false} FlusherSettles(s: State, err: string, n: nat)
    requires Inv(s) && Remaining(s) <= n
    ensures Settled(FlusherSteps(s, err, n)) && Inv(FlusherSteps(s, err, n))
    ensures FlusherSteps(s, err, n).accepted == s.accepted
    decreases n
  {
    if s.flushers == [] {
      NotRunningIsSettled(s);
      if n > 0 {
        FlusherSettles(s, err, n - 1);
      }
    } else {
      FlusherKeeps(s, err);
      FlusherAdvances(s, err);
      FlusherSettles(FlusherStep(s, err), err, n - 1);
    }
  }

  lemma WokenReturns(s: State, c: nat)
    requires Settled(s)
    ensures c !in Apply(s, Wake(c)).waiters
  {
  }

  /**
    Progress: from any reachable state the flusher alone, in at most four steps, flushes all
    that was accepted (or fails) and wakes every blocked caller, and each of them then
    returns at its next wakeup instead of blocking again.
   */
  lemma EveryoneGetsOut(es: seq<Event>, err: string, c: nat)
    ensures var t := FlusherSteps(Exec(es), err, 4);
      && Settled(t) && t.accepted == Exec(es).accepted
      && c !in Apply(t, Wake(c)).waiters
  {
    Safety(es);
    var s := Exec(es);
    FlusherSettles(s, err, 4);
    WokenReturns(FlusherSteps(s, err, 4), c);
  }
}
