/**
  The connection as a whole: the client's senders take the steps the protocol allows, and
  what they and the flusher leave on the wire is received as the messages it stands for.
 */
module Connection {
  import opened Bytes
  import opened Seqs
  import opened Frame
  import opened ForwardProtocol
  import opened FrameWriter
  import opened FrameReader

  /**
    A sender that was transmitting frame f took an `OtherSend` step if the connection had room
    for it, and an `OtherSendFail` step if not.
   */
  lemma SenderTakesStep(s: State, w: Writer, room: nat, f: Frame)
    requires Enabled(s, OtherSend(f)) && w.Transmitted(s.conn, false, room, Encode(f))
    ensures w.failed <==> room < |Encode(f)|
    ensures !w.failed ==> w.sink == Apply(s, OtherSend(f)).conn
    ensures w.failed ==> Enabled(s, OtherSendFail(f, room)) && w.sink == Apply(s, OtherSendFail(f, room)).conn
  {
  }

  /** So did a flush of the flusher's buffer; once the connection is dead it can only fail. */
  lemma FlushTakesStep(s: State, w: Writer, room: nat, i: nat, err: string)
    requires i < |s.flushers| && s.flushers[i].Writing?
    requires w.Transmitted(s.conn, s.dead, room, s.flushers[i].buf)
    ensures w.failed <==> s.dead || room < |s.flushers[i].buf|
    ensures !w.failed ==> Enabled(s, FlushOk(i)) && w.sink == Apply(s, FlushOk(i)).conn
    ensures w.failed ==>
      var e := FlushFail(i, err, if s.dead then 0 else room);
      Enabled(s, e) && w.sink == Apply(s, e).conn
  {
    EmptyConcat(s.conn);
  }

  /** A frame of ours is read as itself: pings and pongs delivered, the rest skipped. */
  lemma OursAcceptable(open: Opener, f: Frame)
    requires OtherFrame(f) || ForwardFrame(f)
    ensures Acceptable(open, f)
    ensures Interpret(open, f)
         == if f.kind == ForwardProtocol.PING then Deliver(Ping(f.body))
            else if f.kind == ForwardProtocol.PONG then Deliver(Pong(f.body))
            else Skip
  {
    assert f.kind == ForwardProtocol.PING || f.kind == ForwardProtocol.PONG ==> f.body[..8] == f.body;
  }

  lemma ReceivedOnWire(open: Opener, conn: seq<byte>, sent: seq<Frame>, torn: seq<Frame>, cut: nat)
    requires OurFrames(sent) && OurFrames(torn) && cut <= |EncodeAll(torn)|
    requires conn == EncodeAll(sent) + EncodeAll(torn)[..cut]
    ensures Messages(open, conn) == Delivered(open, DecodeAll(conn))
    ensures sent <= DecodeAll(conn) <= sent + torn
  {
    forall i | 0 <= i < |sent| ensures Acceptable(open, sent[i]) {
      OursAcceptable(open, sent[i]);
    }
    forall i | 0 <= i < |torn| ensures Acceptable(open, torn[i]) {
      OursAcceptable(open, torn[i]);
    }
    var tail := EncodeAll(torn)[..cut];
    DecodeEncoded(sent, tail);
    DecodeCut(torn, cut);
    StreamDelivered(open, sent, tail);
    CutDelivered(open, torn, cut);
    DeliveredConcat(open, sent, DecodeAll(tail));
  }

  lemma DeliveredPrefix(open: Opener, a: seq<Frame>, b: seq<Frame>)
    requires a <= b
    ensures Delivered(open, a) <= Delivered(open, b)
  {
    SplitAt(b, |a|);
    DeliveredConcat(open, a, b[|a|..]);
  }

  /**
    For every interleaving of pushes, flushes and other senders, including writes cut short
    anywhere, receiving from the connection delivers one message for each frame that is
    there whole and not skipped, in the order in which the senders held the write lock. Those
    are all the frames of the writes that succeeded, and then some first ones of the write
    that failed.
   */
  lemma RunReceived(open: Opener, es: seq<Event>)
    ensures var s := Exec(es);
      && Messages(open, s.conn) == Delivered(open, DecodeAll(s.conn))
      && s.sent <= DecodeAll(s.conn) <= s.sent + s.torn
      && Delivered(open, s.sent) <= Messages(open, s.conn) <= Delivered(open, s.sent + s.torn)
  {
    var s := Exec(es);
    Safety(es);
    ReceivedOnWire(open, s.conn, s.sent, s.torn, s.cut);
    DeliveredPrefix(open, s.sent, DecodeAll(s.conn));
    DeliveredPrefix(open, DecodeAll(s.conn), s.sent + s.torn);
  }

  /** So a client of any buffer size gets exactly those messages from its calls. */
  method ReceiveRun(ghost es: seq<Event>, conn: seq<byte>, size: nat, open: Opener) returns (ms: seq<Message>)
    requires conn == Exec(es).conn && MIN_BUFFER <= size
    ensures ms == Delivered(open, DecodeAll(conn))
    ensures Delivered(open, Exec(es).sent) <= ms <= Delivered(open, Exec(es).sent + Exec(es).torn)
  {
    var c := new Client(conn, size, open);
    ms := c.RecvAll();
    RunReceived(open, es);
  }

  /** On a connection that is alive these are the frames written, no more and no fewer. */
  lemma LiveRunReceived(open: Opener, es: seq<Event>)
    requires !Exec(es).dead
    ensures Messages(open, Exec(es).conn) == Delivered(open, Exec(es).sent)
  {
    RunReceived(open, es);
    Safety(es);
    EmptyConcat(Exec(es).sent);
  }
}
