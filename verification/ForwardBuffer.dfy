/**
  `derp.forwardBuffers` itself: two byte buffers that change hands between the callers and
  the flusher. Each method is one critical section and is proved to take the step of
  `ForwardProtocol` it stands for. That the flusher may write its buffer with the lock
  released rests on `lent`: the buffer it owns is never the one callers append to.
 */
module ForwardBuffer {
  import opened Bytes
  import opened Frame
  import opened Seqs
  import opened ForwardProtocol

  class ForwardBuffers {
    var pending: array?<byte>
    var len: nat
    var frames: nat
    var idle: array?<byte>
    var err: Option<string>
    var droppedFrames: nat
    var droppedBytes: nat
    ghost var lent: array?<byte>

    ghost predicate Valid()
      reads this
    {
      && (pending == null ==> len == 0 && frames == 0 && idle == null && lent == null && err.None?)
      && (pending != null ==> len <= pending.Length && idle != pending && lent != pending)
      && (idle != null ==> lent == null)
    }

    /** The guarded fields as the protocol sees them. */
    ghost function View(): Shared
      requires Valid()
      reads this, pending
    {
      Shared(pending != null, if pending == null then [] else pending[..len], frames, idle != null, err)
    }

    constructor ()
      ensures Valid() && View() == Zero && fresh(this)
    {
      pending, len, frames, idle, err, lent := null, 0, 0, null, None, null;
      droppedFrames, droppedBytes := 0, 0;
    }

    /** Go's append on the pending slice: in place if it fits, else into a larger buffer. */
    method Append(bs: seq<byte>)
      requires Valid() && pending != null
      modifies this`pending, this`len, pending
      ensures Valid() && pending != null
      ensures pending[..len] == old(pending[..len]) + bs
      ensures pending == old(pending) || fresh(pending)
    {
      ghost var before := pending[..len];
      var dst: array<byte>, n := pending, len;
      if n + |bs| > dst.Length {
        var grown := new byte[n + |bs| + dst.Length];
        for i := 0 to n
          invariant dst[..n] == before
          invariant forall j :: 0 <= j < i ==> grown[j] == dst[j]
        {
          grown[i] := dst[i];
        }
        assert grown[..n] == before;
        dst := grown;
      }
      for i := 0 to |bs|
        invariant dst[..n] == before
        invariant forall j :: 0 <= j < i ==> dst[n + j] == bs[j]
      {
        dst[n + i] := bs[i];
      }
      pending, len := dst, n + |bs|;
      assert dst[..n + |bs|] == before + bs;
    }

    /** The four appends of a frame, as `add` makes them. */
    method AppendFrame(p: Packet)
      requires Valid() && pending != null
      modifies this`pending, this`len, pending
      ensures Valid() && pending != null
      ensures pending[..len] == old(pending[..len]) + Encode(FrameOf(p))
      ensures pending == old(pending) || fresh(pending)
    {
      ghost var before := pending[..len];
      var h := Header(FORWARD, 2 * KEY_LEN + |p.data|);
      Append(h);
      Append(p.src);
      Append(p.dst);
      Append(p.data);
      FramePieces(before, h, p);
    }

    /**
      `add`: the frame is appended and any idle buffer handed out to start a flusher with.
      The buffer a running flusher is writing keeps its contents.
     */
    method Add(p: Packet) returns (r: Admission, buf: array?<byte>)
      requires Valid()
      modifies this, pending
      ensures Valid()
      ensures (View(), r) == ForwardProtocol.Add(old(View()), p)
      ensures r.MustWait? <==>
        old(err).None? && old(pending) != null && old(len) > 0 && old(len) + |Encode(FrameOf(p))| > 16 * 1024
      ensures r == Accepted(true) <==> buf != null
      ensures buf != null ==> buf == lent && old(lent) == null
      ensures buf == null ==> lent == old(lent)
      ensures old(lent) != null ==> lent == old(lent) && lent[..] == old(lent[..])
    {
      if pending == null {
        pending := new byte[BUF_SIZE];
        idle := new byte[BUF_SIZE];
      }
      if err.Some? {
        return Rejected(err.value), null;
      }
      if len > 0 && len + HEADER_LEN + 2 * KEY_LEN + |p.data| > BUF_SIZE {
        return MustWait, null;
      }
      AppendFrame(p);
      frames := frames + 1;
      buf, idle := idle, null;
      if buf != null {
        lent := buf;
      }
      r := Accepted(buf != null);
    }

    /** `next`: the flusher trades the buffer it owns for the pending one, or parks it. */
    method Next(buf: array<byte>) returns (taken: array?<byte>, n: nat, count: nat)
      requires Valid() && pending != null && buf == lent
      modifies this
      ensures Valid()
      ensures taken != null ==> n <= taken.Length
      ensures ForwardProtocol.Swap(old(View()))
           == (View(), if taken == null then Park else Take(taken[..n], count))
      ensures taken == null ==> idle == buf && lent == null
      ensures taken != null ==> taken == lent == old(pending) && pending == buf
    {
      if len == 0 {
        idle, lent := buf, null;
        return null, 0, 0;
      }
      taken, n, count := pending, len, frames;
      pending, len, frames, lent := buf, 0, 0, taken;
    }

    /** `fail`: the error sticks, what is pending is dropped, and the loss is counted. */
    method Fail(e: string, buf: array<byte>, n: nat, count: nat) returns (loss: Loss)
      requires Valid() && pending != null && buf == lent && n <= buf.Length
      modifies this
      ensures Valid() && idle == null && lent == null
      ensures (View(), loss) == ForwardProtocol.Fail(old(View()), e, buf[..n], count)
      ensures droppedFrames == old(droppedFrames) + loss.frames
      ensures droppedBytes == old(droppedBytes) + loss.bytes
    {
      err := Some(e);
      loss := Loss(count + frames, n + len);
      len, frames, lent := 0, 0, null;
      droppedFrames, droppedBytes := droppedFrames + loss.frames, droppedBytes + loss.bytes;
    }
  }

  lemma FramePieces(before: seq<byte>, h: seq<byte>, p: Packet)
    requires h == Header(FORWARD, 2 * KEY_LEN + |p.data|)
    ensures (((before + h) + p.src) + p.dst) + p.data == before + Encode(FrameOf(p))
  {
    Assoc(((before + h) + p.src), p.dst, p.data);
    Assoc(before + h, p.src, p.dst + p.data);
    Assoc(p.src, p.dst, p.data);
    Assoc(before, h, p.src + p.dst + p.data);
  }
}
