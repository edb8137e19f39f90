/**
  Writing frames: `WriteFrameHeader` with its fast and slow path, and the client's senders,
  over a model of `bufio.Writer`. The connection below takes `quota` more bytes and then
  fails, so a claim for every quota is a claim for every point at which a write can fail.

  Methods carry the stream they are building as a ghost argument `full`: as long as nothing
  failed it is what has been written, and after a failure the connection holds a cut of it,
  as long as the connection would take.
 */
module FrameWriter {
  import opened Bytes
  import opened Seqs
  import opened Frame
  import opened ForwardProtocol

  ghost predicate CutOf(s: seq<byte>, full: seq<byte>) {
    |s| <= |full| && s == full[..|s|]
  }

  lemma CutOfLonger(s: seq<byte>, full: seq<byte>, p: seq<byte>)
    requires CutOf(s, full)
    ensures CutOf(s, full + p)
  {
    TakeLeft(full, p, |s|);
  }

  datatype SendResult = Sent | RateLimited | TooBig | WriteFailed

  class Writer {
    const size: nat
    var buffered: seq<byte>
    var sink: seq<byte>
    var quota: nat
    var failed: bool

    ghost predicate Valid()
      reads this
    {
      0 < size && |buffered| <= size
    }

    /** `full` is what has been written, or what was being written when the connection failed. */
    ghost predicate On(full: seq<byte>)
      reads this
    {
      if failed then CutOf(sink, full) else sink + buffered == full
    }

    /** The connection took all it would, and that is less than n bytes of the stream. */
    ghost predicate Exhausted(n: nat)
      reads this
    {
      quota == 0 && |sink| < n
    }

    /** Between calls that hold the write lock: nothing is left in the buffer. */
    ghost predicate Quiet()
      reads this
    {
      Valid() && (!failed ==> buffered == [])
    }

    constructor (size: nat, quota: nat)
      requires 0 < size
      ensures Quiet() && this.size == size && this.quota == quota && sink == [] && !failed
    {
      this.size, this.quota := size, quota;
      buffered, sink, failed := [], [], false;
    }

    /** One write to the connection: a short count means failure. */
    method Emit(b: seq<byte>) returns (k: nat)
      modifies this`sink, this`quota, this`failed
      ensures k == (if |b| <= old(quota) then |b| else old(quota))
      ensures sink == old(sink) + b[..k] && quota == old(quota) - k
      ensures failed == (k < |b|)
    {
      k := if |b| <= quota then |b| else quota;
      sink, quota, failed := sink + b[..k], quota - k, k < |b|;
    }

    method Flush(ghost full: seq<byte>)
      requires Valid() && On(full)
      modifies this
      ensures Valid() && On(full) && (!failed ==> buffered == [])
      ensures old(failed) ==> failed && sink == old(sink)
      ensures |sink| + quota == |old(sink)| + old(quota)
      ensures failed && !old(failed) ==> Exhausted(|full|)
    {
      if failed || buffered == [] {
        return;
      }
      var k := Emit(buffered);
      TakeRight(old(sink), buffered, |sink|);
      buffered := buffered[k..];
    }

    method WriteByte(c: byte, ghost full: seq<byte>)
      requires Valid() && On(full)
      modifies this
      ensures Valid() && On(full + [c])
      ensures old(failed) ==> failed && sink == old(sink)
      ensures |sink| + quota == |old(sink)| + old(quota)
      ensures failed && !old(failed) ==> Exhausted(|full| + 1)
    {
      if !failed && size - |buffered| <= 0 {
        Flush(full);
      }
      if failed {
        CutOfLonger(sink, full, [c]);
        return;
      }
      Assoc(sink, buffered, [c]);
      buffered := buffered + [c];
    }

    method Write(p: seq<byte>, ghost full: seq<byte>)
      requires Valid() && On(full)
      modifies this
      ensures Valid() && On(full + p)
      ensures old(failed) ==> failed && sink == old(sink)
      ensures |sink| + quota == |old(sink)| + old(quota)
      ensures failed && !old(failed) ==> Exhausted(|full| + |p|)
    {
      var i := 0;
      while |p| - i > size - |buffered| && !failed
        invariant 0 <= i <= |p| && Valid() && On(full + p[..i])
        invariant old(failed) ==> failed && sink == old(sink)
        invariant |sink| + quota == |old(sink)| + old(quota)
        invariant failed && !old(failed) ==> Exhausted(|full| + |p|)
        decreases if failed then 0 else 1, |p| - i, |buffered|
      {
        if buffered == [] {
          i := WriteDirect(p, i, full);
        } else {
          i := FillAndFlush(p, i, full);
        }
      }
      if failed {
        SplitAt(p, i);
        Assoc(full, p[..i], p[i..]);
        CutOfLonger(sink, full + p[..i], p[i..]);
        return;
      }
      Extended(full, p, i, |p|);
      Assoc(sink, buffered, p[i..]);
      buffered := buffered + p[i..];
    }

    /** A large rest of p with nothing buffered goes to the connection in one write. */
    method WriteDirect(p: seq<byte>, i: nat, ghost full: seq<byte>) returns (j: nat)
      requires Valid() && i < |p| && buffered == [] && !failed && On(full + p[..i])
      modifies this
      ensures Valid() && i <= j <= |p| && On(full + p[..j]) && |sink| + quota == |old(sink)| + old(quota)
      ensures if failed then Exhausted(|full| + |p|) else j == |p|
    {
      var k := Emit(p[i..]);
      EmptyConcat(old(sink));
      Extended(full, p, i, i + k);
      assert p[i..][..k] == p[i..i + k];
      j := i + k;
      assert sink == full + p[..j];
      EmptyConcat(sink);
    }

    /** Otherwise the buffer is topped up and flushed. */
    method FillAndFlush(p: seq<byte>, i: nat, ghost full: seq<byte>) returns (j: nat)
      requires Valid() && i <= |p| && !failed && |p| - i > size - |buffered| && On(full + p[..i])
      modifies this
      ensures Valid() && i <= j <= |p| && On(full + p[..j]) && |sink| + quota == |old(sink)| + old(quota)
      ensures if failed then Exhausted(|full| + |p|) else buffered == []
    {
      j := i + (size - |buffered|);
      Extended(full, p, i, j);
      Assoc(sink, buffered, p[i..j]);
      buffered := buffered + p[i..j];
      Flush(full + p[..j]);
    }

    /** Both paths leave the same five bytes on the stream, or fail partway through them. */
    method WriteFrameHeader(kind: byte, n: nat, ghost full: seq<byte>)
      requires Valid() && On(full) && n < 0x1_0000_0000
      modifies this
      ensures Valid() && On(full + Header(kind, n))
      ensures old(failed) ==> failed && sink == old(sink)
      ensures |sink| + quota == |old(sink)| + old(quota)
      ensures failed && !old(failed) ==> Exhausted(|full| + HEADER_LEN)
    {
      if size - |buffered| >= HEADER_LEN {
        Write(Header(kind, n), full);
      } else {
        WriteByte(kind, full);
        WriteUint32(n, full + [kind]);
        Assoc(full, [kind], BigEndian(4, n));
      }
    }

    method WriteUint32(v: nat, ghost full: seq<byte>)
      requires Valid() && On(full)
      modifies this
      ensures Valid() && On(full + BigEndian(4, v))
      ensures old(failed) ==> failed && sink == old(sink)
      ensures |sink| + quota == |old(sink)| + old(quota)
      ensures failed && !old(failed) ==> Exhausted(|full| + 4)
    {
      var b := BigEndian(4, v);
      EmptyConcat(full);
      for i := 0 to 4
        invariant Valid() && On(full + b[..i])
        invariant old(failed) ==> failed && sink == old(sink)
        invariant |sink| + quota == |old(sink)| + old(quota)
        invariant failed && !old(failed) ==> Exhausted(|full| + i)
      {
        Extended(full, b, i, i + 1);
        assert b[i..i + 1] == [b[i]];
        WriteByte(b[i], full + b[..i]);
      }
      assert b[..4] == b;
    }

    // ----- the senders: each holds the write lock for one whole frame -----

    /**
      What a sender leaves behind, given whether the connection had failed before and how many
      bytes it had room for: it fails exactly if the connection had or has no room for all of
      bs, and the connection then holds as much of bs as it had room for.
     */
    ghost predicate Transmitted(before: seq<byte>, wasFailed: bool, room: nat, bs: seq<byte>)
      reads this
    {
      && Quiet()
      && (failed <==> wasFailed || room < |bs|)
      && sink == if wasFailed then before else if room < |bs| then before + bs[..room] else before + bs
    }

    /** The bookkeeping of the writes adds up to that. */
    lemma Finish(before: seq<byte>, wasFailed: bool, room: nat, bs: seq<byte>)
      requires Quiet() && On(before + bs)
      requires wasFailed ==> failed && sink == before
      requires !wasFailed ==> |sink| + quota == |before| + room
      requires failed && !wasFailed ==> Exhausted(|before| + |bs|)
      ensures Transmitted(before, wasFailed, room, bs)
    {
      EmptyConcat(sink);
      if failed && !wasFailed {
        TakeRight(before, bs, |sink|);
      }
    }

    method Send(dst: Key, pkt: seq<byte>, allowed: bool) returns (r: SendResult)
      requires Quiet()
      modifies this
      ensures |pkt| > 64 * 1024 <==> r == TooBig
      ensures r == RateLimited <==> |pkt| <= 64 * 1024 && !allowed
      ensures r == TooBig || r == RateLimited ==>
        sink == old(sink) && failed == old(failed) && quota == old(quota) && Quiet()
      ensures r == Sent || r == WriteFailed ==>
        (r == Sent <==> !failed) && Transmitted(old(sink), old(failed), old(quota), Encode(Frame(0x04, dst + pkt)))
    {
      if |pkt| > MAX_PACKET_SIZE {
        return TooBig;
      }
      if !allowed {
        return RateLimited;
      }
      ghost var f := sink;
      EmptyConcat(f);
      ghost var h := Header(SEND_PACKET, KEY_LEN + |pkt|);
      WriteFrameHeader(SEND_PACKET, KEY_LEN + |pkt|, f);
      Write(dst, f + h);
      Write(pkt, f + h + dst);
      Flush(f + h + dst + pkt);
      Assoc(f + h, dst, pkt);
      Assoc(f, h, dst + pkt);
      Finish(f, old(failed), old(quota), Encode(Frame(SEND_PACKET, dst + pkt)));
      r := if failed then WriteFailed else Sent;
    }

    method SendPingOrPong(kind: byte, data: seq<byte>) returns (ok: bool)
      requires Quiet() && |data| == 8
      modifies this
      ensures ok == !failed && Transmitted(old(sink), old(failed), old(quota), Encode(Frame(kind, data)))
    {
      ghost var f := sink;
      EmptyConcat(f);
      WriteFrameHeader(kind, 8, f);
      Write(data, f + Header(kind, 8));
      Flush(f + Header(kind, 8) + data);
      Assoc(f, Header(kind, 8), data);
      Finish(f, old(failed), old(quota), Encode(Frame(kind, data)));
      ok := !failed;
    }

    method NotePreferred(preferred: bool) returns (ok: bool)
      requires Quiet()
      modifies this
      ensures ok == !failed
      ensures Transmitted(old(sink), old(failed), old(quota), Encode(Frame(0x07, [if preferred then 1 else 0])))
    {
      ghost var f := sink;
      EmptyConcat(f);
      var b: byte := if preferred then 1 else 0;
      WriteFrameHeader(NOTE_PREFERRED, 1, f);
      WriteByte(b, f + Header(NOTE_PREFERRED, 1));
      Flush(f + Header(NOTE_PREFERRED, 1) + [b]);
      Assoc(f, Header(NOTE_PREFERRED, 1), [b]);
      Finish(f, old(failed), old(quota), Encode(Frame(NOTE_PREFERRED, [b])));
      ok := !failed;
    }

    /** `flush`: a buffer of forwarded frames, written like any other frame. */
    method FlushForwarded(buf: seq<byte>) returns (ok: bool)
      requires Quiet()
      modifies this
      ensures ok == !failed && Transmitted(old(sink), old(failed), old(quota), buf)
    {
      ghost var f := sink;
      EmptyConcat(f);
      Write(buf, f);
      Flush(f + buf);
      Finish(f, old(failed), old(quota), buf);
      ok := !failed;
    }
  }

  lemma Extended(full: seq<byte>, p: seq<byte>, i: nat, j: nat)
    requires i <= j <= |p|
    ensures full + p[..j] == (full + p[..i]) + p[i..j]
    ensures p[..|p|] == p && p[i..|p|] == p[i..]
  {
    SplitAt2(p, i, j);
    Assoc(full, p[..i], p[i..j]);
  }
}
