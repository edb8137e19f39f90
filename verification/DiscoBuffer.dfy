/**
  How disco messages are written: a buffer is grown by the length of the message and its
  fields are filled in one after the other. The result is proved to be the bytes that were
  there and then `Disco.Marshal` of the message.
 */
module DiscoBuffer {
  import opened Bytes
  import opened Seqs
  import opened Netip
  import opened Disco

  /**
    Copies bs to buf from off on. `fields` is what was written since `before`; the bytes
    after the copy are untouched.
   */
  method Put(buf: array<byte>, off: nat, bs: seq<byte>, ghost before: seq<byte>, ghost fields: seq<byte>) returns (end: nat)
    requires off + |bs| <= buf.Length && buf[..off] == before + fields
    modifies buf
    ensures end == off + |bs| && buf[..end] == before + (fields + bs)
    ensures buf[end..] == old(buf[end..])
  {
    var i := 0;
    while i < |bs|
      invariant 0 <= i <= |bs|
      invariant forall k :: 0 <= k < off ==> buf[k] == old(buf[k])
      invariant forall k :: 0 <= k < i ==> buf[off + k] == bs[k]
      invariant forall k :: off + i <= k < buf.Length ==> buf[k] == old(buf[k])
    {
      buf[off + i] := bs[i];
      i := i + 1;
    }
    end := off + |bs|;
    assert buf[..off] == old(buf[..off]);
    assert buf[off..end] == bs;
    SplitAt2(buf[..], off, end);
    assert buf[..][..off] == buf[..off] && buf[..][off..end] == buf[off..end] && buf[..][..end] == buf[..end];
    Assoc(before, fields, bs);
  }

  method PutEndpoints(buf: array<byte>, off: nat, eps: seq<AddrPort>, ghost before: seq<byte>, ghost fields: seq<byte>) returns (end: nat)
    requires off + EP_LEN * |eps| <= buf.Length && buf[..off] == before + fields
    modifies buf
    ensures end == off + EP_LEN * |eps| && buf[..end] == before + (fields + EncodeEndpoints(eps))
  {
    end := off;
    ghost var done: seq<byte> := [];
    EmptyConcat(fields);
    EmptyConcat(EncodeEndpoints(eps));
    var i := 0;
    while i < |eps|
      invariant 0 <= i <= |eps| && end == off + EP_LEN * i
      invariant buf[..end] == before + (fields + done)
      invariant done + EncodeEndpoints(eps[i..]) == EncodeEndpoints(eps)
    {
      end := Put(buf, end, As16(eps[i].addr), before, fields + done);
      end := Put(buf, end, BigEndian(2, eps[i].port), before, fields + done + As16(eps[i].addr));
      Grown(fields, done, As16(eps[i].addr), BigEndian(2, eps[i].port));
      EndpointsStep(eps, i, done);
      done := done + EncodeAddrPort(eps[i]);
      i := i + 1;
    }
    EmptyConcat(done);
  }

  lemma Grown(fields: seq<byte>, done: seq<byte>, a: seq<byte>, b: seq<byte>)
    ensures fields + done + a + b == fields + (done + (a + b))
  {
    Assoc(fields + done, a, b);
    Assoc(fields, done, a + b);
  }

  lemma EndpointsStep(eps: seq<AddrPort>, i: nat, done: seq<byte>)
    requires i < |eps|
    ensures done + EncodeEndpoints(eps[i..]) == done + EncodeAddrPort(eps[i]) + EncodeEndpoints(eps[i + 1..])
  {
    assert eps[i..][1..] == eps[i + 1..];
    Assoc(done, EncodeAddrPort(eps[i]), EncodeEndpoints(eps[i + 1..]));
  }

  method PutCommon(buf: array<byte>, off: nat, c: Common, ghost before: seq<byte>)
    requires off + COMMON_LEN <= buf.Length && buf[..off] == before
    modifies buf
    ensures buf[..off + COMMON_LEN] == before + EncodeCommon(c)
  {
    EmptyConcat(before);
    var end := Put(buf, off, BigEndian(4, c.vni), before, []);
    EmptyConcat(BigEndian(4, c.vni));
    ghost var f := BigEndian(4, c.vni);
    end := Put(buf, end, BigEndian(4, c.generation), before, f);
    f := f + BigEndian(4, c.generation);
    end := Put(buf, end, c.remoteKey, before, f);
    end := Put(buf, end, c.challenge, before, f + c.remoteKey);
  }

  method PutRelay(buf: array<byte>, off: nat, r: Relay, ghost before: seq<byte>)
    requires off + RELAY_LEN + EP_LEN * |r.addrPorts| <= buf.Length && buf[..off] == before
    modifies buf
    ensures buf[..off + RELAY_LEN + EP_LEN * |r.addrPorts|] == before + (EncodeRelay(r) + EncodeEndpoints(r.addrPorts))
  {
    EmptyConcat(before);
    EmptyConcat(r.server);
    var end := Put(buf, off, r.server, before, []);
    ghost var f: seq<byte> := r.server;
    end := Put(buf, end, r.client0, before, f);
    f := f + r.client0;
    end := Put(buf, end, r.client1, before, f);
    f := f + r.client1;
    end := Put(buf, end, BigEndian(8, r.lamport), before, f);
    f := f + BigEndian(8, r.lamport);
    end := Put(buf, end, BigEndian(4, r.vni), before, f);
    f := f + BigEndian(4, r.vni);
    end := Put(buf, end, BigEndian(8, ToU64(r.bindLifetime)), before, f);
    f := f + BigEndian(8, ToU64(r.bindLifetime));
    end := Put(buf, end, BigEndian(8, ToU64(r.steadyLifetime)), before, f);
    end := PutEndpoints(buf, end, r.addrPorts, before, EncodeRelay(r));
  }

  /** b grown by a header and n zero bytes. */
  method AppendHeader(b: seq<byte>, t: byte, n: nat) returns (buf: array<byte>)
    ensures fresh(buf) && buf.Length == |b| + 2 + n
    ensures buf[..|b| + 2] == b + [t, 0]
    ensures buf[|b| + 2..] == Zeros(n)
  {
    buf := new byte[|b| + 2 + n](i => if 0 <= i < |b| then b[i] else 0);
    buf[|b|] := t;
    buf[|b| + 1] := 0;
  }

  function Length(m: Message): nat {
    match m
    case Ping(_, k, n) => 12 + |PingKey(k)| + n
    case Pong(_, _) => PONG_LEN
    case CallMeMaybe(eps) => EP_LEN * |eps|
    case Bind(_) => COMMON_LEN
    case BindChallenge(_) => COMMON_LEN
    case BindAnswer(_) => COMMON_LEN
    case CallMeMaybeVia(r) => RELAY_LEN + EP_LEN * |r.addrPorts|
    case AllocateRequest(_, _, _) => REQUEST_LEN
    case AllocateResponse(_, r) => 4 + RELAY_LEN + EP_LEN * |r.addrPorts|
  }

  method PutPing(buf: array<byte>, off: nat, m: Message, ghost before: seq<byte>)
    requires m.Ping? && off + Length(m) == buf.Length && buf[..off] == before && buf[off..] == Zeros(Length(m))
    modifies buf
    ensures buf[..] == before + Body(m)
  {
    EmptyConcat(before);
    EmptyConcat(m.txID);
    ghost var zeros := buf[off..];
    var end := Put(buf, off, m.txID, before, []);
    assert buf[end..] == zeros[12..];
    ghost var f: seq<byte> := m.txID + PingKey(m.nodeKey);
    if m.nodeKey != NO_KEY {
      end := Put(buf, end, m.nodeKey, before, m.txID);
    } else {
      EmptyConcat(m.txID);
    }
    assert buf[end..] == Zeros(m.padding);
    assert buf[..] == buf[..end] + buf[end..];
    Assoc(before, f, Zeros(m.padding));
  }

  method PutPong(buf: array<byte>, off: nat, m: Message, ghost before: seq<byte>)
    requires m.Pong? && off + PONG_LEN == buf.Length && buf[..off] == before
    modifies buf
    ensures buf[..] == before + Body(m)
  {
    EmptyConcat(before);
    EmptyConcat(m.pongTxID);
    var end := Put(buf, off, m.pongTxID, before, []);
    end := Put(buf, end, As16(m.src.addr), before, m.pongTxID);
    end := Put(buf, end, BigEndian(2, m.src.port), before, m.pongTxID + As16(m.src.addr));
    Assoc(m.pongTxID, As16(m.src.addr), BigEndian(2, m.src.port));
    assert buf[..end] == buf[..];
  }

  method PutRequest(buf: array<byte>, off: nat, m: Message, ghost before: seq<byte>)
    requires m.AllocateRequest? && off + REQUEST_LEN == buf.Length && buf[..off] == before
    modifies buf
    ensures buf[..] == before + Body(m)
  {
    EmptyConcat(before);
    EmptyConcat(m.client0);
    var end := Put(buf, off, m.client0, before, []);
    end := Put(buf, end, m.client1, before, m.client0);
    end := Put(buf, end, BigEndian(4, m.generation), before, m.client0 + m.client1);
    assert buf[..end] == buf[..];
  }

  method PutResponse(buf: array<byte>, off: nat, m: Message, ghost before: seq<byte>)
    requires m.AllocateResponse? && off + Length(m) == buf.Length && buf[..off] == before
    modifies buf
    ensures buf[..] == before + Body(m)
  {
    EmptyConcat(before);
    ghost var g := BigEndian(4, m.responseGeneration);
    EmptyConcat(g);
    var end := Put(buf, off, BigEndian(4, m.responseGeneration), before, []);
    PutRelay(buf, end, m.relay, before + g);
    Assoc(before, g, EncodeRelay(m.relay) + EncodeEndpoints(m.relay.addrPorts));
    assert buf[..buf.Length] == buf[..];
  }

  /** Appending a message keeps what was there and adds its wire form. */
  method AppendMarshal(b: seq<byte>, m: Message) returns (r: seq<byte>)
    ensures r == b + Marshal(m)
  {
    var buf := AppendHeader(b, TypeOf(m), Length(m));
    var off := |b| + 2;
    ghost var before := b + [TypeOf(m), 0];
    EmptyConcat(before);
    match m {
      case Ping(_, _, _) =>
        PutPing(buf, off, m, before);
      case Pong(_, _) =>
        PutPong(buf, off, m, before);
      case CallMeMaybe(eps) =>
        var _ := PutEndpoints(buf, off, eps, before, []);
        EmptyConcat(EncodeEndpoints(eps));
      case Bind(c) =>
        PutCommon(buf, off, c, before);
      case BindChallenge(c) =>
        PutCommon(buf, off, c, before);
      case BindAnswer(c) =>
        PutCommon(buf, off, c, before);
      case CallMeMaybeVia(r) =>
        PutRelay(buf, off, r, before);
      case AllocateRequest(_, _, _) =>
        PutRequest(buf, off, m, before);
      case AllocateResponse(_, _) =>
        PutResponse(buf, off, m, before);
    }
    assert buf[..buf.Length] == buf[..];
    Assoc(b, [TypeOf(m), 0], Body(m));
    r := buf[..];
  }

  /** The loop that reads an address list. */
  method ReadEndpoints(b: seq<byte>) returns (eps: seq<AddrPort>)
    requires |b| % EP_LEN == 0
    ensures eps == DecodeEndpoints(b)
  {
    eps := [];
    var rest := b;
    EmptyConcat(DecodeEndpoints(b));
    while |rest| > 0
      invariant |rest| % EP_LEN == 0
      invariant eps + DecodeEndpoints(rest) == DecodeEndpoints(b)
      decreases |rest|
    {
      Assoc(eps, [DecodeAddrPort(rest[..EP_LEN])], DecodeEndpoints(rest[EP_LEN..]));
      eps := eps + [DecodeAddrPort(rest[..EP_LEN])];
      rest := rest[EP_LEN..];
    }
    EmptyConcat(eps);
  }
}
