/**
  `Client.recvTimeout`: reading messages off a DERP connection.

  `Parse` is the plain reader: take one whole frame off the stream, deliver it or skip it.
  The client is faster and trickier: a frame that fits its buffer is only peeked at, and
  its bytes are discarded at the start of the next call. `Client.Recv` is proved to return
  what `Parse` returns, for every buffer size.
 */
module FrameReader {
  import opened Bytes
  import opened Seqs
  import opened Frame
  import opened Netip
  import ForwardProtocol

  const SERVER_INFO: byte := 0x03
  const RECV_PACKET: byte := 0x05
  const KEEP_ALIVE: byte := 0x06
  const PEER_GONE: byte := 0x08
  const PEER_PRESENT: byte := 0x09
  const HEALTH: byte := 0x14
  const RESTARTING: byte := 0x15

  const MAX_FRAME := 0x10_0000
  const NONCE_LEN := 24
  const MAX_INFO_LEN := 0x10_0000
  const MAX_APP_NAME_LEN := 32
  const MIN_BUFFER := 16

  datatype Message =
    | ServerInfo(bytesPerSecond: int, bytesBurst: int)
    | KeepAlive
    | PeerGone(peer: Key, reason: byte)
    | PeerPresent(key: Key, ipPort: AddrPort, flags: byte, appName: seq<byte>)
    | ReceivedPacket(source: Key, data: seq<byte>)
    | Ping(ping: seq<byte>)
    | Pong(pong: seq<byte>)
    | Health(problem: seq<byte>)
    | ServerRestarting(reconnectInMs: nat, tryForMs: nat)

  datatype Verdict = Deliver(msg: Message) | Skip | Reject

  /** Opening the sealed server info and reading its JSON: the two rates, if it succeeds. */
  type Opener = seq<byte> -> Option<(int, int)>

  // ----- one frame -----

  function CutLeadingN(b: seq<byte>, n: nat): Option<(seq<byte>, seq<byte>)> {
    if |b| >= n then Some((b[..n], b[n..])) else None
  }

  predicate ValidAppName(name: seq<byte>) {
    |name| <= MAX_APP_NAME_LEN && forall i :: 0 <= i < |name| ==> 0x20 <= name[i] <= 0x7e
  }

  function PeerPresentMessage(b: seq<byte>): Verdict {
    match CutLeadingN(b, KEY_LEN)
    case None => Skip
    case Some((k, b1)) =>
      match CutLeadingN(b1, 18)
      case None => Deliver(PeerPresent(k, AddrPort(NoAddr, 0), 0, []))
      case Some((ap, b2)) =>
        var ipPort := DecodeAddrPort(ap);
        match CutLeadingN(b2, 1)
        case None => Deliver(PeerPresent(k, ipPort, 0, []))
        case Some((flags, b3)) =>
          match CutLeadingN(b3, 1)
          case None => Deliver(PeerPresent(k, ipPort, flags[0], []))
          case Some((n, b4)) =>
            match CutLeadingN(b4, n[0])
            case None => Deliver(PeerPresent(k, ipPort, flags[0], []))
            case Some((name, _)) =>
              Deliver(PeerPresent(k, ipPort, flags[0], if ValidAppName(name) then name else []))
  }

  /** What the client makes of one frame. */
  function Interpret(open: Opener, f: Frame): Verdict {
    var b := f.body;
    if f.kind == SERVER_INFO then
      if |b| < NONCE_LEN || |b| > NONCE_LEN + MAX_INFO_LEN then Reject
      else match open(b)
        case None => Reject
        case Some((rate, burst)) => Deliver(ServerInfo(rate, burst))
    else if f.kind == KEEP_ALIVE then Deliver(KeepAlive)
    else if f.kind == PEER_GONE then
      if |b| < KEY_LEN then Skip
      else Deliver(PeerGone(b[..KEY_LEN], if |b| > KEY_LEN then b[KEY_LEN] else 0))
    else if f.kind == PEER_PRESENT then PeerPresentMessage(b)
    else if f.kind == RECV_PACKET then
      if |b| < KEY_LEN then Skip else Deliver(ReceivedPacket(b[..KEY_LEN], b[KEY_LEN..]))
    else if f.kind == ForwardProtocol.PING then
      if |b| < 8 then Skip else Deliver(Ping(b[..8]))
    else if f.kind == ForwardProtocol.PONG then
      if |b| < 8 then Skip else Deliver(Pong(b[..8]))
    else if f.kind == HEALTH then Deliver(Health(b))
    else if f.kind == RESTARTING then
      if |b| < 8 then Skip else Deliver(ServerRestarting(Value(b[..4]), Value(b[4..8])))
    else Skip
  }

  /** The documented layout of a peer-present frame reads back as what was put in. */
  lemma PeerPresentRoundTrip(k: Key, ap: AddrPort, flags: byte, name: seq<byte>, future: seq<byte>)
    requires ValidAppName(name)
    ensures PeerPresentMessage(k + EncodeAddrPort(ap) + [flags] + [|name|] + name + future)
         == Deliver(PeerPresent(k, NormalPort(ap), flags, name))
  {
    var ad := EncodeAddrPort(ap);
    var b4 := name + future;
    var b3 := [|name|] + b4;
    var b2 := [flags] + b3;
    Layout(k, ad, [flags], [|name|], name, future);
    AddrPortRoundTrip(ap);
    Cut(name, future);
    Cut([|name|], b4);
    Cut([flags], b3);
    Cut(ad, b2);
    Cut(k, ad + b2);
  }

  lemma Cut(a: seq<byte>, b: seq<byte>)
    ensures CutLeadingN(a + b, |a|) == Some((a, b))
  {
    CutAt(a, b);
  }

  lemma Layout<T>(a: seq<T>, b: seq<T>, c: seq<T>, d: seq<T>, e: seq<T>, f: seq<T>)
    ensures a + b + c + d + e + f == a + (b + (c + (d + (e + f))))
  {
    Assoc(a + b + c + d, e, f);
    Assoc(a + b + c, d, e + f);
    Assoc(a + b, c, d + (e + f));
    Assoc(a, b, c + (d + (e + f)));
  }

  // ----- what the server writes -----

  /** The frame a server writes a message as; where the layout may grow, `future` are bytes added later. */
  function FrameFor(m: Message, future: seq<byte>): Frame
    requires Sendable(m)
  {
    match m
    case KeepAlive => Frame(0x06, future)
    case PeerGone(k, reason) => Frame(0x08, k + [reason] + future)
    case PeerPresent(k, ap, flags, name) =>
      Frame(0x09, k + EncodeAddrPort(ap) + [flags] + [|name|] + name + future)
    case ReceivedPacket(k, data) => Frame(0x05, k + data)
    case Ping(p) => Frame(0x12, p + future)
    case Pong(p) => Frame(0x13, p + future)
    case Health(problem) => Frame(0x14, problem)
    case ServerRestarting(reconnectIn, tryFor) => Frame(0x15, BigEndian(4, reconnectIn) + BigEndian(4, tryFor) + future)
  }

  /** A message that has a layout; server info is sealed, and what it opens to is a parameter. */
  predicate Sendable(m: Message) {
    match m
    case ServerInfo(_, _) => false
    case PeerPresent(_, _, _, name) => ValidAppName(name)
    case Ping(p) => |p| == 8
    case Pong(p) => |p| == 8
    case ServerRestarting(reconnectIn, tryFor) => reconnectIn < 0x1_0000_0000 && tryFor < 0x1_0000_0000
    case _ => true
  }

  /** What it is read as: itself, the address of a peer in normal form. */
  function AsRead(m: Message): Message {
    if m.PeerPresent? then m.(ipPort := NormalPort(m.ipPort)) else m
  }

  lemma MessageRead(open: Opener, m: Message, future: seq<byte>)
    requires Sendable(m)
    ensures Interpret(open, FrameFor(m, future)) == Deliver(AsRead(m))
  {
    match m
    case KeepAlive =>
    case PeerGone(k, reason) => PeerGoneRead(open, k, reason, future);
    case PeerPresent(k, ap, flags, name) => PeerPresentRoundTrip(k, ap, flags, name, future);
    case ReceivedPacket(k, data) => CutAt(k, data);
    case Ping(p) => CutAt(p, future);
    case Pong(p) => CutAt(p, future);
    case Health(problem) =>
    case ServerRestarting(reconnectIn, tryFor) => RestartingRead(open, reconnectIn, tryFor, future);
  }

  lemma PeerGoneRead(open: Opener, k: Key, reason: byte, future: seq<byte>)
    ensures Interpret(open, Frame(0x08, k + [reason] + future)) == Deliver(PeerGone(k, reason))
    ensures Interpret(open, Frame(0x08, k)) == Deliver(PeerGone(k, 0))
  {
    Assoc(k, [reason], future);
    CutAt(k, [reason] + future);
    assert k[..KEY_LEN] == k;
  }

  lemma RestartingRead(open: Opener, reconnectIn: nat, tryFor: nat, future: seq<byte>)
    requires reconnectIn < 0x1_0000_0000 && tryFor < 0x1_0000_0000
    ensures Interpret(open, Frame(0x15, BigEndian(4, reconnectIn) + BigEndian(4, tryFor) + future))
         == Deliver(ServerRestarting(reconnectIn, tryFor))
  {
    Widths();
    var a, b := BigEndian(4, reconnectIn), BigEndian(4, tryFor);
    assert (a + b + future)[..4] == a && (a + b + future)[4..8] == b;
    ValueOfBigEndian(4, reconnectIn);
    ValueOfBigEndian(4, tryFor);
  }

  /** The layouts of older servers: the key alone, with the address, and with the flags. */
  lemma PeerPresentShort(k: Key, ap: AddrPort, flags: byte)
    ensures PeerPresentMessage(k) == Deliver(PeerPresent(k, AddrPort(NoAddr, 0), 0, []))
    ensures PeerPresentMessage(k + EncodeAddrPort(ap)) == Deliver(PeerPresent(k, NormalPort(ap), 0, []))
    ensures PeerPresentMessage(k + EncodeAddrPort(ap) + [flags]) == Deliver(PeerPresent(k, NormalPort(ap), flags, []))
  {
    var ad := EncodeAddrPort(ap);
    AddrPortRoundTrip(ap);
    EmptyConcat(k);
    EmptyConcat(ad);
    EmptyConcat([flags]);
    Assoc(k, ad, [flags]);
    Cut(k, []);
    Cut(ad, []);
    Cut([flags], []);
    Cut(k, ad);
    Cut(k, ad + [flags]);
    Cut(ad, [flags]);
  }

  /** A frame is skipped iff it is too short for its kind or of no known kind. */
  lemma SkippedIff(open: Opener, f: Frame)
    ensures Interpret(open, f).Skip? <==>
      || (f.kind in {0x05, 0x08, 0x09} && |f.body| < 32)
      || (f.kind in {0x12, 0x13, 0x15} && |f.body| < 8)
      || f.kind !in {0x03, 0x05, 0x06, 0x08, 0x09, 0x12, 0x13, 0x14, 0x15}
  {
  }

  /** Only server info is ever rejected: if it has no nonce, is too long or does not open. */
  lemma RejectedIff(open: Opener, f: Frame)
    ensures Interpret(open, f).Reject? <==>
      f.kind == 0x03 && (|f.body| < 24 || |f.body| > 24 + 0x10_0000 || open(f.body).None?)
    ensures f.kind == 0x03 && !Interpret(open, f).Reject? ==>
      Interpret(open, f) == Deliver(ServerInfo(open(f.body).value.0, open(f.body).value.1))
  {
  }

  // ----- the plain reader -----

  datatype RecvError = Truncated(midFrame: bool) | FrameTooLarge(size: nat) | BadServerInfo

  /** Equal but for whether the end of the stream was hit inside a large frame. */
  predicate SameError(a: RecvError, b: RecvError) {
    a == b || (a.Truncated? && b.Truncated?)
  }

  datatype Taken = Took(frame: Frame, rest: seq<byte>) | Cannot(err: RecvError)

  /** The next frame of a stream, unless it is too large or not all there. */
  function TakeFrame(s: seq<byte>): (r: Taken)
    ensures r.Took? ==> |r.rest| < |s|
  {
    if |s| < HEADER_LEN then Cannot(Truncated(false))
    else
      var n := Value(s[1..HEADER_LEN]);
      if n > MAX_FRAME then Cannot(FrameTooLarge(n))
      else match SplitFrame(s)
        case Incomplete => Cannot(Truncated(false))
        case Whole(f, rest) => Took(f, rest)
  }

  datatype Parsed = Got(msg: Message, rest: seq<byte>) | Stop(err: RecvError)

  function Parse(open: Opener, s: seq<byte>): (r: Parsed)
    ensures r.Got? ==> |r.rest| < |s|
    decreases |s|
  {
    match TakeFrame(s)
    case Cannot(e) => Stop(e)
    case Took(f, rest) =>
      match Interpret(open, f)
      case Deliver(m) => Got(m, rest)
      case Skip => Parse(open, rest)
      case Reject => Stop(BadServerInfo)
  }

  // ----- the client -----

  datatype Received = Message(msg: Message) | Failed(err: RecvError)

  class Client {
    const stream: seq<byte>
    const size: nat
    const open: Opener
    var pos: nat
    var peeked: nat
    var readErr: Option<RecvError>

    ghost predicate Valid()
      reads this
    {
      && MIN_BUFFER <= size
      && (readErr.None? ==> pos + peeked <= |stream|)
    }

    /** What is still to be read: peeked bytes are consumed, though not yet discarded. */
    ghost function Unread(): seq<byte>
      requires Valid() && readErr.None?
      reads this
    {
      stream[pos + peeked..]
    }

    constructor (stream: seq<byte>, size: nat, open: Opener)
      requires MIN_BUFFER <= size
      ensures Valid() && readErr.None? && Unread() == stream
      ensures this.stream == stream && this.size == size && this.open == open
    {
      this.stream, this.size, this.open := stream, size, open;
      pos, peeked, readErr := 0, 0, None;
    }

    /**
      One frame off the stream: discard what was peeked at last time, read the header, then
      peek at the body if it fits the buffer and read it out if not.
     */
    method NextFrame() returns (f: Option<Frame>, e: RecvError)
      requires Valid() && readErr.None?
      modifies this`pos, this`peeked
      ensures f.Some? ==> Valid() && TakeFrame(old(Unread())) == Took(f.value, Unread())
      ensures f.None? ==> TakeFrame(old(Unread())).Cannot? && SameError(e, TakeFrame(old(Unread())).err)
    {
      e := BadServerInfo;
      pos, peeked := pos + peeked, 0;
      var at := pos;
      if |stream| - at < HEADER_LEN {
        return None, Truncated(false);
      }
      var kind, n := stream[at], Value(stream[at + 1..at + HEADER_LEN]);
      TakeAt(stream, at);
      pos := at + HEADER_LEN;
      if n > MAX_FRAME {
        return None, FrameTooLarge(n);
      }
      if n <= size {
        peeked := n;
        if |stream| - pos < n {
          return None, Truncated(false);
        }
      } else {
        if |stream| - pos < n {
          e := Truncated(|stream| - pos > 0);
          pos := |stream|;
          return None, e;
        }
        pos := pos + n;
      }
      f := Some(Frame(kind, stream[at + HEADER_LEN..at + HEADER_LEN + n]));
    }

    method Recv() returns (r: Received)
      requires Valid()
      modifies this
      ensures Valid()
      ensures old(readErr).Some? ==>
        r == Failed(old(readErr).value) && pos == old(pos) && peeked == old(peeked) && readErr == old(readErr)
      ensures old(readErr).None? ==>
        var p := Parse(open, old(Unread()));
        && (p.Got? ==> r == Message(p.msg) && readErr.None? && Unread() == p.rest)
        && (p.Stop? ==> r.Failed? && SameError(r.err, p.err) && readErr == Some(r.err))
    {
      if readErr.Some? {
        return Failed(readErr.value);
      }
      while true
        invariant Valid() && readErr.None?
        invariant Parse(open, Unread()) == Parse(open, old(Unread()))
        decreases |stream| - pos - peeked
      {
        ghost var s := Unread();
        var f, e := NextFrame();
        if f.None? {
          readErr := Some(e);
          return Failed(e);
        }
        var v := Interpret(open, f.value);
        if v.Deliver? {
          return Message(v.msg);
        }
        if v.Reject? {
          readErr := Some(BadServerInfo);
          return Failed(BadServerInfo);
        }
        assert Parse(open, s) == Parse(open, Unread());
      }
    }

    /** Receiving until an error: what the caller gets is the messages of the stream, and why it ended. */
    method RecvAll() returns (ms: seq<Message>)
      requires Valid() && readErr.None?
      modifies this
      ensures Valid() && ms == Messages(open, old(Unread()))
      ensures readErr.Some? && SameError(readErr.value, EndOf(open, old(Unread())))
    {
      ms := [];
      while true
        invariant Valid() && readErr.None?
        invariant Messages(open, old(Unread())) == ms + Messages(open, Unread())
        invariant EndOf(open, old(Unread())) == EndOf(open, Unread())
        decreases |stream| - pos - peeked
      {
        ghost var s := Unread();
        var r := Recv();
        if r.Failed? {
          EmptyConcat(ms);
          return;
        }
        Assoc(ms, [r.msg], Messages(open, Unread()));
        ms := ms + [r.msg];
      }
    }
  }

  /** The next frame of the stream from a position on, in terms of the stream. */
  lemma TakeAt(s: seq<byte>, at: nat)
    requires at + HEADER_LEN <= |s|
    ensures var n, start := Value(s[at + 1..at + HEADER_LEN]), at + HEADER_LEN;
      TakeFrame(s[at..]) ==
        if n > MAX_FRAME then Cannot(FrameTooLarge(n))
        else if |s| - start < n then Cannot(Truncated(false))
        else Took(Frame(s[at], s[start..start + n]), s[start + n..])
  {
    var n := Value(s[at + 1..at + HEADER_LEN]);
    SliceOfRest(s, at, 1, HEADER_LEN);
    if at + HEADER_LEN + n <= |s| {
      SliceOfRest(s, at, HEADER_LEN, HEADER_LEN + n);
    }
  }

  lemma SliceOfRest<T>(s: seq<T>, p: nat, i: nat, j: nat)
    requires i <= j && p + j <= |s|
    ensures s[p..][i..j] == s[p + i..p + j] && s[p..][j..] == s[p + j..]
  {
  }

  // ----- whole streams -----

  /** The messages of a stream up to its end or first error. */
  function Messages(open: Opener, s: seq<byte>): seq<Message>
    decreases |s|
  {
    match Parse(open, s)
    case Stop(_) => []
    case Got(m, rest) => [m] + Messages(open, rest)
  }

  /** A frame of more than 1 MiB ends the stream, whatever follows its header. */
  lemma LargeRefused(open: Opener, kind: byte, n: nat, rest: seq<byte>)
    requires 0x10_0000 < n < 0x1_0000_0000
    ensures Parse(open, [kind] + BigEndian(4, n) + rest) == Stop(FrameTooLarge(n))
  {
    Widths();
    ValueOfBigEndian(4, n);
    var s := [kind] + BigEndian(4, n) + rest;
    assert s[1..HEADER_LEN] == BigEndian(4, n);
  }

  /** The error that ends a stream. */
  function EndOf(open: Opener, s: seq<byte>): RecvError
    decreases |s|
  {
    match Parse(open, s)
    case Stop(e) => e
    case Got(_, rest) => EndOf(open, rest)
  }

  /** The messages a list of frames stands for: one per frame that is not skipped. */
  function Delivered(open: Opener, fs: seq<Frame>): seq<Message> {
    if fs == [] then []
    else match Interpret(open, fs[0])
      case Deliver(m) => [m] + Delivered(open, fs[1..])
      case _ => Delivered(open, fs[1..])
  }

  predicate Acceptable(open: Opener, f: Frame) {
    |f.body| <= MAX_FRAME && !Interpret(open, f).Reject?
  }

  lemma ParseCons(open: Opener, f: Frame, rest: seq<byte>)
    requires Acceptable(open, f)
    ensures var v := Interpret(open, f);
      Parse(open, Encode(f) + rest) == if v.Deliver? then Got(v.msg, rest) else Parse(open, rest)
  {
    Widths();
    SplitEncoded(f, rest);
    var s := Encode(f) + rest;
    assert s[1..HEADER_LEN] == BigEndian(4, |f.body|);
    ValueOfBigEndian(4, |f.body|);
  }

  /**
    End to end: a stream of frames is received as exactly the messages they stand for, in
    order, skipping only unknown and too short frames, whatever comes after it.
   */
  lemma {:induction false} StreamDelivered(open: Opener, fs: seq<Frame>, tail: seq<byte>)
    requires forall i :: 0 <= i < |fs| ==> Acceptable(open, fs[i])
    ensures Messages(open, EncodeAll(fs) + tail) == Delivered(open, fs) + Messages(open, tail)
  {
    if fs == [] {
      EmptyConcat(tail);
      EmptyConcat(Messages(open, tail));
    } else {
      var rest := EncodeAll(fs[1..]) + tail;
      Assoc(Encode(fs[0]), EncodeAll(fs[1..]), tail);
      ParseCons(open, fs[0], rest);
      StreamDelivered(open, fs[1..], tail);
      var v := Interpret(open, fs[0]);
      if v.Deliver? {
        Assoc([v.msg], Delivered(open, fs[1..]), Messages(open, tail));
      }
    }
  }

  lemma {:induction false} DeliveredConcat(open: Opener, a: seq<Frame>, b: seq<Frame>)
    ensures Delivered(open, a + b) == Delivered(open, a) + Delivered(open, b)
  {
    if a == [] {
      EmptyConcat(b);
      EmptyConcat(Delivered(open, b));
    } else {
      ConsConcat(a, b);
      DeliveredConcat(open, a[1..], b);
      var v := Interpret(open, a[0]);
      if v.Deliver? {
        Assoc([v.msg], Delivered(open, a[1..]), Delivered(open, b));
      }
    }
  }

  /** Nothing is received of a frame that is not all there. */
  lemma ParseTruncated(open: Opener, f: Frame, k: nat)
    requires Acceptable(open, f) && k < |Encode(f)|
    ensures Parse(open, Encode(f)[..k]).Stop?
  {
    Widths();
    SplitTruncated(f, k);
    if HEADER_LEN <= k {
      assert Encode(f)[..k][1..HEADER_LEN] == BigEndian(4, |f.body|);
      ValueOfBigEndian(4, |f.body|);
    }
  }

  /** A stream of frames cut anywhere delivers the messages of the frames that arrived whole. */
  lemma {:induction false} CutDelivered(open: Opener, fs: seq<Frame>, k: nat)
    requires forall i :: 0 <= i < |fs| ==> Acceptable(open, fs[i])
    requires k <= |EncodeAll(fs)|
    ensures Messages(open, EncodeAll(fs)[..k]) == Delivered(open, DecodeAll(EncodeAll(fs)[..k]))
  {
    if fs == [] {
      assert EncodeAll(fs)[..k] == [];
    } else {
      var e, rest := Encode(fs[0]), EncodeAll(fs[1..]);
      if k < |e| {
        TakeLeft(e, rest, k);
        CutInside(open, fs[0], k);
      } else {
        TakeRight(e, rest, k);
        CutDelivered(open, fs[1..], k - |e|);
        CutBehind(open, fs[0], rest[..k - |e|]);
      }
    }
  }

  lemma CutInside(open: Opener, f: Frame, k: nat)
    requires Acceptable(open, f) && k < |Encode(f)|
    ensures Messages(open, Encode(f)[..k]) == [] == Delivered(open, DecodeAll(Encode(f)[..k]))
  {
    SplitTruncated(f, k);
    ParseTruncated(open, f, k);
  }

  lemma CutBehind(open: Opener, f: Frame, tail: seq<byte>)
    requires Acceptable(open, f) && Messages(open, tail) == Delivered(open, DecodeAll(tail))
    ensures Messages(open, Encode(f) + tail) == Delivered(open, DecodeAll(Encode(f) + tail))
  {
    DecodeCons(f, tail);
    MessagesCons(open, f, tail);
    DeliveredConcat(open, [f], DecodeAll(tail));
  }

  lemma MessagesCons(open: Opener, f: Frame, rest: seq<byte>)
    requires Acceptable(open, f)
    ensures Messages(open, Encode(f) + rest) == Delivered(open, [f]) + Messages(open, rest)
  {
    ParseCons(open, f, rest);
    assert [f][1..] == [];
    var v := Interpret(open, f);
    if v.Deliver? {
      EmptyConcat([v.msg]);
    } else {
      EmptyConcat(Messages(open, rest));
    }
  }

  // ----- from the server to the client's calls -----

  /** These messages, each with its future bytes, fit into frames. */
  predicate AllSendable(ms: seq<Message>, futures: seq<seq<byte>>) {
    |ms| == |futures| && forall i :: 0 <= i < |ms| ==> Sendable(ms[i]) && |FrameFor(ms[i], futures[i]).body| <= MAX_FRAME
  }

  function FramesFor(ms: seq<Message>, futures: seq<seq<byte>>): (fs: seq<Frame>)
    requires AllSendable(ms, futures)
    ensures |fs| == |ms| && forall i :: 0 <= i < |ms| ==> fs[i] == FrameFor(ms[i], futures[i])
  {
    seq(|ms|, i requires 0 <= i < |ms| => FrameFor(ms[i], futures[i]))
  }

  function AllAsRead(ms: seq<Message>): (r: seq<Message>)
    ensures |r| == |ms| && forall i :: 0 <= i < |ms| ==> r[i] == AsRead(ms[i])
  {
    seq(|ms|, i requires 0 <= i < |ms| => AsRead(ms[i]))
  }

  lemma {:induction false} EachDelivered(open: Opener, fs: seq<Frame>, ms: seq<Message>)
    requires |fs| == |ms| && forall i :: 0 <= i < |fs| ==> Interpret(open, fs[i]) == Deliver(ms[i])
    ensures Delivered(open, fs) == ms
  {
    if fs != [] {
      EachDelivered(open, fs[1..], ms[1..]);
    }
  }

  lemma SentDelivered(open: Opener, ms: seq<Message>, futures: seq<seq<byte>>)
    requires AllSendable(ms, futures)
    ensures Delivered(open, FramesFor(ms, futures)) == AllAsRead(ms)
    ensures forall i :: 0 <= i < |ms| ==> Acceptable(open, FramesFor(ms, futures)[i])
  {
    var fs := FramesFor(ms, futures);
    forall i | 0 <= i < |ms|
      ensures Interpret(open, fs[i]) == Deliver(AllAsRead(ms)[i]) && |fs[i].body| <= MAX_FRAME
    {
      MessageRead(open, ms[i], futures[i]);
    }
    EachDelivered(open, fs, AllAsRead(ms));
  }

  /** A client of any buffer size that receives what a server wrote gets exactly its messages, in order. */
  method ReceiveSent(ms: seq<Message>, futures: seq<seq<byte>>, size: nat, open: Opener) returns (got: seq<Message>)
    requires AllSendable(ms, futures) && MIN_BUFFER <= size
    ensures got == AllAsRead(ms)
  {
    var fs := FramesFor(ms, futures);
    var c := new Client(EncodeAll(fs), size, open);
    got := c.RecvAll();
    SentDelivered(open, ms, futures);
    StreamDelivered(open, fs, []);
    EmptyConcat(EncodeAll(fs));
    EmptyConcat(AllAsRead(ms));
  }
}
