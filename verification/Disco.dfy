/**
  The disco message codec: nine message types behind a type and a version byte, with
  variable-length address lists. `Marshal` is the wire form, `Parse` reads it, and
  `AppendMarshal` is the code that fills a buffer in place.
 */
module Disco {
  import opened Bytes
  import opened Seqs
  import opened Netip
  import Frame

  type Key = Frame.Key
  type TxID = t: seq<byte> | |t| == 12 witness Zeros(12)
  type u64 = x: int | 0 <= x < 0x1_0000_0000_0000_0000
  type i64 = x: int | -0x8000_0000_0000_0000 <= x < 0x8000_0000_0000_0000

  const PING: byte := 1
  const PONG: byte := 2
  const CALL_ME_MAYBE: byte := 3
  const BIND: byte := 4
  const BIND_CHALLENGE: byte := 5
  const BIND_ANSWER: byte := 6
  const CALL_ME_MAYBE_VIA: byte := 7
  const ALLOCATE_REQUEST: byte := 8
  const ALLOCATE_RESPONSE: byte := 9

  const EP_LEN := 18
  const PONG_LEN := 30
  const COMMON_LEN := 72
  const REQUEST_LEN := 68
  const RELAY_LEN := 124

  datatype Common = Common(vni: u32, generation: u32, remoteKey: Key, challenge: Key)
  datatype Relay = Relay(server: Key, client0: Key, client1: Key, lamport: u64, vni: u32,
                         bindLifetime: i64, steadyLifetime: i64, addrPorts: seq<AddrPort>)

  datatype Message =
    | Ping(txID: TxID, nodeKey: Key, padding: nat)
    | Pong(pongTxID: TxID, src: AddrPort)
    | CallMeMaybe(myNumber: seq<AddrPort>)
    | Bind(common: Common)
    | BindChallenge(common: Common)
    | BindAnswer(common: Common)
    | CallMeMaybeVia(relay: Relay)
    | AllocateRequest(client0: Key, client1: Key, generation: u32)
    | AllocateResponse(responseGeneration: u32, relay: Relay)

  // ----- fields -----

  /** A Go conversion between int64 and uint64: two's complement. */
  function ToU64(d: i64): u64 {
    if d < 0 then d + 0x1_0000_0000_0000_0000 else d
  }

  function ToI64(n: u64): i64 {
    if n >= 0x8000_0000_0000_0000 then n - 0x1_0000_0000_0000_0000 else n
  }

  function EncodeEndpoints(eps: seq<AddrPort>): (b: seq<byte>)
    ensures |b| == EP_LEN * |eps| && |b| % EP_LEN == 0
  {
    if eps == [] then [] else EncodeAddrPort(eps[0]) + EncodeEndpoints(eps[1..])
  }

  function DecodeEndpoints(b: seq<byte>): (eps: seq<AddrPort>)
    requires |b| % EP_LEN == 0
    ensures EP_LEN * |eps| == |b|
  {
    if b == [] then [] else [DecodeAddrPort(b[..EP_LEN])] + DecodeEndpoints(b[EP_LEN..])
  }

  function NormalPorts(eps: seq<AddrPort>): (r: seq<AddrPort>)
    ensures |r| == |eps|
  {
    if eps == [] then [] else [NormalPort(eps[0])] + NormalPorts(eps[1..])
  }

  function EncodeCommon(c: Common): (b: seq<byte>)
    ensures |b| == COMMON_LEN
  {
    BigEndian(4, c.vni) + BigEndian(4, c.generation) + c.remoteKey + c.challenge
  }

  function DecodeCommon(b: seq<byte>): Common
    requires |b| >= COMMON_LEN
  {
    Widths();
    Common(Value(b[..4]), Value(b[4..8]), b[8..40], b[40..72])
  }

  function EncodeRelay(r: Relay): (b: seq<byte>)
    ensures |b| == RELAY_LEN
  {
    r.server + r.client0 + r.client1 + BigEndian(8, r.lamport) + BigEndian(4, r.vni)
    + BigEndian(8, ToU64(r.bindLifetime)) + BigEndian(8, ToU64(r.steadyLifetime))
  }

  function DecodeRelay(b: seq<byte>): Relay
    requires |b| >= RELAY_LEN && (|b| - RELAY_LEN) % EP_LEN == 0
  {
    Widths();
    Relay(b[..32], b[32..64], b[64..96], Value(b[96..104]), Value(b[104..108]),
          ToI64(Value(b[108..116])), ToI64(Value(b[116..124])), DecodeEndpoints(b[RELAY_LEN..]))
  }

  // ----- messages -----

  function TypeOf(m: Message): byte {
    match m
    case Ping(_, _, _) => PING
    case Pong(_, _) => PONG
    case CallMeMaybe(_) => CALL_ME_MAYBE
    case Bind(_) => BIND
    case BindChallenge(_) => BIND_CHALLENGE
    case BindAnswer(_) => BIND_ANSWER
    case CallMeMaybeVia(_) => CALL_ME_MAYBE_VIA
    case AllocateRequest(_, _, _) => ALLOCATE_REQUEST
    case AllocateResponse(_, _) => ALLOCATE_RESPONSE
  }

  /** A zero node key is left out. */
  function PingKey(k: Key): seq<byte> {
    if k == Zeros(32) then [] else k
  }

  function Body(m: Message): seq<byte> {
    match m
    case Ping(t, k, n) => t + PingKey(k) + Zeros(n)
    case Pong(t, src) => t + EncodeAddrPort(src)
    case CallMeMaybe(eps) => EncodeEndpoints(eps)
    case Bind(c) => EncodeCommon(c)
    case BindChallenge(c) => EncodeCommon(c)
    case BindAnswer(c) => EncodeCommon(c)
    case CallMeMaybeVia(r) => EncodeRelay(r) + EncodeEndpoints(r.addrPorts)
    case AllocateRequest(k0, k1, g) => k0 + k1 + BigEndian(4, g)
    case AllocateResponse(g, r) => BigEndian(4, g) + (EncodeRelay(r) + EncodeEndpoints(r.addrPorts))
  }

  function Marshal(m: Message): seq<byte> {
    [TypeOf(m), 0] + Body(m)
  }

  datatype Result = Ok(m: Message) | Short | Unknown(t: byte)

  const NO_KEY: Key := Zeros(32)
  const NO_RELAY := Relay(NO_KEY, NO_KEY, NO_KEY, 0, 0, 0, 0, [])

  function ParsePing(p: seq<byte>): Result {
    if |p| < 12 then Short
    else if |p| >= 44 && p[12..44] != NO_KEY then Ok(Ping(p[..12], p[12..44], |p| - 44))
    else Ok(Ping(p[..12], NO_KEY, |p| - 12))
  }

  function ParsePong(p: seq<byte>): Result {
    if |p| < PONG_LEN then Short else Ok(Pong(p[..12], DecodeAddrPort(p[12..30])))
  }

  /** A message of a later version, or of an odd length, is taken as one without addresses. */
  function ParseCallMeMaybe(ver: byte, p: seq<byte>): Result {
    if |p| % EP_LEN != 0 || ver != 0 then Ok(CallMeMaybe([])) else Ok(CallMeMaybe(DecodeEndpoints(p)))
  }

  function ParseRequest(ver: byte, p: seq<byte>): Result {
    Widths();
    if ver != 0 then Ok(AllocateRequest(NO_KEY, NO_KEY, 0))
    else if |p| < REQUEST_LEN then Short
    else Ok(AllocateRequest(p[..32], p[32..64], Value(p[64..68])))
  }

  predicate HoldsRelay(p: seq<byte>) {
    |p| >= RELAY_LEN + EP_LEN && (|p| - RELAY_LEN) % EP_LEN == 0
  }

  function ParseVia(ver: byte, p: seq<byte>): Result {
    if ver != 0 then Ok(CallMeMaybeVia(NO_RELAY))
    else if !HoldsRelay(p) then Short
    else Ok(CallMeMaybeVia(DecodeRelay(p)))
  }

  function ParseResponse(ver: byte, p: seq<byte>): Result {
    Widths();
    if ver != 0 then Ok(AllocateResponse(0, NO_RELAY))
    else if |p| < 4 || !HoldsRelay(p[4..]) then Short
    else Ok(AllocateResponse(Value(p[..4]), DecodeRelay(p[4..])))
  }

  function ParseBind(t: byte, p: seq<byte>): Result
    requires BIND <= t <= BIND_ANSWER
  {
    if |p| < COMMON_LEN then Short
    else if t == BIND then Ok(Bind(DecodeCommon(p)))
    else if t == BIND_CHALLENGE then Ok(BindChallenge(DecodeCommon(p)))
    else Ok(BindAnswer(DecodeCommon(p)))
  }

  function ParseBody(t: byte, ver: byte, p: seq<byte>): Result {
    if t == PING then ParsePing(p)
    else if t == PONG then ParsePong(p)
    else if t == CALL_ME_MAYBE then ParseCallMeMaybe(ver, p)
    else if BIND <= t <= BIND_ANSWER then ParseBind(t, p)
    else if t == CALL_ME_MAYBE_VIA then ParseVia(ver, p)
    else if t == ALLOCATE_REQUEST then ParseRequest(ver, p)
    else if t == ALLOCATE_RESPONSE then ParseResponse(ver, p)
    else Unknown(t)
  }

  function Parse(b: seq<byte>): Result {
    if |b| < 2 then Short else ParseBody(b[0], b[1], b[2..])
  }

  // ----- the format, by numbers -----

  /** The first byte tells the type and the second the version, which is 0. */
  lemma HeaderLayout(m: Message)
    ensures |Marshal(m)| >= 2 && Marshal(m)[1] == 0
    ensures Marshal(m)[0] == match m
      case Ping(_, _, _) => 1
      case Pong(_, _) => 2
      case CallMeMaybe(_) => 3
      case Bind(_) => 4
      case BindChallenge(_) => 5
      case BindAnswer(_) => 6
      case CallMeMaybeVia(_) => 7
      case AllocateRequest(_, _, _) => 8
      case AllocateResponse(_, _) => 9
  {
  }

  /** Where the fields of the bind body and of a relay endpoint are. */
  lemma FieldLayout(c: Common, r: Relay)
    ensures var b := EncodeCommon(c);
      b[..4] == BigEndian(4, c.vni) && b[4..8] == BigEndian(4, c.generation) && b[8..40] == c.remoteKey && b[40..72] == c.challenge
    ensures var b := EncodeRelay(r);
      && b[..32] == r.server && b[32..64] == r.client0 && b[64..96] == r.client1
      && b[96..104] == BigEndian(8, r.lamport) && b[104..108] == BigEndian(4, r.vni)
      && b[108..116] == BigEndian(8, ToU64(r.bindLifetime)) && b[116..124] == BigEndian(8, ToU64(r.steadyLifetime))
  {
  }

  /** Where the parts of the messages are. */
  lemma PingLayout(t: TxID, k: Key, n: nat)
    ensures var b := Marshal(Ping(t, k, n));
      && |b| == 14 + n + (if k == Zeros(32) then 0 else 32) && b[2..14] == t
      && (k != Zeros(32) ==> b[14..46] == k)
  {
  }

  lemma PongLayout(t: TxID, src: AddrPort)
    ensures var b := Marshal(Pong(t, src));
      |b| == 32 && b[2..14] == t && b[14..32] == EncodeAddrPort(src)
  {
  }

  lemma RequestLayout(k0: Key, k1: Key, g: u32)
    ensures var b := Marshal(AllocateRequest(k0, k1, g));
      |b| == 70 && b[2..34] == k0 && b[34..66] == k1 && b[66..70] == BigEndian(4, g)
  {
  }

  lemma ViaLayout(r: Relay)
    ensures var b := Marshal(CallMeMaybeVia(r));
      |b| >= 126 && b[2..126] == EncodeRelay(r) && b[126..] == EncodeEndpoints(r.addrPorts)
  {
    ViaSlices([CALL_ME_MAYBE_VIA, 0], EncodeRelay(r), EncodeEndpoints(r.addrPorts));
  }

  lemma ViaSlices(head: seq<byte>, r: seq<byte>, eps: seq<byte>)
    requires |head| == 2 && |r| == RELAY_LEN
    ensures var b := head + (r + eps); b[2..126] == r && b[126..] == eps
  {
  }

  lemma ResponseLayout(g: u32, r: Relay)
    ensures var b := Marshal(AllocateResponse(g, r));
      |b| >= 130 && b[2..6] == BigEndian(4, g) && b[6..130] == EncodeRelay(r) && b[130..] == EncodeEndpoints(r.addrPorts)
  {
    ResponseSlices([ALLOCATE_RESPONSE, 0], BigEndian(4, g), EncodeRelay(r), EncodeEndpoints(r.addrPorts));
  }

  lemma ResponseSlices(head: seq<byte>, g: seq<byte>, r: seq<byte>, eps: seq<byte>)
    requires |head| == 2 && |g| == 4 && |r| == RELAY_LEN
    ensures var b := head + (g + (r + eps)); b[2..6] == g && b[6..130] == r && b[130..] == eps
  {
  }

  /** A message is short iff it lacks a header or the fixed part of its type, or a relay endpoint has not one or more addresses. */
  lemma ShortIff(b: seq<byte>)
    ensures Parse(b).Short? <==>
      || |b| < 2
      || (b[0] == 1 && |b| < 2 + 12)
      || (b[0] == 2 && |b| < 2 + 30)
      || (4 <= b[0] <= 6 && |b| < 2 + 72)
      || (b[0] == 7 && b[1] == 0 && (|b| < 2 + 124 + 18 || (|b| - 126) % 18 != 0))
      || (b[0] == 8 && b[1] == 0 && |b| < 2 + 68)
      || (b[0] == 9 && b[1] == 0 && (|b| < 6 + 124 + 18 || (|b| - 130) % 18 != 0))
    ensures Parse(b).Unknown? <==> |b| >= 2 && (b[0] < 1 || b[0] > 9)
  {
  }

  /** Of a later version, four types are taken as empty, and the others as they would be of this one. */
  lemma LaterVersion(t: byte, ver: byte, p: seq<byte>)
    requires ver != 0
    ensures var now, later := Parse([t, 0] + p), Parse([t, ver] + p);
      if t == 3 then later == Ok(CallMeMaybe([]))
      else if t == 7 then later == Ok(CallMeMaybeVia(NO_RELAY))
      else if t == 8 then later == Ok(AllocateRequest(NO_KEY, NO_KEY, 0))
      else if t == 9 then later == Ok(AllocateResponse(0, NO_RELAY))
      else later == now
  {
    assert ([t, 0] + p)[2..] == p && ([t, ver] + p)[2..] == p;
  }

  // ----- reading what was written -----

  function NormalRelay(r: Relay): Relay {
    r.(addrPorts := NormalPorts(r.addrPorts))
  }

  /** What a message becomes on the way: its addresses in normal form, nothing else. */
  function Normalised(m: Message): Message {
    match m
    case Pong(t, src) => Pong(t, NormalPort(src))
    case CallMeMaybe(eps) => CallMeMaybe(NormalPorts(eps))
    case CallMeMaybeVia(r) => CallMeMaybeVia(NormalRelay(r))
    case AllocateResponse(g, r) => AllocateResponse(g, NormalRelay(r))
    case _ => m
  }

  lemma {:induction false} EndpointsRoundTrip(eps: seq<AddrPort>)
    ensures DecodeEndpoints(EncodeEndpoints(eps)) == NormalPorts(eps)
  {
    if eps != [] {
      CutAt(EncodeAddrPort(eps[0]), EncodeEndpoints(eps[1..]));
      AddrPortRoundTrip(eps[0]);
      EndpointsRoundTrip(eps[1..]);
    }
  }

  lemma CommonRoundTrip(c: Common)
    ensures DecodeCommon(EncodeCommon(c)) == c
  {
    Widths();
    var vni, generation := BigEndian(4, c.vni), BigEndian(4, c.generation);
    var b := EncodeCommon(c);
    CutAt(vni, generation);
    CutAt(vni + generation, c.remoteKey);
    CutAt(vni + generation + c.remoteKey, c.challenge);
    assert b[..4] == b[..40][..8][..4] == vni;
    assert b[4..8] == b[..40][..8][4..] == generation;
    assert b[8..40] == b[..40][8..] == c.remoteKey;
    assert b[40..72] == b[40..] == c.challenge;
    ValueOfBigEndian(4, c.vni);
    ValueOfBigEndian(4, c.generation);
  }

  lemma RelayRoundTrip(r: Relay)
    ensures DecodeRelay(EncodeRelay(r) + EncodeEndpoints(r.addrPorts)) == NormalRelay(r)
  {
    Widths();
    var b := EncodeRelay(r) + EncodeEndpoints(r.addrPorts);
    assert b[..32] == r.server;
    assert b[32..64] == r.client0;
    assert b[64..96] == r.client1;
    assert b[96..104] == BigEndian(8, r.lamport);
    assert b[104..108] == BigEndian(4, r.vni);
    assert b[108..116] == BigEndian(8, ToU64(r.bindLifetime));
    assert b[116..124] == BigEndian(8, ToU64(r.steadyLifetime));
    assert b[RELAY_LEN..] == EncodeEndpoints(r.addrPorts);
    ValueOfBigEndian(8, r.lamport);
    ValueOfBigEndian(4, r.vni);
    ValueOfBigEndian(8, ToU64(r.bindLifetime));
    ValueOfBigEndian(8, ToU64(r.steadyLifetime));
    EndpointsRoundTrip(r.addrPorts);
  }

  predicate Relayed(m: Message) {
    m.CallMeMaybeVia? || m.AllocateResponse?
  }

  /** The body of m parses back to m in normal form, unless it is a relay endpoint without addresses. */
  predicate Survives(m: Message) {
    ParseBody(TypeOf(m), 0, Body(m)) == if Relayed(m) && m.relay.addrPorts == [] then Short else Ok(Normalised(m))
  }

  lemma PingSurvives(m: Message)
    requires m.Ping?
    ensures Survives(m)
  {
    var k := PingKey(m.nodeKey);
    var p := Body(m);
    assert p[..12] == m.txID;
    if k == [] {
      assert |p| >= 44 ==> p[12..44] == NO_KEY;
    } else {
      assert p[12..44] == m.nodeKey;
    }
    assert ParsePing(p) == Ok(m);
  }

  lemma PongSurvives(m: Message)
    requires m.Pong?
    ensures Survives(m)
  {
    CutAt(m.pongTxID, EncodeAddrPort(m.src));
    assert Body(m)[12..30] == Body(m)[12..];
    AddrPortRoundTrip(m.src);
    assert ParsePong(Body(m)) == Ok(Normalised(m));
  }

  lemma CallSurvives(m: Message)
    requires m.CallMeMaybe?
    ensures Survives(m)
  {
    EndpointsRoundTrip(m.myNumber);
    assert ParseCallMeMaybe(0, Body(m)) == Ok(Normalised(m));
  }

  lemma BindSurvives(m: Message)
    requires m.Bind? || m.BindChallenge? || m.BindAnswer?
    ensures Survives(m)
  {
    CommonRoundTrip(m.common);
    assert ParseBind(TypeOf(m), Body(m)) == Ok(m);
  }

  lemma ViaSurvives(m: Message)
    requires m.CallMeMaybeVia?
    ensures Survives(m)
  {
    RelayRoundTrip(m.relay);
    assert ParseVia(0, Body(m)) == if m.relay.addrPorts == [] then Short else Ok(Normalised(m));
  }

  lemma RequestSurvives(m: Message)
    requires m.AllocateRequest?
    ensures Survives(m)
  {
    Widths();
    var p := Body(m);
    assert p[..32] == m.client0 && p[32..64] == m.client1 && p[64..68] == BigEndian(4, m.generation);
    ValueOfBigEndian(4, m.generation);
    assert ParseRequest(0, p) == Ok(m);
  }

  lemma ResponseSurvives(m: Message)
    requires m.AllocateResponse?
    ensures Survives(m)
  {
    Widths();
    var g := BigEndian(4, m.responseGeneration);
    var b := EncodeRelay(m.relay) + EncodeEndpoints(m.relay.addrPorts);
    var p := Body(m);
    assert p[..4] == g && p[4..] == b by {
      CutAt(g, b);
    }
    ValueOfBigEndian(4, m.responseGeneration);
    RelayRoundTrip(m.relay);
    assert ParseResponse(0, p) == if m.relay.addrPorts == [] then Short else Ok(Normalised(m));
  }

  lemma BodySurvives(m: Message)
    ensures Survives(m)
  {
    match m {
      case Ping(_, _, _) => PingSurvives(m);
      case Pong(_, _) => PongSurvives(m);
      case CallMeMaybe(_) => CallSurvives(m);
      case Bind(_) => BindSurvives(m);
      case BindChallenge(_) => BindSurvives(m);
      case BindAnswer(_) => BindSurvives(m);
      case CallMeMaybeVia(_) => ViaSurvives(m);
      case AllocateRequest(_, _, _) => RequestSurvives(m);
      case AllocateResponse(_, _) => ResponseSurvives(m);
    }
  }

  /**
    Every message parses back to itself with its addresses in normal form, except that a
    relay endpoint without addresses is refused as short.
   */
  lemma RoundTrip(m: Message)
    ensures Parse(Marshal(m)) == if Relayed(m) && m.relay.addrPorts == [] then Short else Ok(Normalised(m))
  {
    CutAt([TypeOf(m), 0], Body(m));
    BodySurvives(m);
  }

  lemma {:induction false} NormalPortsKeep(eps: seq<AddrPort>)
    ensures EncodeEndpoints(NormalPorts(eps)) == EncodeEndpoints(eps)
    ensures NormalPorts(NormalPorts(eps)) == NormalPorts(eps)
  {
    if eps != [] {
      NormalKeepsBytes(eps[0].addr);
      NormalPortsKeep(eps[1..]);
    }
  }

  predicate SameOnWire(m: Message) {
    Normalised(Normalised(m)) == Normalised(m) && TypeOf(Normalised(m)) == TypeOf(m) && Body(Normalised(m)) == Body(m)
  }

  lemma PongOnWire(m: Message)
    requires m.Pong?
    ensures SameOnWire(m)
  {
    NormalKeepsBytes(m.src.addr);
  }

  lemma CallOnWire(m: Message)
    requires m.CallMeMaybe?
    ensures SameOnWire(m)
  {
    NormalPortsKeep(m.myNumber);
  }

  lemma RelayOnWire(r: Relay)
    ensures EncodeRelay(NormalRelay(r)) == EncodeRelay(r)
    ensures EncodeEndpoints(NormalRelay(r).addrPorts) == EncodeEndpoints(r.addrPorts)
    ensures NormalRelay(NormalRelay(r)) == NormalRelay(r)
  {
    NormalPortsKeep(r.addrPorts);
  }

  lemma ViaOnWire(m: Message)
    requires m.CallMeMaybeVia?
    ensures SameOnWire(m)
  {
    RelayOnWire(m.relay);
  }

  lemma ResponseOnWire(m: Message)
    requires m.AllocateResponse?
    ensures SameOnWire(m)
  {
    RelayOnWire(m.relay);
  }

  /** Normalising is idempotent and does not show on the wire. */
  lemma NormalisedKeeps(m: Message)
    ensures Normalised(Normalised(m)) == Normalised(m)
    ensures Marshal(Normalised(m)) == Marshal(m)
  {
    if m.Pong? {
      PongOnWire(m);
    } else if m.CallMeMaybe? {
      CallOnWire(m);
    } else if m.CallMeMaybeVia? {
      ViaOnWire(m);
    } else if m.AllocateResponse? {
      ResponseOnWire(m);
    }
  }

  // ----- writing what was read -----

  lemma AddrPortInverse(b: seq<byte>)
    requires |b| == EP_LEN
    ensures EncodeAddrPort(DecodeAddrPort(b)) == b
  {
    Widths();
    Width128();
    var a := From16(b[..16]);
    BigEndianOfValue(b[..16]);
    BigEndianOfValue(b[16..18]);
    assert As16(Unmap(a)) == As16(a);
    SplitAt(b, 16);
  }

  lemma {:induction false} EndpointsInverse(b: seq<byte>)
    requires |b| % EP_LEN == 0
    ensures EncodeEndpoints(DecodeEndpoints(b)) == b
    decreases |b|
  {
    if b != [] {
      AddrPortInverse(b[..EP_LEN]);
      EndpointsInverse(b[EP_LEN..]);
      SplitAt(b, EP_LEN);
    }
  }

  lemma CommonInverse(b: seq<byte>)
    requires |b| >= COMMON_LEN
    ensures EncodeCommon(DecodeCommon(b)) == b[..COMMON_LEN]
  {
    Widths();
    BigEndianOfValue(b[..4]);
    BigEndianOfValue(b[4..8]);
    SplitAt2(b, 4, 8);
    SplitAt2(b, 8, 40);
    SplitAt2(b, 40, 72);
  }

  lemma LifetimeInverse(b: seq<byte>)
    requires |b| == 8
    ensures Value(b) < 0x1_0000_0000_0000_0000
    ensures BigEndian(8, ToU64(ToI64(Value(b)))) == b
  {
    Widths();
    BigEndianOfValue(b);
  }

  lemma RelayInverse(b: seq<byte>)
    requires |b| >= RELAY_LEN && (|b| - RELAY_LEN) % EP_LEN == 0
    ensures EncodeRelay(DecodeRelay(b)) + EncodeEndpoints(DecodeRelay(b).addrPorts) == b
  {
    Widths();
    BigEndianOfValue(b[96..104]);
    BigEndianOfValue(b[104..108]);
    LifetimeInverse(b[108..116]);
    LifetimeInverse(b[116..124]);
    EndpointsInverse(b[RELAY_LEN..]);
    SplitAt2(b, 32, 64);
    SplitAt2(b, 64, 96);
    SplitAt2(b, 96, 104);
    SplitAt2(b, 104, 108);
    SplitAt2(b, 108, 116);
    SplitAt2(b, 116, 124);
    SplitAt(b, RELAY_LEN);
  }

  /** The part of a ping after its key, if it has one. */
  function Spare(p: seq<byte>): seq<byte>
    requires |p| >= 12
  {
    if |p| >= 44 && p[12..44] != NO_KEY then p[44..] else p[12..]
  }

  /** A body with nothing a message does not record: no bytes left over, padding all zero. */
  predicate CanonicalBody(t: byte, p: seq<byte>) {
    if t == PING then |p| >= 12 && Spare(p) == Zeros(|Spare(p)|)
    else if t == PONG then |p| == PONG_LEN
    else if t == CALL_ME_MAYBE then |p| % EP_LEN == 0
    else if BIND <= t <= BIND_ANSWER then |p| == COMMON_LEN
    else if t == ALLOCATE_REQUEST then |p| == REQUEST_LEN
    else true
  }

  predicate Canonical(b: seq<byte>)
    requires |b| >= 2
  {
    b[1] == 0 && CanonicalBody(b[0], b[2..])
  }

  /** If p parses, what it parses to is written back as p exactly if p is canonical. */
  predicate WrittenBack(t: byte, p: seq<byte>) {
    var r := ParseBody(t, 0, p);
    r.Ok? ==> TypeOf(r.m) == t && (Body(r.m) == p <==> CanonicalBody(t, p))
  }

  lemma PingBack(p: seq<byte>)
    ensures WrittenBack(PING, p)
  {
    if |p| >= 12 {
      SplitAt(p, 12);
      if |p| >= 44 && p[12..44] != NO_KEY {
        SplitAt(p, 44);
        SplitAt2(p, 12, 44);
        SameLeft(p[..44], Zeros(|p| - 44), p[44..]);
      } else {
        EmptyConcat(p[..12]);
        SameLeft(p[..12], Zeros(|p| - 12), p[12..]);
      }
    }
  }

  lemma PongBack(p: seq<byte>)
    ensures WrittenBack(PONG, p)
  {
    if |p| >= PONG_LEN {
      AddrPortInverse(p[12..30]);
      SplitAt2(p, 12, 30);
      assert Body(ParsePong(p).m) == p[..PONG_LEN];
    }
  }

  lemma CallBack(p: seq<byte>)
    ensures WrittenBack(CALL_ME_MAYBE, p)
  {
    if |p| % EP_LEN == 0 {
      EndpointsInverse(p);
    }
  }

  lemma BindBack(t: byte, p: seq<byte>)
    requires BIND <= t <= BIND_ANSWER
    ensures WrittenBack(t, p)
  {
    if |p| >= COMMON_LEN {
      CommonInverse(p);
      assert Body(ParseBind(t, p).m) == p[..COMMON_LEN];
    }
  }

  lemma ViaBack(p: seq<byte>)
    ensures WrittenBack(CALL_ME_MAYBE_VIA, p)
  {
    if HoldsRelay(p) {
      RelayInverse(p);
    }
  }

  lemma RequestBack(p: seq<byte>)
    ensures WrittenBack(ALLOCATE_REQUEST, p)
  {
    Widths();
    if |p| >= REQUEST_LEN {
      BigEndianOfValue(p[64..68]);
      SplitAt2(p, 32, 64);
      SplitAt2(p, 64, 68);
      assert Body(ParseRequest(0, p).m) == p[..REQUEST_LEN];
    }
  }

  lemma ResponseBack(p: seq<byte>)
    ensures WrittenBack(ALLOCATE_RESPONSE, p)
  {
    Widths();
    if |p| >= 4 && HoldsRelay(p[4..]) {
      BigEndianOfValue(p[..4]);
      RelayInverse(p[4..]);
      SplitAt(p, 4);
    }
  }

  lemma BodyBack(t: byte, p: seq<byte>)
    ensures WrittenBack(t, p)
  {
    if t == PING {
      PingBack(p);
    } else if t == PONG {
      PongBack(p);
    } else if t == CALL_ME_MAYBE {
      CallBack(p);
    } else if BIND <= t <= BIND_ANSWER {
      BindBack(t, p);
    } else if t == CALL_ME_MAYBE_VIA {
      ViaBack(p);
    } else if t == ALLOCATE_REQUEST {
      RequestBack(p);
    } else if t == ALLOCATE_RESPONSE {
      ResponseBack(p);
    }
  }

  /** What was parsed marshals to the very bytes it came from exactly if they are canonical. */
  lemma MarshalsBackIff(b: seq<byte>)
    requires Parse(b).Ok?
    ensures Marshal(Parse(b).m) == b <==> Canonical(b)
  {
    if b[1] == 0 {
      SplitAt(b, 2);
      assert b[..2] == [b[0], 0];
      BodyBack(b[0], b[2..]);
      var m := Parse(b).m;
      SameLeft([b[0], 0], Body(m), b[2..]);
    } else {
      assert Marshal(Parse(b).m)[1] == 0;
    }
  }
}
