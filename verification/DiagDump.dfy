/**
  `diagDump`: one inet_diag transaction, from the datagrams received to the sockets it names.
  What receiving yields is a parameter: a datagram, an interruption, or an error such as the
  deadline passing.
 */
module DiagDump {
  import opened Bytes
  import opened Netip
  import opened Seqs
  import opened Strings
  import opened NetlinkDiag
  import opened PortPoller

  const AF_INET: byte := 2
  const AF_INET6: byte := 10
  const IPPROTO_TCP: byte := 6
  const MAX_MESSAGES := 0x10_0000
  const MAX_RECORDS := 0x10_0000
  const MAX_BYTES := 0x800_0000

  // ----- records -----

  /** A record's socket is keyed as the links in /proc name it. */
  function KeyOf(inode: nat): Key {
    "socket:[" + Decimal(inode) + "]"
  }

  /** The key is the inode, in decimal, between "socket:[" and "]". */
  lemma KeyReads(inode: nat)
    ensures var k := KeyOf(inode);
      |k| > 9 && "socket:[" <= k && k[|k| - 1] == ']' && Number(k[8..|k| - 1]) == inode
  {
    DecimalReads(inode);
    assert KeyOf(inode)[8..|KeyOf(inode)| - 1] == Decimal(inode);
  }

  lemma KeyInjective(a: nat, b: nat)
    requires KeyOf(a) == KeyOf(b)
    ensures a == b
  {
    KeyReads(a);
    KeyReads(b);
  }

  /** The request: byte order, port and sequence number of the transaction, and what it asks for. */
  datatype Query = Query(dump: Dump, proto: byte, includeLocalhost: bool)

  predicate IsLocalhost(family: byte, local: seq<byte>)
    requires |local| == 16
  {
    || (family == AF_INET && local[..4] == [127, 0, 0, 1] && AllZero(local[4..]))
    || (family == AF_INET6 && AllZero(local[..15]) && local[15] == 1)
  }

  /** The listener a record describes: one without a remote end, and not bound to localhost. */
  function RowOf(q: Query, body: seq<byte>): Option<Row>
    requires |body| >= MIN_BODY
  {
    Widths();
    if !AllZero(body[24..40]) || body[6] != 0 || body[7] != 0 then None
    else if !q.includeLocalhost && IsLocalhost(q.dump.family, body[8..24]) then None
    else Some(Row(KeyOf(Native(q.dump.le, body[68..72])),
                  Socket(if q.proto == IPPROTO_TCP then "tcp" else "udp", Value(body[4..6]))))
  }

  /**
    The fields of an `inet_diag_msg`; `head`, `misc` and `attributes` are what is not looked at.
    Ports and addresses are in network byte order, the inode in that of the machine.
   */
  datatype DiagMsg = DiagMsg(family: byte, head: seq<byte>, sourcePort: u16, destPort: u16,
                             local: seq<byte>, remote: seq<byte>, misc: seq<byte>, inode: u32, attributes: seq<byte>)

  predicate WellFormed(r: DiagMsg) {
    |r.head| == 3 && |r.local| == 16 && |r.remote| == 16 && |r.misc| == 28
  }

  function EncodeMsg(le: bool, r: DiagMsg): seq<byte> {
    [r.family] + r.head + BigEndian(2, r.sourcePort) + BigEndian(2, r.destPort) + r.local + r.remote + r.misc
    + NativeBytes(le, 4, r.inode) + r.attributes
  }

  /** The fields of a record's body. */
  function DecodeMsg(le: bool, b: seq<byte>): (r: DiagMsg)
    requires |b| >= MIN_BODY
    ensures WellFormed(r)
  {
    Widths();
    DiagMsg(b[0], b[1..4], Value(b[4..6]), Value(b[6..8]), b[8..24], b[24..40], b[40..68], Native(le, b[68..72]), b[72..])
  }

  lemma MsgLayout(le: bool, r: DiagMsg)
    requires WellFormed(r)
    ensures var b := EncodeMsg(le, r);
      && |b| >= MIN_BODY
      && b[0] == r.family && b[1..4] == r.head && b[4..6] == BigEndian(2, r.sourcePort) && b[6..8] == BigEndian(2, r.destPort)
      && b[8..24] == r.local && b[24..40] == r.remote && b[40..68] == r.misc
      && b[68..72] == NativeBytes(le, 4, r.inode) && b[72..] == r.attributes
  {
  }

  /** Encoding and decoding undo each other, so every body is the encoding of its fields and of no others. */
  lemma MsgRoundTrip(le: bool, r: DiagMsg)
    requires WellFormed(r)
    ensures |EncodeMsg(le, r)| >= MIN_BODY && DecodeMsg(le, EncodeMsg(le, r)) == r
  {
    Widths();
    MsgLayout(le, r);
    ValueOfBigEndian(2, r.sourcePort);
    ValueOfBigEndian(2, r.destPort);
    NativeRoundTrip(le, 4, r.inode);
  }

  lemma MsgInverse(le: bool, b: seq<byte>)
    requires |b| >= MIN_BODY
    ensures EncodeMsg(le, DecodeMsg(le, b)) == b
  {
    BigEndianOfValue(b[4..6]);
    BigEndianOfValue(b[6..8]);
    NativeInverse(le, b[68..72]);
  }

  /** 127.0.0.1 in the first four of the sixteen bytes, or ::1. */
  predicate Loopback(family: byte, local: seq<byte>) {
    || (family == AF_INET && local == [127, 0, 0, 1] + Zeros(12))
    || (family == AF_INET6 && local == Zeros(15) + [1])
  }

  /** A listener: no remote end, and not bound to localhost unless that is asked for. */
  predicate Listens(q: Query, r: DiagMsg) {
    && r.remote == Zeros(16) && r.destPort == 0
    && (q.includeLocalhost || !Loopback(q.dump.family, r.local))
  }

  function SocketOf(q: Query, r: DiagMsg): Socket {
    Socket(if q.proto == IPPROTO_TCP then "tcp" else "udp", r.sourcePort)
  }

  lemma ZeroIff(b: seq<byte>)
    ensures AllZero(b) <==> b == Zeros(|b|)
  {
  }

  lemma LoopbackIff(family: byte, local: seq<byte>)
    requires |local| == 16
    ensures IsLocalhost(family, local) <==> Loopback(family, local)
  {
    SplitAt(local, 4);
    SplitAt(local, 15);
    ZeroIff(local[4..]);
    ZeroIff(local[..15]);
    assert local[15..] == [local[15]];
    CutAt([127, 0, 0, 1], Zeros(12));
    CutAt(Zeros(15), [1]);
  }

  lemma PortValue(b: seq<byte>)
    requires |b| == 2
    ensures Value(b) == 256 * (b[0] as int) + b[1]
  {
    assert Value(b) == 256 * Value(b[..1]) + b[1];
    assert Value(b[..1]) == 256 * Value(b[..1][..0]) + b[0];
  }

  lemma PortZero(b: seq<byte>)
    requires |b| == 2
    ensures Value(b) == 0 <==> b[0] == 0 && b[1] == 0
  {
    PortValue(b);
  }

  /** What the callback makes of a body, in terms of its fields: a row iff it listens, with its inode and source port. */
  lemma RowIs(q: Query, b: seq<byte>)
    requires |b| >= MIN_BODY
    ensures var r := DecodeMsg(q.dump.le, b);
      RowOf(q, b) == if Listens(q, r) then Some(Row(KeyOf(r.inode), SocketOf(q, r))) else None
    ensures SocketOf(q, DecodeMsg(q.dump.le, b)) == Socket(if q.proto == 6 then "tcp" else "udp", 256 * (b[4] as int) + b[5])
  {
    Widths();
    ZeroIff(b[24..40]);
    PortZero(b[6..8]);
    PortValue(b[4..6]);
    LoopbackIff(q.dump.family, b[8..24]);
  }

  predicate LongEnough(bodies: seq<seq<byte>>) {
    forall b :: b in bodies ==> |b| >= MIN_BODY
  }

  function Rows(q: Query, bodies: seq<seq<byte>>): seq<Row>
    requires LongEnough(bodies)
  {
    if bodies == [] then []
    else
      var r := RowOf(q, bodies[0]);
      (if r.Some? then [r.value] else []) + Rows(q, bodies[1..])
  }

  /** The body is that of a listener with this key. */
  ghost predicate Describes(q: Query, body: seq<byte>, k: Key) {
    |body| >= MIN_BODY && Listens(q, DecodeMsg(q.dump.le, body)) && KeyOf(DecodeMsg(q.dump.le, body).inode) == k
  }

  ghost predicate Described(q: Query, bodies: seq<seq<byte>>, k: Key) {
    exists b :: b in bodies && Describes(q, b, k)
  }

  lemma DescribedCons(q: Query, bodies: seq<seq<byte>>, k: Key)
    requires bodies != []
    ensures Described(q, bodies, k) <==> Describes(q, bodies[0], k) || Described(q, bodies[1..], k)
  {
    HeadTail(bodies);
    if Described(q, bodies, k) {
      var b :| b in bodies && Describes(q, b, k);
      assert b == bodies[0] || b in bodies[1..];
    }
  }

  /** A socket is among the rows iff a record describes it. */
  lemma {:induction false} RowsListed(q: Query, bodies: seq<seq<byte>>, k: Key)
    requires LongEnough(bodies)
    ensures Listed(Rows(q, bodies), k) <==> Described(q, bodies, k)
  {
    if bodies != [] {
      RowsListed(q, bodies[1..], k);
      RowIs(q, bodies[0]);
      DescribedCons(q, bodies, k);
      var r := RowOf(q, bodies[0]);
      var rest := Rows(q, bodies[1..]);
      if r.Some? {
        ListedCons(r.value, rest, k);
      } else {
        EmptyConcat(rest);
      }
    }
  }

  lemma ListedCons(r: Row, rows: seq<Row>, k: Key)
    ensures Listed([r] + rows, k) <==> r.key == k || Listed(rows, k)
  {
    if Listed(rows, k) {
      var i :| 0 <= i < |rows| && rows[i].key == k;
      assert ([r] + rows)[i + 1].key == k;
    }
    if r.key == k {
      assert ([r] + rows)[0].key == k;
    }
  }

  // ----- a transaction -----

  datatype Reception =
    | Datagram(bytes: seq<byte>, truncated: bool, fromKernel: bool)
    | EINTR
    | RecvError(capability: bool)

  datatype Budget = Budget(messages: nat, records: nat, bytes: nat)

  /** The bodies of the records accepted, and how the transaction ended. */
  datatype Result = Result(bodies: seq<seq<byte>>, failed: bool, capability: bool)

  /** `isDiagCapabilityError` of an error code in a netlink message, a negative 32 bit integer. */
  predicate IsCapability(err: Error) {
    err.NetlinkError? && err.code >= 0x8000_0000
    && 0x1_0000_0000 - err.code in {1, 2, 13, 22, 38, 92, 93, 97}
  }

  function Before(bs: seq<seq<byte>>, r: Result): Result {
    r.(bodies := bs + r.bodies)
  }

  function Transact(q: Dump, rs: seq<Reception>, b: Budget): Result {
    if b.messages == 0 || rs == [] then Result([], true, false)
    else match rs[0]
      case EINTR => Transact(q, rs[1..], b)
      case RecvError(c) => Result([], true, c)
      case Datagram(d, truncated, fromKernel) =>
        if |d| > b.bytes || truncated || !fromKernel then Result([], true, false)
        else
          var o := Scan(q, Messages(q.le, d), b.records);
          match o.end
          case Bad(e) => Result(o.bodies, true, IsCapability(e))
          case Done => Result(o.bodies, false, false)
          case More => Before(o.bodies, Transact(q, rs[1..], Spend(b, |o.bodies|, d)))
  }

  function Spend(b: Budget, records: nat, d: seq<byte>): Budget
    requires b.messages > 0 && records <= b.records && |d| <= b.bytes
  {
    Budget(b.messages - 1, b.records - records, b.bytes - |d|)
  }

  lemma ComposeResults(a: Result, bs: seq<seq<byte>>, b: Result, cs: seq<seq<byte>>, end: Result)
    requires a == Before(bs, b) && b == Before(cs, end)
    ensures a == Before(bs + cs, end)
  {
    Assoc(bs, cs, end.bodies);
  }

  /** What one reception does: it ends the transaction, or leaves the rest of it to be done. */
  method Receive(q: Dump, r: Reception, b: Budget, ghost rs: seq<Reception>)
    returns (end: Option<Result>, bodies: seq<seq<byte>>, left: Budget)
    requires rs != [] && rs[0] == r && b.messages > 0
    ensures end.Some? ==> Transact(q, rs, b) == end.value && LongEnough(end.value.bodies)
    ensures end.None? ==> Transact(q, rs, b) == Before(bodies, Transact(q, rs[1..], left)) && LongEnough(bodies)
  {
    bodies, left := [], b;
    match r {
      case EINTR =>
        EmptyConcat(Transact(q, rs[1..], b).bodies);
        end := None;
      case RecvError(c) =>
        end := Some(Result([], true, c));
      case Datagram(d, truncated, fromKernel) =>
        if |d| > b.bytes || truncated || !fromKernel {
          return Some(Result([], true, false)), [], b;
        }
        var o := ParseDatagram(q, d, b.records);
        ScanLongEnough(q, Messages(q.le, d), b.records);
        match o.end {
          case Bad(e) =>
            end := Some(Result(o.bodies, true, IsCapability(e)));
          case Done =>
            end := Some(Result(o.bodies, false, false));
          case More =>
            end, bodies, left := None, o.bodies, Spend(b, |o.bodies|, d);
        }
    }
  }

  const FULL := Budget(MAX_MESSAGES, MAX_RECORDS, MAX_BYTES)

  /** The transaction: what the datagrams received make up, as rows for the poll. */
  method Dumping(q: Query, rs: seq<Reception>) returns (a: Answer)
    ensures a == AnswerTo(q, rs)
  {
    var rest, left := rs, FULL;
    var bodies: seq<seq<byte>> := [];
    ghost var whole := Transact(q.dump, rs, FULL);
    EmptyConcat(whole.bodies);
    while |rest| > 0 && left.messages > 0
      invariant whole == Before(bodies, Transact(q.dump, rest, left)) && LongEnough(bodies)
      decreases |rest|
    {
      var end, more, spent := Receive(q.dump, rest[0], left, rest);
      if end.Some? {
        LongConcat(bodies, end.value.bodies);
        return Answer(Rows(q, bodies + end.value.bodies), end.value.failed, end.value.capability);
      }
      ComposeResults(whole, bodies, Transact(q.dump, rest, left), more, Transact(q.dump, rest[1..], spent));
      LongConcat(bodies, more);
      rest, left, bodies := rest[1..], spent, bodies + more;
    }
    EmptyConcat(bodies);
    return Answer(Rows(q, bodies), true, false);
  }

  lemma LongConcat(a: seq<seq<byte>>, b: seq<seq<byte>>)
    requires LongEnough(a) && LongEnough(b)
    ensures LongEnough(a + b)
  {
  }

  // ----- the transactions that succeed -----

  predicate Deliverable(r: Reception, b: Budget) {
    r.Datagram? && !r.truncated && r.fromKernel && |r.bytes| <= b.bytes
  }

  /** The datagrams received, but for interruptions, hold these records, and then this completion ends the last. */
  ghost predicate Complete(q: Dump, rs: seq<Reception>, b: Budget, parts: seq<seq<Message>>, fin: Message)
    decreases |rs|
  {
    if rs == [] || b.messages == 0 then false
    else if rs[0].EINTR? then Complete(q, rs[1..], b, parts, fin)
    else if !Deliverable(rs[0], b) || parts == [] then false
    else if |parts| == 1 then IsPart(q, rs[0].bytes, b.records, parts[0], [fin])
    else
      && IsPart(q, rs[0].bytes, b.records, parts[0], [])
      && Complete(q, rs[1..], Spend(b, |parts[0]|, rs[0].bytes), parts[1..], fin)
  }

  ghost predicate Completed(q: Dump, rs: seq<Reception>, b: Budget) {
    exists parts, fin :: Complete(q, rs, b, parts, fin)
  }

  function AllBodies(parts: seq<seq<Message>>): seq<seq<byte>> {
    if parts == [] then [] else Bodies(parts[0]) + AllBodies(parts[1..])
  }

  lemma {:induction false} BodiesCount(ms: seq<Message>)
    ensures |Bodies(ms)| == |ms|
  {
    if ms != [] {
      BodiesCount(ms[1..]);
    }
  }

  lemma TransactPart(q: Dump, rs: seq<Reception>, b: Budget, ms: seq<Message>, fin: seq<Message>)
    requires rs != [] && b.messages > 0 && Deliverable(rs[0], b) && IsPart(q, rs[0].bytes, b.records, ms, fin)
    ensures fin != [] ==> Transact(q, rs, b) == Result(Bodies(ms), false, false)
    ensures fin == [] ==> Transact(q, rs, b) == Before(Bodies(ms), Transact(q, rs[1..], Spend(b, |ms|, rs[0].bytes)))
  {
    PartAccepted(q, rs[0].bytes, b.records, ms, fin);
    BodiesCount(ms);
  }

  lemma {:induction false} CompleteSucceeds(q: Dump, rs: seq<Reception>, b: Budget, parts: seq<seq<Message>>, fin: Message)
    requires Complete(q, rs, b, parts, fin)
    ensures Transact(q, rs, b) == Result(AllBodies(parts), false, false)
    decreases |rs|
  {
    if rs[0].EINTR? {
      CompleteSucceeds(q, rs[1..], b, parts, fin);
    } else if |parts| == 1 {
      TransactPart(q, rs, b, parts[0], [fin]);
      EmptyConcat(Bodies(parts[0]));
    } else {
      TransactPart(q, rs, b, parts[0], []);
      CompleteSucceeds(q, rs[1..], Spend(b, |parts[0]|, rs[0].bytes), parts[1..], fin);
    }
  }

  lemma PartOf(q: Dump, rs: seq<Reception>, b: Budget) returns (ms: seq<Message>, fin: seq<Message>)
    requires rs != [] && b.messages > 0 && rs[0].Datagram? && !Transact(q, rs, b).failed
    ensures Deliverable(rs[0], b) && IsPart(q, rs[0].bytes, b.records, ms, fin)
  {
    var d := rs[0].bytes;
    AcceptedIff(q, d, b.records);
    ms, fin :| IsPart(q, d, b.records, ms, fin);
  }

  lemma {:induction false} SuccessWasComplete(q: Dump, rs: seq<Reception>, b: Budget) returns (parts: seq<seq<Message>>, fin: Message)
    requires !Transact(q, rs, b).failed
    ensures Complete(q, rs, b, parts, fin)
    decreases |rs|
  {
    if rs[0].EINTR? {
      parts, fin := SuccessWasComplete(q, rs[1..], b);
    } else {
      var ms, end := PartOf(q, rs, b);
      TransactPart(q, rs, b, ms, end);
      if end == [] {
        var rest;
        rest, fin := SuccessWasComplete(q, rs[1..], Spend(b, |ms|, rs[0].bytes));
        CompleteNonempty(q, rs[1..], Spend(b, |ms|, rs[0].bytes), rest, fin);
        parts := [ms] + rest;
        assert parts[1..] == rest;
      } else {
        parts, fin := [ms], end[0];
        assert [fin] == end;
      }
    }
  }

  lemma {:induction false} CompleteNonempty(q: Dump, rs: seq<Reception>, b: Budget, parts: seq<seq<Message>>, fin: Message)
    requires Complete(q, rs, b, parts, fin)
    ensures parts != []
    decreases |rs|
  {
    if rs[0].EINTR? {
      CompleteNonempty(q, rs[1..], b, parts, fin);
    }
  }

  /**
    A transaction succeeds iff the datagrams received are, apart from interruptions, untruncated
    ones from the kernel that hold records of it only and end in its completion, all within the
    limits; and it then delivers exactly those records, in order.
   */
  lemma SucceedsIff(q: Dump, rs: seq<Reception>, b: Budget)
    ensures !Transact(q, rs, b).failed <==> Completed(q, rs, b)
    ensures Completed(q, rs, b) ==> exists parts, fin ::
      Complete(q, rs, b, parts, fin) && Transact(q, rs, b) == Result(AllBodies(parts), false, false)
  {
    if !Transact(q, rs, b).failed {
      var parts, fin := SuccessWasComplete(q, rs, b);
      assert Complete(q, rs, b, parts, fin);
    }
    if Completed(q, rs, b) {
      var parts, fin :| Complete(q, rs, b, parts, fin);
      CompleteSucceeds(q, rs, b, parts, fin);
    }
  }

  /**
    A netlink error in reply to the request fails the transaction, and counts as a missing
    capability iff it is one of ENOENT, EPERM, EACCES, EAFNOSUPPORT, EPROTONOSUPPORT,
    ENOPROTOOPT, EINVAL and ENOSYS.
   */
  lemma ErrorReply(q: Dump, errno: nat, flags: u16, request: seq<byte>, rs: seq<Reception>, b: Budget)
    requires 0 < errno < 0x8000_0000 && !DumpInterrupted(flags)
    requires |request| < 0x1_0000 && 0x1_0100 <= b.bytes && b.messages > 0
    ensures var m := Message(NLMSG_ERROR, flags, q.seqno, q.pid, NativeBytes(q.le, 4, 0x1_0000_0000 - errno) + request);
      Transact(q, [Datagram(Encode(q.le, m), false, true)] + rs, b)
      == Result([], true, errno in {2, 1, 13, 97, 93, 92, 22, 38})
  {
    var code := 0x1_0000_0000 - errno;
    var m := Message(NLMSG_ERROR, flags, q.seqno, q.pid, NativeBytes(q.le, 4, code) + request);
    ErrorScanned(q, m, code, request, b.records);
    BadDatagram(q, Encode(q.le, m), NetlinkError(code), rs, b);
  }

  lemma ErrorScanned(q: Dump, m: Message, code: nat, request: seq<byte>, limit: nat)
    requires 0 < code < 0x1_0000_0000 && |request| < 0x1_0000 && !DumpInterrupted(m.flags)
    requires m == Message(NLMSG_ERROR, m.flags, q.seqno, q.pid, NativeBytes(q.le, 4, code) + request)
    ensures Scan(q, Messages(q.le, Encode(q.le, m)), limit) == Outcome([], Bad(NetlinkError(code)))
  {
    Widths();
    NativeRoundTrip(q.le, 4, code);
    CutAt(NativeBytes(q.le, 4, code), request);
    OneMessage(q.le, m);
  }

  lemma BadDatagram(q: Dump, d: seq<byte>, e: Error, rs: seq<Reception>, b: Budget)
    requires Scan(q, Messages(q.le, d), b.records) == Outcome([], Bad(e)) && |d| <= b.bytes && b.messages > 0
    ensures Transact(q, [Datagram(d, false, true)] + rs, b) == Result([], true, IsCapability(e))
  {
    assert ([Datagram(d, false, true)] + rs)[0] == Datagram(d, false, true);
  }

  lemma OneMessage(le: bool, m: Message)
    requires Fits(m)
    ensures Messages(le, Encode(le, m)) == Cut([m], None)
  {
    MessagesEncoded(le, [m], []);
    assert [m][1..] == [];
    EmptyConcat(Encode(le, m));
    EmptyConcat([m]);
  }

  // ----- the limits -----

  /** The bytes of the first n datagrams among these receptions. */
  function BytesIn(rs: seq<Reception>, n: nat): nat
    decreases |rs|
  {
    if rs == [] || n == 0 then 0
    else if rs[0].Datagram? then |rs[0].bytes| + BytesIn(rs[1..], n - 1)
    else BytesIn(rs[1..], n)
  }

  /** The limits are on the totals: datagrams, records and bytes of the whole transaction. */
  lemma {:induction false} WithinLimits(q: Dump, rs: seq<Reception>, b: Budget, parts: seq<seq<Message>>, fin: Message)
    requires Complete(q, rs, b, parts, fin)
    ensures |parts| <= b.messages && |AllBodies(parts)| <= b.records && BytesIn(rs, |parts|) <= b.bytes
    decreases |rs|
  {
    if rs[0].EINTR? {
      WithinLimits(q, rs[1..], b, parts, fin);
    } else {
      BodiesCount(parts[0]);
      if |parts| == 1 {
        assert parts[1..] == [];
        assert BytesIn(rs[1..], 0) == 0;
      } else {
        WithinLimits(q, rs[1..], Spend(b, |parts[0]|, rs[0].bytes), parts[1..], fin);
      }
    }
  }

  // ----- from the wire to the poll -----

  lemma {:induction false} TransactLongEnough(q: Dump, rs: seq<Reception>, b: Budget)
    ensures LongEnough(Transact(q, rs, b).bodies)
    decreases |rs|
  {
    if b.messages > 0 && rs != [] {
      TransactLongEnough(q, rs[1..], b);
      if rs[0].Datagram? && |rs[0].bytes| <= b.bytes {
        var o := Scan(q, Messages(q.le, rs[0].bytes), b.records);
        ScanLongEnough(q, Messages(q.le, rs[0].bytes), b.records);
        TransactLongEnough(q, rs[1..], Spend(b, |o.bodies|, rs[0].bytes));
      }
    }
  }

  /** The answer `Dumping` gives. */
  function AnswerTo(q: Query, rs: seq<Reception>): Answer {
    TransactLongEnough(q.dump, rs, FULL);
    var t := Transact(q.dump, rs, FULL);
    Answer(Rows(q, t.bodies), t.failed, t.capability)
  }

  function Answers(qs: seq<Query>, rss: seq<seq<Reception>>): (a: seq<Answer>)
    requires |qs| == |rss|
    ensures |a| == |qs| && forall i :: 0 <= i < |qs| ==> a[i] == AnswerTo(qs[i], rss[i])
  {
    seq(|qs|, i requires 0 <= i < |qs| => AnswerTo(qs[i], rss[i]))
  }

  /** Some transaction's records describe the socket. */
  ghost predicate OnWire(qs: seq<Query>, rss: seq<seq<Reception>>, k: Key)
    requires |qs| == |rss|
  {
    exists i :: 0 <= i < |qs| && Described(qs[i], Transact(qs[i].dump, rss[i], FULL).bodies, k)
  }

  lemma AnswerListed(q: Query, rs: seq<Reception>, k: Key)
    ensures Listed(AnswerTo(q, rs).rows, k) <==> Described(q, Transact(q.dump, rs, FULL).bodies, k)
    ensures AnswerTo(q, rs).failed <==> !Completed(q.dump, rs, FULL)
  {
    TransactLongEnough(q.dump, rs, FULL);
    RowsListed(q, Transact(q.dump, rs, FULL).bodies, k);
    SucceedsIff(q.dump, rs, FULL);
  }

  /** What the last of these records that describes the socket says of it. */
  ghost function LastDescribed(q: Query, bodies: seq<seq<byte>>, k: Key): Option<Socket> {
    if bodies == [] then None
    else
      var n := |bodies| - 1;
      if Describes(q, bodies[n], k) then Some(SocketOf(q, DecodeMsg(q.dump.le, bodies[n]))) else LastDescribed(q, bodies[..n], k)
  }

  /** What the last record of any transaction that describes the socket says of it. */
  ghost function LastOnWire(qs: seq<Query>, rss: seq<seq<Reception>>, k: Key): Option<Socket>
    requires |qs| == |rss|
  {
    if qs == [] then None
    else
      var n := |qs| - 1;
      var last := LastDescribed(qs[n], Transact(qs[n].dump, rss[n], FULL).bodies, k);
      if last.Some? then last else LastOnWire(qs[..n], rss[..n], k)
  }

  lemma {:induction false} RowsMore(q: Query, bodies: seq<seq<byte>>, b: seq<byte>)
    requires LongEnough(bodies) && |b| >= MIN_BODY
    ensures LongEnough(bodies + [b])
    ensures Rows(q, bodies + [b]) == Rows(q, bodies) + if RowOf(q, b).Some? then [RowOf(q, b).value] else []
  {
    if bodies == [] {
      assert [b][1..] == [];
      assert bodies + [b] == [b];
    } else {
      ConsConcat(bodies, [b]);
      RowsMore(q, bodies[1..], b);
      var first := RowOf(q, bodies[0]);
      Assoc(if first.Some? then [first.value] else [], Rows(q, bodies[1..]), if RowOf(q, b).Some? then [RowOf(q, b).value] else []);
    }
  }

  ghost function LastRow(rows: seq<Row>, k: Key): Option<Socket> {
    if rows == [] then None
    else if rows[|rows| - 1].key == k then Some(rows[|rows| - 1].socket)
    else LastRow(rows[..|rows| - 1], k)
  }

  /** Collecting keeps the last row of every socket. */
  lemma {:induction false} CollectLast(m: map<Key, Socket>, rows: seq<Row>, k: Key)
    ensures var c, last := Collect(m, rows), LastRow(rows, k);
      if last.Some? then k in c && c[k] == last.value else (k in c <==> k in m) && (k in m ==> c[k] == m[k])
  {
    if rows != [] {
      CollectLast(m, rows[..|rows| - 1], k);
    }
  }

  lemma LastRowMore(rows: seq<Row>, r: Option<Row>, k: Key)
    ensures LastRow(rows + (if r.Some? then [r.value] else []), k)
         == if r.Some? && r.value.key == k then Some(r.value.socket) else LastRow(rows, k)
  {
    if r.Some? {
      assert (rows + [r.value])[..|rows|] == rows;
    } else {
      EmptyConcat(rows);
    }
  }

  lemma {:induction false} LastDescribedRow(q: Query, bodies: seq<seq<byte>>, k: Key)
    requires LongEnough(bodies)
    ensures LastDescribed(q, bodies, k) == LastRow(Rows(q, bodies), k)
  {
    if bodies != [] {
      var n := |bodies| - 1;
      assert bodies == bodies[..n] + [bodies[n]];
      LastDescribedRow(q, bodies[..n], k);
      RowsMore(q, bodies[..n], bodies[n]);
      RowIs(q, bodies[n]);
      LastRowMore(Rows(q, bodies[..n]), RowOf(q, bodies[n]), k);
    }
  }

  lemma {:induction false} DumpedLast(qs: seq<Query>, rss: seq<seq<Reception>>, k: Key)
    requires |qs| == |rss| && Dumped(Answers(qs, rss)).Some?
    ensures var m, last := Dumped(Answers(qs, rss)).value, LastOnWire(qs, rss, k);
      if last.Some? then k in m && m[k] == last.value else k !in m
  {
    if qs != [] {
      var n := |qs| - 1;
      assert Answers(qs, rss)[..n] == Answers(qs[..n], rss[..n]);
      DumpedLast(qs[..n], rss[..n], k);
      TransactLongEnough(qs[n].dump, rss[n], FULL);
      LastDescribedRow(qs[n], Transact(qs[n].dump, rss[n], FULL).bodies, k);
      CollectLast(Dumped(Answers(qs[..n], rss[..n])).value, AnswerTo(qs[n], rss[n]).rows, k);
    }
  }

  /**
    End to end: the dumps replace what is known iff every transaction is complete, and a socket
    is then known iff a record received describes it, with the protocol and port of the last
    such record.
   */
  lemma PolledFromWire(known: map<Key, Meta>, qs: seq<Query>, rss: seq<seq<Reception>>, files: seq<File>,
                       names: map<Key, Name>, k: Key)
    requires |qs| == |rss|
    ensures var dump := Dumped(Answers(qs, rss));
      && (dump.Some? <==> forall i :: 0 <= i < |qs| ==> Completed(qs[i].dump, rss[i], Budget(0x10_0000, 0x10_0000, 128 * 0x10_0000)))
      && (dump.Some? ==> (k in Polled(known, dump, files, names) <==> OnWire(qs, rss, k)))
      && (dump.Some? && k in Polled(known, dump, files, names) ==>
            LastOnWire(qs, rss, k) == Some(Of(Polled(known, dump, files, names)[k].port)))
  {
    var answers := Answers(qs, rss);
    forall i | 0 <= i < |qs|
      ensures Listed(answers[i].rows, k) <==> Described(qs[i], Transact(qs[i].dump, rss[i], FULL).bodies, k)
      ensures answers[i].failed <==> !Completed(qs[i].dump, rss[i], FULL)
    {
      AnswerListed(qs[i], rss[i], k);
    }
    DumpedIff(answers, k);
    assert forall i :: 0 <= i < |answers| ==> answers[i] in answers;
    if Dumped(answers).Some? {
      DumpIsTheTruth(known, Dumped(answers).value, files, names);
      DeliveredOnWire(qs, rss, answers, k);
      DumpedLast(qs, rss, k);
    }
  }

  lemma DeliveredOnWire(qs: seq<Query>, rss: seq<seq<Reception>>, answers: seq<Answer>, k: Key)
    requires |qs| == |rss| == |answers|
    requires forall i :: 0 <= i < |qs| ==>
      (Listed(answers[i].rows, k) <==> Described(qs[i], Transact(qs[i].dump, rss[i], FULL).bodies, k))
    ensures Delivered(answers, k) <==> OnWire(qs, rss, k)
  {
    if Delivered(answers, k) {
      var a :| a in answers && Listed(a.rows, k);
      var i :| 0 <= i < |answers| && answers[i] == a;
      assert Described(qs[i], Transact(qs[i].dump, rss[i], FULL).bodies, k);
    }
    if OnWire(qs, rss, k) {
      var i :| 0 <= i < |qs| && Described(qs[i], Transact(qs[i].dump, rss[i], FULL).bodies, k);
      assert answers[i] in answers && Listed(answers[i].rows, k);
    }
  }
}
