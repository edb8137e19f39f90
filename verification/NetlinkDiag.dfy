/**
  `parseDiagDatagram`: the strict parser for one datagram of a multipart inet_diag dump
  (netlink message header: section 2.3.2 of RFC 3549). `Messages` cuts a datagram into
  messages and `Scan` says what they mean; the method, which takes one message after the other
  off the front, is proved to return that; and it is proved to accept
  exactly the datagrams that encode a list of records and a clean completion.
  Integers are in the byte order of the machine, little-endian if `le`.
 */
module NetlinkDiag {
  import opened Bytes
  import opened Seqs
  import opened Netip

  const HDRLEN := 16
  const NLMSG_ERROR: u16 := 2
  const NLMSG_DONE: u16 := 3
  const SOCK_DIAG_BY_FAMILY: u16 := 20
  const MIN_BODY := 72

  // ----- native integers -----

  function LittleEndian(n: nat, v: nat): (b: seq<byte>)
    ensures |b| == n
  {
    if n == 0 then [] else [v % 256] + LittleEndian(n - 1, v / 256)
  }

  function LittleValue(b: seq<byte>): (v: nat)
    ensures v < Pow256(|b|)
  {
    if b == [] then 0 else b[0] + 256 * LittleValue(b[1..])
  }

  lemma {:induction false} LittleRoundTrip(n: nat, v: nat)
    requires v < Pow256(n)
    ensures LittleValue(LittleEndian(n, v)) == v
  {
    if n > 0 {
      LittleRoundTrip(n - 1, v / 256);
      assert LittleEndian(n, v)[1..] == LittleEndian(n - 1, v / 256);
    }
  }

  lemma {:induction false} LittleInverse(b: seq<byte>)
    ensures LittleEndian(|b|, LittleValue(b)) == b
  {
    if b != [] {
      LittleInverse(b[1..]);
      assert LittleValue(b) / 256 == LittleValue(b[1..]) && LittleValue(b) % 256 == b[0];
    }
  }

  /** Byte i is the digit of v in base 256 with i digits after it. */
  lemma {:induction false} LittleEndianAt(n: nat, v: nat, i: nat)
    requires i < n
    ensures LittleEndian(n, v)[i] == v / Pow256(i) % 256
  {
    if i > 0 {
      LittleEndianAt(n - 1, v / 256, i - 1);
      DivDiv(v, Pow256(i - 1));
    }
  }

  function Native(le: bool, b: seq<byte>): (v: nat)
    ensures v < Pow256(|b|)
  {
    if le then LittleValue(b) else Value(b)
  }

  function NativeBytes(le: bool, n: nat, v: nat): (b: seq<byte>)
    ensures |b| == n
  {
    if le then LittleEndian(n, v) else BigEndian(n, v)
  }

  lemma NativeRoundTrip(le: bool, n: nat, v: nat)
    requires v < Pow256(n)
    ensures Native(le, NativeBytes(le, n, v)) == v
  {
    ValueOfBigEndian(n, v);
    LittleRoundTrip(n, v);
  }

  lemma NativeInverse(le: bool, b: seq<byte>)
    ensures NativeBytes(le, |b|, Native(le, b)) == b
  {
    BigEndianOfValue(b);
    LittleInverse(b);
  }

  /** NLM_F_MULTI, 0x2. */
  predicate Multi(flags: u16) {
    flags / 2 % 2 == 1
  }

  /** NLM_F_DUMP_INTR, 0x10. */
  predicate DumpInterrupted(flags: u16) {
    flags / 16 % 2 == 1
  }

  /** The flags are bits 1 and 4. */
  lemma FlagBits(high: nat, intr: nat, middle: nat, multi: nat, low: nat)
    requires intr < 2 && middle < 4 && multi < 2 && low < 2
    requires 32 * high + 16 * intr + 4 * middle + 2 * multi + low < 0x1_0000
    ensures var flags := 32 * high + 16 * intr + 4 * middle + 2 * multi + low;
      (Multi(flags) <==> multi == 1) && (DumpInterrupted(flags) <==> intr == 1)
  {
  }

  // ----- messages -----

  datatype Error =
    | TruncatedHeader | MalformedLength | MissingPadding | NonZeroPadding | Mismatched | Interrupted
    | MalformedCompletion | DataAfterCompletion | TruncatedError | NetlinkError(code: nat) | AckWithoutCompletion
    | Unexpected | ShortResponse | FamilyMismatch | RecordLimit

  datatype Message = Message(typ: u16, flags: u16, seqno: u32, pid: u32, body: seq<byte>)
  datatype Head = Head(m: Message, rest: seq<byte>) | NoHead(err: Error)

  function Aligned(n: nat): (r: nat)
    ensures n <= r < n + 4 && r % 4 == 0
  {
    (n + 3) / 4 * 4
  }

  predicate AllZero(b: seq<byte>) {
    forall i :: 0 <= i < |b| ==> b[i] == 0
  }

  /** The message of n bytes at the front of d. */
  function ReadMessage(le: bool, d: seq<byte>, n: nat): (m: Message)
    requires HDRLEN <= n <= |d|
    ensures |m.body| == n - HDRLEN
  {
    Widths();
    Message(Native(le, d[4..6]), Native(le, d[6..8]), Native(le, d[8..12]), Native(le, d[12..16]), d[HDRLEN..n])
  }

  function TakeMessage(le: bool, d: seq<byte>): (r: Head)
    ensures r.Head? ==> |r.rest| < |d|
  {
    if |d| < HDRLEN then NoHead(TruncatedHeader)
    else
      var n := Native(le, d[..4]);
      if n < HDRLEN || n > |d| then NoHead(MalformedLength)
      else if Aligned(n) > |d| then NoHead(MissingPadding)
      else if !AllZero(d[n..Aligned(n)]) then NoHead(NonZeroPadding)
      else Head(ReadMessage(le, d, n), d[Aligned(n)..])
  }

  function Encode(le: bool, m: Message): (b: seq<byte>)
    ensures |b| == Aligned(HDRLEN + |m.body|)
  {
    var n := HDRLEN + |m.body|;
    NativeBytes(le, 4, n) + NativeBytes(le, 2, m.typ) + NativeBytes(le, 2, m.flags)
    + NativeBytes(le, 4, m.seqno) + NativeBytes(le, 4, m.pid) + m.body + Zeros(Aligned(n) - n)
  }

  /** The header: length, type, flags, sequence number and port; then the body, padded with zeros to a multiple of four. */
  lemma MessageLayout(le: bool, m: Message)
    ensures var b, n := Encode(le, m), 16 + |m.body|;
      && |b| % 4 == 0 && n <= |b| < n + 4
      && b[..4] == NativeBytes(le, 4, n) && b[4..6] == NativeBytes(le, 2, m.typ) && b[6..8] == NativeBytes(le, 2, m.flags)
      && b[8..12] == NativeBytes(le, 4, m.seqno) && b[12..16] == NativeBytes(le, 4, m.pid)
      && b[16..n] == m.body && AllZero(b[n..])
  {
  }

  function EncodeAll(le: bool, ms: seq<Message>): seq<byte> {
    if ms == [] then [] else Encode(le, ms[0]) + EncodeAll(le, ms[1..])
  }

  predicate Fits(m: Message) {
    HDRLEN + |m.body| < 0x1_0000_0000
  }

  /** A datagram as the messages it holds, up to the first that cannot be read. */
  datatype Cut = Cut(messages: seq<Message>, err: Option<Error>)

  function Messages(le: bool, d: seq<byte>): (c: Cut)
    ensures |c.messages| == 0 && c.err.None? <==> |d| == 0
    decreases |d|
  {
    if |d| == 0 then Cut([], None)
    else
      var h := TakeMessage(le, d);
      if h.NoHead? then Cut([], Some(h.err))
      else
        var c := Messages(le, h.rest);
        Cut([h.m] + c.messages, c.err)
  }

  lemma TakeEncoded(le: bool, m: Message, rest: seq<byte>)
    requires Fits(m)
    ensures TakeMessage(le, Encode(le, m) + rest) == Head(m, rest)
  {
    Widths();
    var n := HDRLEN + |m.body|;
    var d := Encode(le, m) + rest;
    assert d[..4] == NativeBytes(le, 4, n);
    assert d[4..6] == NativeBytes(le, 2, m.typ);
    assert d[6..8] == NativeBytes(le, 2, m.flags);
    assert d[8..12] == NativeBytes(le, 4, m.seqno);
    assert d[12..16] == NativeBytes(le, 4, m.pid);
    assert d[HDRLEN..n] == m.body;
    assert d[n..Aligned(n)] == Zeros(Aligned(n) - n);
    assert d[Aligned(n)..] == rest;
    NativeRoundTrip(le, 4, n);
    NativeRoundTrip(le, 2, m.typ);
    NativeRoundTrip(le, 2, m.flags);
    NativeRoundTrip(le, 4, m.seqno);
    NativeRoundTrip(le, 4, m.pid);
  }

  lemma TakeSound(le: bool, d: seq<byte>)
    requires TakeMessage(le, d).Head?
    ensures var h := TakeMessage(le, d); Fits(h.m) && d == Encode(le, h.m) + h.rest
  {
    Widths();
    var n := Native(le, d[..4]);
    NativeInverse(le, d[..4]);
    NativeInverse(le, d[4..6]);
    NativeInverse(le, d[6..8]);
    NativeInverse(le, d[8..12]);
    NativeInverse(le, d[12..16]);
    assert d[n..Aligned(n)] == Zeros(Aligned(n) - n);
    SplitAt2(d, 4, 6);
    SplitAt2(d, 6, 8);
    SplitAt2(d, 8, 12);
    SplitAt2(d, 12, 16);
    SplitAt2(d, 16, n);
    SplitAt2(d, n, Aligned(n));
    SplitAt(d, Aligned(n));
  }

  /** Reading undoes writing. */
  lemma {:induction false} MessagesEncoded(le: bool, ms: seq<Message>, rest: seq<byte>)
    requires forall m :: m in ms ==> Fits(m)
    ensures var c := Messages(le, rest);
      Messages(le, EncodeAll(le, ms) + rest) == Cut(ms + c.messages, c.err)
  {
    if ms == [] {
      EmptyConcat(rest);
      EmptyConcat(Messages(le, rest).messages);
    } else {
      var tail := EncodeAll(le, ms[1..]) + rest;
      Assoc(Encode(le, ms[0]), EncodeAll(le, ms[1..]), rest);
      TakeEncoded(le, ms[0], tail);
      MessagesEncoded(le, ms[1..], rest);
      HeadTail(ms);
      Assoc([ms[0]], ms[1..], Messages(le, rest).messages);
    }
  }

  /** Writing undoes reading: no byte of a readable datagram is ignored. */
  lemma {:induction false} MessagesSound(le: bool, d: seq<byte>)
    requires Messages(le, d).err.None?
    ensures EncodeAll(le, Messages(le, d).messages) == d
    ensures forall m :: m in Messages(le, d).messages ==> Fits(m)
    decreases |d|
  {
    if d != [] {
      TakeSound(le, d);
      MessagesSound(le, TakeMessage(le, d).rest);
    }
  }

  // ----- the dump they make up -----

  /** The request a dump answers: byte order, sequence number, port and address family. */
  datatype Dump = Dump(le: bool, seqno: u32, pid: u32, family: byte)

  /** What a message means for the dump: a record, its completion, or an error. */
  datatype Verdict = Record(body: seq<byte>) | Finished | Failed(err: Error)

  function Judge(q: Dump, m: Message, more: bool): Verdict {
    var body := m.body;
    if m.seqno != q.seqno || m.pid != q.pid then Failed(Mismatched)
    else if DumpInterrupted(m.flags) then Failed(Interrupted)
    else if m.typ == NLMSG_DONE then
      if |body| != 0 && |body| != 4 then Failed(MalformedCompletion)
      else if |body| == 4 && Native(q.le, body) != 0 then Failed(NetlinkError(Native(q.le, body)))
      else if more then Failed(DataAfterCompletion)
      else Finished
    else if m.typ == NLMSG_ERROR then
      if |body| < 4 then Failed(TruncatedError)
      else if Native(q.le, body[..4]) != 0 then Failed(NetlinkError(Native(q.le, body[..4])))
      else Failed(AckWithoutCompletion)
    else if m.typ != SOCK_DIAG_BY_FAMILY || !Multi(m.flags) then Failed(Unexpected)
    else if |body| < MIN_BODY then Failed(ShortResponse)
    else if body[0] != q.family then Failed(FamilyMismatch)
    else Record(body)
  }

  /** `bodies` are those the callback accepted; it fails on the record after the limit. */
  datatype Outcome = Outcome(bodies: seq<seq<byte>>, end: End)
  datatype End = Done | More | Bad(err: Error)

  function After(bs: seq<seq<byte>>, o: Outcome): Outcome {
    Outcome(bs + o.bodies, o.end)
  }

  function Scan(q: Dump, c: Cut, limit: nat): (o: Outcome)
    ensures |o.bodies| <= limit
    decreases |c.messages|
  {
    if |c.messages| == 0 then (if c.err.None? then Outcome([], More) else Outcome([], Bad(c.err.value)))
    else
      var rest := Cut(c.messages[1..], c.err);
      match Judge(q, c.messages[0], |rest.messages| > 0 || rest.err.Some?)
      case Failed(e) => Outcome([], Bad(e))
      case Finished => Outcome([], Done)
      case Record(b) => if limit == 0 then Outcome([], Bad(RecordLimit)) else After([b], Scan(q, rest, limit - 1))
  }

  lemma {:induction false} ScanLongEnough(q: Dump, c: Cut, limit: nat)
    ensures forall b :: b in Scan(q, c, limit).bodies ==> |b| >= MIN_BODY
    decreases |c.messages|
  {
    if |c.messages| > 0 {
      var rest := Cut(c.messages[1..], c.err);
      if limit > 0 {
        ScanLongEnough(q, rest, limit - 1);
      }
    }
  }

  lemma Compose(a: Outcome, bs: seq<seq<byte>>, b: Outcome, cs: seq<seq<byte>>, end: Outcome)
    requires a == After(bs, b) && b == After(cs, end)
    ensures a == After(bs + cs, end)
  {
    Assoc(bs, cs, end.bodies);
  }

  // ----- the datagrams it accepts -----

  predicate IsRecord(q: Dump, m: Message) {
    && m.typ == SOCK_DIAG_BY_FAMILY && m.seqno == q.seqno && m.pid == q.pid
    && Multi(m.flags) && !DumpInterrupted(m.flags) && MIN_BODY <= |m.body| && m.body[0] == q.family
  }

  predicate IsCompletion(q: Dump, m: Message) {
    && m.typ == NLMSG_DONE && m.seqno == q.seqno && m.pid == q.pid
    && !DumpInterrupted(m.flags) && (m.body == [] || m.body == Zeros(4))
  }

  function Bodies(ms: seq<Message>): seq<seq<byte>> {
    if ms == [] then [] else [ms[0].body] + Bodies(ms[1..])
  }

  ghost predicate Records(q: Dump, limit: nat, ms: seq<Message>) {
    |ms| <= limit && forall i :: 0 <= i < |ms| ==> IsRecord(q, ms[i])
  }

  lemma {:induction false} ZerosAreZero(le: bool, n: nat)
    ensures Native(le, Zeros(n)) == 0
  {
    if n > 0 {
      ZerosAreZero(le, n - 1);
      assert Zeros(n)[..n - 1] == Zeros(n - 1) == Zeros(n)[1..];
    }
  }

  lemma ZeroValue(le: bool, b: seq<byte>)
    ensures Native(le, b) == 0 <==> b == Zeros(|b|)
  {
    ZerosAreZero(le, |b|);
    NativeInverse(le, b);
    NativeInverse(le, Zeros(|b|));
  }

  lemma JudgedExactly(q: Dump, m: Message, more: bool)
    ensures Judge(q, m, more).Record? <==> IsRecord(q, m)
    ensures Judge(q, m, more).Finished? <==> IsCompletion(q, m) && !more
  {
    if |m.body| == 4 {
      ZeroValue(q.le, m.body);
    }
  }

  /** Any list of records is handed to the callback as it was, in order. */
  lemma {:induction false} ScanRecords(q: Dump, rs: seq<Message>, c: Cut, limit: nat)
    requires Records(q, limit, rs)
    ensures Scan(q, Cut(rs + c.messages, c.err), limit) == After(Bodies(rs), Scan(q, c, limit - |rs|))
    decreases |rs|
  {
    var end := Scan(q, c, limit - |rs|);
    if rs == [] {
      EmptyConcat(c.messages);
      EmptyConcat(end.bodies);
    } else {
      ConsConcat(rs, c.messages);
      JudgedExactly(q, rs[0], |rs[1..] + c.messages| > 0 || c.err.Some?);
      ScanRecords(q, rs[1..], c, limit - 1);
      Compose(Scan(q, Cut(rs + c.messages, c.err), limit), [rs[0].body],
              Scan(q, Cut(rs[1..] + c.messages, c.err), limit - 1), Bodies(rs[1..]), end);
    }
  }

  /** An outcome that is not an error tells what the messages were. */
  lemma {:induction false} ScanSound(q: Dump, c: Cut, limit: nat) returns (rs: seq<Message>, fin: seq<Message>)
    requires !Scan(q, c, limit).end.Bad?
    ensures c == Cut(rs + fin, None) && Records(q, limit, rs) && Scan(q, c, limit).bodies == Bodies(rs)
    ensures if Scan(q, c, limit).end.More? then fin == [] else |fin| == 1 && IsCompletion(q, fin[0])
    decreases |c.messages|
  {
    rs, fin := [], c.messages;
    if c.messages != [] {
      var rest := Cut(c.messages[1..], c.err);
      var more := |rest.messages| > 0 || rest.err.Some?;
      JudgedExactly(q, c.messages[0], more);
      if Judge(q, c.messages[0], more).Record? {
        rs, fin := ScanSound(q, rest, limit - 1);
        HeadTail(c.messages);
        Assoc([c.messages[0]], rs, fin);
        var all := [c.messages[0]] + rs;
        assert all[1..] == rs;
        rs := all;
      }
    }
  }

  /** d encodes these records and then nothing, or one clean completion. */
  ghost predicate IsPart(q: Dump, d: seq<byte>, limit: nat, rs: seq<Message>, fin: seq<Message>) {
    && Records(q, limit, rs) && (fin == [] || (|fin| == 1 && IsCompletion(q, fin[0])))
    && (forall m :: m in rs ==> Fits(m)) && d == EncodeAll(q.le, rs + fin)
  }

  lemma MessagesOf(le: bool, ms: seq<Message>)
    requires forall m :: m in ms ==> Fits(m)
    ensures Messages(le, EncodeAll(le, ms)) == Cut(ms, None)
  {
    MessagesEncoded(le, ms, []);
    EmptyConcat(EncodeAll(le, ms));
    EmptyConcat(ms);
  }

  lemma ScanPart(q: Dump, limit: nat, rs: seq<Message>, fin: seq<Message>)
    requires Records(q, limit, rs) && (fin == [] || (|fin| == 1 && IsCompletion(q, fin[0])))
    ensures Scan(q, Cut(rs + fin, None), limit) == Outcome(Bodies(rs), if fin == [] then More else Done)
  {
    ScanRecords(q, rs, Cut(fin, None), limit);
    if fin != [] {
      JudgedExactly(q, fin[0], false);
    }
    EmptyConcat(Bodies(rs));
  }

  lemma PartFits(q: Dump, rs: seq<Message>, fin: seq<Message>, m: Message)
    requires forall r :: r in rs ==> Fits(r)
    requires fin == [] || (|fin| == 1 && IsCompletion(q, fin[0]))
    requires m in rs + fin
    ensures Fits(m)
  {
    if m !in rs {
      assert m in fin;
    }
  }

  lemma PartAccepted(q: Dump, d: seq<byte>, limit: nat, rs: seq<Message>, fin: seq<Message>)
    requires IsPart(q, d, limit, rs, fin)
    ensures Scan(q, Messages(q.le, d), limit) == Outcome(Bodies(rs), if fin == [] then More else Done)
  {
    forall m | m in rs + fin
      ensures Fits(m)
    {
      PartFits(q, rs, fin, m);
    }
    MessagesOf(q.le, rs + fin);
    ScanPart(q, limit, rs, fin);
  }

  lemma PartRead(q: Dump, d: seq<byte>, cut: Cut, limit: nat) returns (rs: seq<Message>, fin: seq<Message>)
    requires !Scan(q, cut, limit).end.Bad?
    requires cut.err.None? ==> EncodeAll(q.le, cut.messages) == d && forall m :: m in cut.messages ==> Fits(m)
    ensures IsPart(q, d, limit, rs, fin)
  {
    rs, fin := ScanSound(q, cut, limit);
    forall m | m in rs
      ensures Fits(m)
    {
      assert m in rs + fin;
    }
  }

  /**
    A datagram is accepted exactly if it is aligned, zero-padded records matching sequence
    number, port and family, and after them nothing or one clean completion; the dump is
    done exactly if the completion is there; and the callback then saw the bodies of those
    records, in order.
   */
  lemma AcceptedIff(q: Dump, d: seq<byte>, limit: nat)
    ensures !Scan(q, Messages(q.le, d), limit).end.Bad? <==> exists rs, fin :: IsPart(q, d, limit, rs, fin)
    ensures forall rs, fin :: IsPart(q, d, limit, rs, fin) ==>
      Scan(q, Messages(q.le, d), limit) == Outcome(Bodies(rs), if fin == [] then More else Done)
  {
    forall rs, fin | IsPart(q, d, limit, rs, fin)
      ensures Scan(q, Messages(q.le, d), limit) == Outcome(Bodies(rs), if fin == [] then More else Done)
    {
      PartAccepted(q, d, limit, rs, fin);
    }
    if !Scan(q, Messages(q.le, d), limit).end.Bad? {
      if Messages(q.le, d).err.None? {
        MessagesSound(q.le, d);
      }
      var rs, fin := PartRead(q, d, Messages(q.le, d), limit);
    }
  }

  // ----- the parser -----

  lemma {:induction false} OneMore(le: bool, ms: seq<Message>, m: Message)
    ensures EncodeAll(le, ms + [m]) == EncodeAll(le, ms) + Encode(le, m)
    ensures Bodies(ms + [m]) == Bodies(ms) + [m.body]
  {
    if ms == [] {
      EmptyConcat([m]);
      EmptyConcat(Encode(le, m));
    } else {
      ConsConcat(ms, [m]);
      OneMore(le, ms[1..], m);
      Assoc(Encode(le, ms[0]), EncodeAll(le, ms[1..]), Encode(le, m));
      Assoc([ms[0].body], Bodies(ms[1..]), [m.body]);
    }
  }

  /** One turn: the parser stops, or it hands a record to the callback and goes on. */
  datatype Turn = Stop(end: End) | Accept(body: seq<byte>, rest: seq<byte>)

  method TakeTurn(q: Dump, d: seq<byte>, limit: nat) returns (t: Turn, ghost m: Message)
    ensures t.Stop? ==> Scan(q, Messages(q.le, d), limit) == Outcome([], t.end)
    ensures t.Accept? ==> limit > 0 && IsRecord(q, m) && Fits(m) && d == Encode(q.le, m) + t.rest && m.body == t.body
  {
    m := Message(0, 0, 0, 0, []);
    if |d| == 0 {
      return Stop(More), m;
    }
    var h := TakeMessage(q.le, d);
    if h.NoHead? {
      return Stop(Bad(h.err)), m;
    }
    m := h.m;
    TakeSound(q.le, d);
    JudgedExactly(q, h.m, |h.rest| > 0);
    match Judge(q, h.m, |h.rest| > 0) {
      case Failed(e) => t := Stop(Bad(e));
      case Finished => t := Stop(Done);
      case Record(b) => t := if limit == 0 then Stop(Bad(RecordLimit)) else Accept(b, h.rest);
    }
  }

  lemma Stopped(q: Dump, datagram: seq<byte>, seen: seq<Message>, rest: seq<byte>, limit: nat, end: End)
    requires datagram == EncodeAll(q.le, seen) + rest
    requires Records(q, limit, seen) && forall m :: m in seen ==> Fits(m)
    requires Scan(q, Messages(q.le, rest), limit - |seen|) == Outcome([], end)
    ensures Scan(q, Messages(q.le, datagram), limit) == Outcome(Bodies(seen), end)
  {
    MessagesEncoded(q.le, seen, rest);
    ScanRecords(q, seen, Messages(q.le, rest), limit);
    EmptyConcat(Bodies(seen));
  }

  /** On any byte string no read is out of range, and the result is the meaning of its messages. */
  method ParseDatagram(q: Dump, datagram: seq<byte>, limit: nat) returns (r: Outcome)
    ensures r == Scan(q, Messages(q.le, datagram), limit)
  {
    var rest := datagram;
    var bodies: seq<seq<byte>> := [];
    ghost var seen: seq<Message> := [];
    EmptyConcat(datagram);
    while true
      invariant datagram == EncodeAll(q.le, seen) + rest
      invariant Records(q, limit, seen) && forall m :: m in seen ==> Fits(m)
      invariant bodies == Bodies(seen) && |bodies| == |seen|
      decreases |rest|
    {
      var t, m := TakeTurn(q, rest, limit - |bodies|);
      if t.Stop? {
        Stopped(q, datagram, seen, rest, limit, t.end);
        return Outcome(bodies, t.end);
      }
      OneMore(q.le, seen, m);
      Assoc(EncodeAll(q.le, seen), Encode(q.le, m), t.rest);
      rest, bodies, seen := t.rest, bodies + [t.body], seen + [m];
    }
  }
}
