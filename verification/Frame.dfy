/**
  The DERP frame format: one type byte, a big-endian uint32 body length, the body.
  A stream is read one frame at a time; everything else in this project that touches
  the wire is related to `SplitFrame` and `DecodeAll`.
 */
module Frame {
  import opened Bytes
  import opened Seqs

  const HEADER_LEN := 5
  const KEY_LEN := 32
  const MAX_PACKET_SIZE := 0x1_0000

  type Key = k: seq<byte> | |k| == KEY_LEN witness Zeros(KEY_LEN)

  datatype Frame = Frame(kind: byte, body: seq<byte>)

  /** The body length fits the header's uint32. */
  predicate Sized(f: Frame) {
    |f.body| < 0x1_0000_0000
  }

  predicate AllSized(fs: seq<Frame>) {
    forall i :: 0 <= i < |fs| ==> Sized(fs[i])
  }

  function Header(kind: byte, n: nat): (h: seq<byte>)
    ensures |h| == HEADER_LEN
  {
    [kind] + BigEndian(4, n)
  }

  function Encode(f: Frame): (b: seq<byte>)
    ensures |b| == HEADER_LEN + |f.body|
  {
    Header(f.kind, |f.body|) + f.body
  }

  function EncodeAll(fs: seq<Frame>): seq<byte> {
    if fs == [] then [] else Encode(fs[0]) + EncodeAll(fs[1..])
  }

  datatype Split = Whole(frame: Frame, rest: seq<byte>) | Incomplete

  /** Takes the first frame off a stream, if all of it is there. */
  function SplitFrame(s: seq<byte>): (r: Split)
    ensures r.Whole? ==> Sized(r.frame) && |r.rest| < |s|
  {
    Widths();
    if |s| < HEADER_LEN then Incomplete
    else
      var n := Value(s[1..HEADER_LEN]);
      if |s| < HEADER_LEN + n then Incomplete
      else Whole(Frame(s[0], s[HEADER_LEN..HEADER_LEN + n]), s[HEADER_LEN + n..])
  }

  /** The complete frames at the front of a stream, in order. */
  function DecodeAll(s: seq<byte>): seq<Frame>
    decreases |s|
  {
    match SplitFrame(s)
    case Incomplete => []
    case Whole(f, rest) => [f] + DecodeAll(rest)
  }

  lemma SplitEncoded(f: Frame, rest: seq<byte>)
    requires Sized(f)
    ensures SplitFrame(Encode(f) + rest) == Whole(f, rest)
  {
    Widths();
    var s := Encode(f) + rest;
    assert s[1..HEADER_LEN] == BigEndian(4, |f.body|);
    ValueOfBigEndian(4, |f.body|);
    assert s[HEADER_LEN..HEADER_LEN + |f.body|] == f.body;
    assert s[HEADER_LEN + |f.body|..] == rest;
  }

  /** Every byte a complete frame was read from is accounted for. */
  lemma SplitSound(s: seq<byte>)
    requires SplitFrame(s).Whole?
    ensures s == Encode(SplitFrame(s).frame) + SplitFrame(s).rest
  {
    BigEndianOfValue(s[1..HEADER_LEN]);
    var n := Value(s[1..HEADER_LEN]);
    assert s == [s[0]] + s[1..HEADER_LEN] + s[HEADER_LEN..HEADER_LEN + n] + s[HEADER_LEN + n..];
  }

  /** A strict prefix of a frame's encoding is never mistaken for a frame. */
  lemma SplitTruncated(f: Frame, k: nat)
    requires Sized(f) && k < |Encode(f)|
    ensures SplitFrame(Encode(f)[..k]) == Incomplete
  {
    Widths();
    if HEADER_LEN <= k {
      assert Encode(f)[..k][1..HEADER_LEN] == BigEndian(4, |f.body|);
      ValueOfBigEndian(4, |f.body|);
    }
  }

  lemma {:induction false} EncodeAllConcat(a: seq<Frame>, b: seq<Frame>)
    ensures EncodeAll(a + b) == EncodeAll(a) + EncodeAll(b)
  {
    if a == [] {
      EmptyConcat(b);
      EmptyConcat(EncodeAll(b));
    } else {
      EncodeAllConcat(a[1..], b);
      ConsConcat(a, b);
      Assoc(Encode(a[0]), EncodeAll(a[1..]), EncodeAll(b));
    }
  }

  lemma EncodeAllOne(f: Frame)
    ensures EncodeAll([f]) == Encode(f)
  {
    assert [f][1..] == [];
    EmptyConcat(Encode(f));
  }

  lemma DecodeCons(f: Frame, rest: seq<byte>)
    requires Sized(f)
    ensures DecodeAll(Encode(f) + rest) == [f] + DecodeAll(rest)
  {
    SplitEncoded(f, rest);
  }

  /** Reading back a written stream gives the frames written, whatever follows them. */
  lemma {:induction false} DecodeEncoded(fs: seq<Frame>, rest: seq<byte>)
    requires AllSized(fs)
    ensures DecodeAll(EncodeAll(fs) + rest) == fs + DecodeAll(rest)
  {
    if fs == [] {
      EmptyConcat(rest);
      EmptyConcat(DecodeAll(rest));
    } else {
      Assoc(Encode(fs[0]), EncodeAll(fs[1..]), rest);
      DecodeCons(fs[0], EncodeAll(fs[1..]) + rest);
      DecodeEncoded(fs[1..], rest);
      HeadTail(fs);
      Assoc([fs[0]], fs[1..], DecodeAll(rest));
    }
  }

  /** A stream cut off anywhere decodes to the frames that arrived whole: a prefix. */
  lemma {:induction false} DecodeCut(fs: seq<Frame>, k: nat)
    requires AllSized(fs) && k <= |EncodeAll(fs)|
    ensures DecodeAll(EncodeAll(fs)[..k]) <= fs
  {
    if fs != [] {
      var e, rest := Encode(fs[0]), EncodeAll(fs[1..]);
      if k < |e| {
        TakeLeft(e, rest, k);
        SplitTruncated(fs[0], k);
      } else {
        TakeRight(e, rest, k);
        DecodeCons(fs[0], rest[..k - |e|]);
        DecodeCut(fs[1..], k - |e|);
      }
    }
  }

  /** Decoding loses nothing: the frames re-encode to the bytes they came from. */
  lemma {:induction false} DecodeSound(s: seq<byte>)
    ensures EncodeAll(DecodeAll(s)) <= s
    decreases |s|
  {
    if SplitFrame(s).Whole? {
      var Whole(f, rest) := SplitFrame(s);
      SplitSound(s);
      DecodeSound(rest);
      assert DecodeAll(s)[1..] == DecodeAll(rest);
      assert EncodeAll(DecodeAll(s)) == Encode(f) + EncodeAll(DecodeAll(rest));
    }
  }
}
