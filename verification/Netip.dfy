/**
  IP addresses as the wire formats carry them: 16 bytes, IPv4 in its IPv4-mapped form
  (section 2.5.5.2 of RFC 4291), and a 2 byte port.
 */
module Netip {
  import opened Bytes

  type u16 = x: int | 0 <= x < 0x1_0000
  type u32 = x: int | 0 <= x < 0x1_0000_0000
  type u128 = x: int | 0 <= x < 0x1_0000_0000_0000_0000_0000_0000_0000_0000

  /** The zero address is neither IPv4 nor IPv6; an IPv6 address may have a zone. */
  datatype Addr = NoAddr | V4(v4: u32) | V6(v6: u128, zone: string)
  datatype AddrPort = AddrPort(addr: Addr, port: u16)

  const MAPPED := 0xffff

  function As16(a: Addr): (b: seq<byte>)
    ensures |b| == 16
  {
    match a
    case NoAddr => BigEndian(16, 0)
    case V4(n) => BigEndian(16, MAPPED * 0x1_0000_0000 + n)
    case V6(n, _) => BigEndian(16, n)
  }

  function From16(b: seq<byte>): Addr
    requires |b| == 16
  {
    Width128();
    V6(Value(b), "")
  }

  function Unmap(a: Addr): Addr {
    if a.V6? && a.v6 / 0x1_0000_0000 == MAPPED then V4(a.v6 % 0x1_0000_0000) else a
  }

  /** What an address becomes when it is written and read back. */
  function Normal(a: Addr): Addr {
    Unmap(From16(As16(a)))
  }

  function NormalPort(ap: AddrPort): AddrPort {
    AddrPort(Normal(ap.addr), ap.port)
  }

  lemma Width128()
    ensures Pow256(16) == 0x1_0000_0000_0000_0000_0000_0000_0000_0000
  {
    Widths();
    assert Pow256(10) == 256 * 256 * Pow256(8);
    assert Pow256(12) == 256 * 256 * Pow256(10);
    assert Pow256(14) == 256 * 256 * Pow256(12);
    assert Pow256(16) == 256 * 256 * Pow256(14);
  }

  /** The address a normal form stands for, without going through bytes. */
  lemma NormalForm(a: Addr)
    ensures Normal(a) == match a
      case NoAddr => V6(0, "")
      case V4(_) => a
      case V6(n, _) => if n / 0x1_0000_0000 == MAPPED then V4(n % 0x1_0000_0000) else V6(n, "")
  {
    Width128();
    match a
    case NoAddr => ValueOfBigEndian(16, 0);
    case V4(n) => ValueOfBigEndian(16, MAPPED * 0x1_0000_0000 + n);
    case V6(n, _) => ValueOfBigEndian(16, n);
  }

  /** Normalising changes neither the bytes an address is sent as nor a normal address. */
  lemma NormalKeepsBytes(a: Addr)
    ensures As16(Normal(a)) == As16(a)
    ensures Normal(Normal(a)) == Normal(a)
  {
    NormalForm(a);
  }

  function EncodeAddrPort(ap: AddrPort): (b: seq<byte>)
    ensures |b| == 18
  {
    As16(ap.addr) + BigEndian(2, ap.port)
  }

  /** The address and then the port. */
  lemma AddrPortLayout(ap: AddrPort)
    ensures EncodeAddrPort(ap)[..16] == As16(ap.addr) && EncodeAddrPort(ap)[16..] == BigEndian(2, ap.port)
  {
  }

  function DecodeAddrPort(b: seq<byte>): AddrPort
    requires |b| == 18
  {
    Widths();
    AddrPort(Unmap(From16(b[..16])), Value(b[16..18]))
  }

  lemma AddrPortRoundTrip(ap: AddrPort)
    ensures DecodeAddrPort(EncodeAddrPort(ap)) == NormalPort(ap)
  {
    Widths();
    var b := EncodeAddrPort(ap);
    assert b[..16] == As16(ap.addr);
    assert b[16..18] == BigEndian(2, ap.port);
    ValueOfBigEndian(2, ap.port);
  }

  /** An IPv4 address is written in its IPv4-mapped form: ten zero bytes, two of ones, and itself. */
  lemma MappedLayout(n: u32)
    ensures As16(V4(n)) == Zeros(10) + [0xff, 0xff] + BigEndian(4, n)
  {
    Width128();
    Widths();
    var b := Zeros(10) + [0xff, 0xff] + BigEndian(4, n);
    assert b[..12] == Zeros(10) + [0xff, 0xff] && b[12..] == BigEndian(4, n);
    ValueOfBigEndian(4, n);
    MappedValue();
    ValueConcat(b[..12], b[12..]);
    assert b == b[..12] + b[12..];
    BigEndianOfValue(b);
  }

  lemma {:induction false} ZerosValue(n: nat)
    ensures Value(Zeros(n)) == 0
  {
    if n > 0 {
      ZerosValue(n - 1);
      assert Zeros(n)[..n - 1] == Zeros(n - 1);
    }
  }

  lemma MappedValue()
    ensures Value(Zeros(10) + [0xff, 0xff]) == 0xffff
  {
    ZerosValue(10);
    var b := Zeros(10) + [0xff, 0xff];
    assert b[..11] == Zeros(10) + [0xff];
    assert (Zeros(10) + [0xff])[..10] == Zeros(10);
  }

  lemma {:induction false} ValueConcat(a: seq<byte>, b: seq<byte>)
    ensures Value(a + b) == Value(a) * Pow256(|b|) + Value(b)
  {
    if b == [] {
      assert a + b == a;
    } else {
      var n := |b| - 1;
      ValueConcat(a, b[..n]);
      assert (a + b)[..|a + b| - 1] == a + b[..n];
      ShiftDigits(Value(a), Pow256(n), Value(b[..n]), b[n]);
    }
  }

  lemma ShiftDigits(x: nat, p: nat, v: nat, last: nat)
    ensures 256 * (x * p + v) + last == x * (256 * p) + (256 * v + last)
  {
  }
}
