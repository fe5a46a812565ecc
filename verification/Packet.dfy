/** Packet headers: where the fields lie, how they are read and how an action overwrites them in place. */
module Packet {
  import opened Bytes

  const WORD32: nat := 0x1_0000_0000
  const WORD64: int := 0x1_0000_0000_0000_0000
  const HALF64: int := 0x8000_0000_0000_0000

  const PROTO_ICMP: nat := 1
  const PROTO_TCP: nat := 6
  const PROTO_UDP: nat := 17

  /** The two's complement value of an integer in a 64-bit register. */
  function Wrap64(x: int): (r: int)
    ensures -HALF64 <= r < HALF64
    ensures -HALF64 <= x < HALF64 ==> r == x
  {
    (x + HALF64) % WORD64 - HALF64
  }

  /** The header fields whose value belongs to the packet being processed. */
  datatype HdrField =
    | EthType | Ipv4Src | Ipv4Dst | Ipv4Proto | Ipv4Tos
    | TcpSport | TcpDport | UdpSport | UdpDport | InPort | Timestamp

  /** The length in bytes of a field. */
  function Length(f: HdrField): nat {
    match f
    case Ipv4Proto | Ipv4Tos | InPort => 1
    case EthType | TcpSport | TcpDport | UdpSport | UdpDport => 2
    case Ipv4Src | Ipv4Dst => 4
    case Timestamp => 8
  }

  /** The position of a field in the enumeration of the header fields. */
  function Id(f: HdrField): nat {
    match f
    case EthType => 2
    case Ipv4Src => 3
    case Ipv4Dst => 4
    case Ipv4Proto => 5
    case Ipv4Tos => 6
    case TcpSport => 12
    case TcpDport => 13
    case UdpSport => 14
    case UdpDport => 15
    case InPort => 24
    case Timestamp => 27
  }

  /** Every field that the engine numbers, in order; of some only the place is kept here. */
  const NUMBERED: seq<Option<HdrField>> := [
    None, None, Some(EthType),
    Some(Ipv4Src), Some(Ipv4Dst), Some(Ipv4Proto), Some(Ipv4Tos),
    None, None, None, None, None,
    Some(TcpSport), Some(TcpDport),
    Some(UdpSport), Some(UdpDport),
    None,
    None, None, None,
    None, None,
    None, None,
    Some(InPort), None, None, Some(Timestamp)
  ]

  lemma IdIsPlace(f: HdrField)
    ensures Id(f) < |NUMBERED| && NUMBERED[Id(f)] == Some(f)
  {
  }

  predicate InData(f: HdrField) { f != InPort && f != Timestamp }

  /** Where a field starts in the frame: a 14-byte Ethernet header, a 20-byte IPv4 header, then the ports. */
  function Offset(f: HdrField): (r: nat)
    ensures InData(f) ==> r + Length(f) <= MIN_FRAME
  {
    match f
    case EthType => 12
    case Ipv4Tos => 15
    case Ipv4Proto => 23
    case Ipv4Src => 26
    case Ipv4Dst => 30
    case TcpSport | UdpSport => 34
    case TcpDport | UdpDport => 36
    case InPort | Timestamp => 0
  }

  /** The buffers hold the Ethernet and IPv4 headers and the transport ports. */
  const MIN_FRAME: nat := 38

  /** What the engine sees of a packet. The transport is the protocol found when the headers were parsed. */
  datatype View = View(data: bytes, transport: nat, inPort: byte, timestamp: nat)

  predicate ValidView(v: View) {
    |v.data| >= MIN_FRAME && v.timestamp < WORD64
  }

  /** Parsing a received frame. */
  function Parse(data: bytes, inPort: byte, timestamp: nat): (v: View)
    requires |data| >= MIN_FRAME && timestamp < WORD64
    ensures ValidView(v)
  {
    View(data, data[23], inPort, timestamp)
  }

  /** A field is present unless it belongs to the other transport. */
  predicate Present(v: View, f: HdrField) {
    match f
    case TcpSport | TcpDport => v.transport == PROTO_TCP
    case UdpSport | UdpDport => v.transport == PROTO_UDP
    case _ => true
  }

  /** The number written in big-endian order. */
  function BigEndian(s: bytes): nat {
    if s == [] then 0 else BigEndian(s[..|s| - 1]) * 256 + s[|s| - 1]
  }

  /** How many values a field of `n` bytes can hold. */
  function Values(n: nat): (r: nat)
    ensures r >= 1
  {
    if n == 1 then 0x100 else if n == 2 then 0x1_0000 else if n == 4 then WORD32 else WORD64
  }

  /** The big-endian bytes of a number, taken modulo 256^n. */
  function ToBigEndian(x: int, n: nat): (r: bytes)
    ensures |r| == n
    decreases n
  {
    if n == 0 then [] else ToBigEndian(x / 256, n - 1) + [x % 256]
  }

  lemma BigEndianInverse(x: int, n: nat)
    requires n == 1 || n == 2 || n == 4
    ensures BigEndian(ToBigEndian(x, n)) == x % Values(n)
  {
    hide BigEndian, ToBigEndian;
    NoBytes();
    BigEndianStep(x, 1);
    if n >= 2 {
      BigEndianStep(x / 256, 1);
      BigEndianStep(x, 2);
      ModSplit(x);
    }
    if n == 4 {
      BigEndianStep(x / 256 / 256 / 256, 1);
      BigEndianStep(x / 256 / 256, 2);
      BigEndianStep(x / 256, 3);
      BigEndianStep(x, 4);
      ModSplit(x / 256 / 256);
      ModSplit(x / 256);
    }
  }

  lemma NoBytes()
    ensures forall x :: BigEndian(ToBigEndian(x, 0)) == 0
  {
  }

  /** Splitting off the low byte, for the widths that occur. */
  lemma ModSplit(x: int)
    ensures x / 256 % 0x100 * 256 + x % 256 == x % 0x1_0000
    ensures x / 256 % 0x1_0000 * 256 + x % 256 == x % 0x100_0000
    ensures x / 256 % 0x100_0000 * 256 + x % 256 == x % WORD32
  {
    ModSplit16(x);
    ModSplit24(x);
    ModSplit32(x);
  }

  lemma ModSplit16(x: int)
    ensures x / 256 % 0x100 * 256 + x % 256 == x % 0x1_0000
  {
    var q := x / 256;
    assert x == q / 0x100 * 0x1_0000 + (q % 0x100 * 256 + x % 256);
  }

  lemma ModSplit24(x: int)
    ensures x / 256 % 0x1_0000 * 256 + x % 256 == x % 0x100_0000
  {
    var q := x / 256;
    assert x == q / 0x1_0000 * 0x100_0000 + (q % 0x1_0000 * 256 + x % 256);
  }

  lemma ModSplit32(x: int)
    ensures x / 256 % 0x100_0000 * 256 + x % 256 == x % WORD32
  {
    var q := x / 256;
    assert x == q / 0x100_0000 * WORD32 + (q % 0x100_0000 * 256 + x % 256);
  }

  lemma BigEndianStep(x: int, n: nat)
    requires n >= 1
    ensures BigEndian(ToBigEndian(x, n)) == BigEndian(ToBigEndian(x / 256, n - 1)) * 256 + x % 256
  {
    assert ToBigEndian(x, n)[..n - 1] == ToBigEndian(x / 256, n - 1);
  }

  /** The value of a field as it arrives in a 64-bit register, or nothing when it is missing. */
  function Get(v: View, f: HdrField): Option<int>
    requires ValidView(v)
  {
    if !Present(v, f) then None
    else if f == InPort then Some(v.inPort)
    else if f == Timestamp then Some(Wrap64(v.timestamp))
    else Some(BigEndian(v.data[Offset(f)..Offset(f) + Length(f)]))
  }

  /** Overwriting bytes inside the frame. */
  function Splice(data: bytes, at: nat, s: bytes): (r: bytes)
    requires at + |s| <= |data|
    ensures |r| == |data|
  {
    data[..at] + s + data[at + |s|..]
  }

  /** The packet after an action sets a field; a missing field changes nothing. */
  function Set(v: View, f: HdrField, x: int): (r: View)
    requires ValidView(v)
    ensures ValidView(r) && r.transport == v.transport && |r.data| == |v.data|
  {
    if !Present(v, f) then v
    else if f == InPort then v.(inPort := x % 256)
    else if f == Timestamp then v.(timestamp := x % WORD64)
    else v.(data := Splice(v.data, Offset(f), ToBigEndian(x, Length(f))))
  }

  /** Two fields of one packet do not overlap. */
  predicate Apart(v: View, f: HdrField, g: HdrField) {
    InData(f) && InData(g) && f != g && Present(v, f) && Present(v, g)
  }

  /** A field that was set reads back modulo its width, and every other field reads as before. */
  lemma SetGet(v: View, f: HdrField, g: HdrField, x: int)
    requires ValidView(v) && Present(v, f)
    ensures Get(Set(v, f, x), f) == Some(if f == Timestamp then Wrap64(x) else x % Values(Length(f)))
    ensures f != g ==> Get(Set(v, f, x), g) == Get(v, g)
  {
    if InData(f) {
      SetGetSame(v, f, x);
      SetGetOther(v, f, g, x);
    } else if f == Timestamp {
      WrapMod(x);
    }
  }

  lemma SetGetSame(v: View, f: HdrField, x: int)
    requires ValidView(v) && Present(v, f) && InData(f)
    ensures Get(Set(v, f, x), f) == Some(x % Values(Length(f)))
  {
    hide BigEndian, ToBigEndian, Splice;
    BigEndianInverse(x, Length(f));
    SpliceRead(v.data, Offset(f), ToBigEndian(x, Length(f)));
  }

  lemma SetGetOther(v: View, f: HdrField, g: HdrField, x: int)
    requires ValidView(v) && Present(v, f) && InData(f)
    ensures f != g ==> Get(Set(v, f, x), g) == Get(v, g)
  {
    hide BigEndian, ToBigEndian, Splice;
    if Apart(v, f, g) {
      SpliceApart(v.data, Offset(f), ToBigEndian(x, Length(f)), Offset(g), Length(g));
    }
  }

  lemma WrapMod(x: int)
    ensures Wrap64(x % WORD64) == Wrap64(x)
  {
    var q := x / WORD64;
    assert x % WORD64 == x - q * WORD64;
    var k := (x + HALF64) / WORD64;
    assert x % WORD64 + HALF64 == (k - q) * WORD64 + (x + HALF64) % WORD64;
  }

  lemma SpliceRead(data: bytes, at: nat, s: bytes)
    requires at + |s| <= |data|
    ensures Splice(data, at, s)[at..at + |s|] == s
  {
  }

  lemma SpliceApart(data: bytes, at: nat, s: bytes, from: nat, n: nat)
    requires at + |s| <= |data| && from + n <= |data| && (from + n <= at || at + |s| <= from)
    ensures Splice(data, at, s)[from..from + n] == data[from..from + n]
  {
  }
}
