/** Header parsing, reading and overwriting on the packet buffer itself. */
module Headers {
  import opened Bytes
  import opened Packet

  /** A received packet: its bytes and the time it was received, in microseconds. */
  class Mbuf {
    const data: array<byte>
    var timestamp: nat

    constructor (data: array<byte>, timestamp: nat)
      ensures this.data == data && this.timestamp == timestamp
    {
      this.data := data;
      this.timestamp := timestamp;
    }

    ghost predicate Valid()
      reads this
    {
      data.Length >= MIN_FRAME && timestamp < WORD64
    }
  }

  /** The protocols for which parsing sets or clears every transport field. */
  predicate KnownTransport(proto: nat) {
    proto == PROTO_TCP || proto == PROTO_UDP || proto == PROTO_ICMP
  }

  /** The pointers into the current packet that the header parser keeps. */
  class PacketFields {
    var packet: Mbuf
    var inPort: byte
    var offsets: map<HdrField, nat>
    ghost var transport: nat

    ghost predicate Valid()
      reads this, packet, packet.data
    {
      packet.Valid() &&
      forall f: HdrField :: InData(f) ==>
        (f in offsets <==> Present(View(packet.data[..], transport, inPort, packet.timestamp), f)) &&
        (f in offsets ==> offsets[f] == Offset(f))
    }

    /** The packet as the engine sees it. */
    ghost function Seen(): (v: View)
      requires Valid()
      reads this, packet, packet.data
      ensures ValidView(v)
    {
      View(packet.data[..], transport, inPort, packet.timestamp)
    }

    constructor (m: Mbuf, port: byte)
      requires m.Valid() && KnownTransport(m.data[23])
      ensures Valid() && Seen() == Parse(m.data[..], port, m.timestamp) && packet == m
    {
      packet := m;
      inPort := port;
      offsets := ParseOffsets(m.data);
      transport := m.data[23];
    }

    /** Parses the headers of the next packet. */
    method ParsePktHeader(m: Mbuf, port: byte)
      requires m.Valid() && KnownTransport(m.data[23])
      modifies this
      ensures Valid() && Seen() == Parse(m.data[..], port, m.timestamp) && packet == m
    {
      packet := m;
      inPort := port;
      offsets := ParseOffsets(m.data);
      transport := m.data[23];
    }

    static function ParseOffsets(data: array<byte>): (r: map<HdrField, nat>)
      requires data.Length >= MIN_FRAME
      reads data
    {
      var ip := 14;
      var tp := ip + 20;
      var common := map[EthType := 12, Ipv4Dst := ip + 16, Ipv4Src := ip + 12, Ipv4Proto := ip + 9, Ipv4Tos := ip + 1];
      if data[ip + 9] == PROTO_TCP then common[TcpSport := tp][TcpDport := tp + 2]
      else if data[ip + 9] == PROTO_UDP then common[UdpSport := tp][UdpDport := tp + 2]
      else common
    }

    /** Reads a field into host order. */
    method GetHdrValue(f: HdrField) returns (r: Option<int>)
      requires Valid()
      ensures r == Get(Seen(), f)
    {
      if f == InPort {
        return Some(inPort);
      }
      if f == Timestamp {
        return Some(Wrap64(packet.timestamp));
      }
      if f !in offsets {
        return None;
      }
      var data, i := packet.data, offsets[f];
      BigEndianSlice(data[..], i);
      match Length(f)
      case 4 => r := Some(Joined4(data[i], data[i + 1], data[i + 2], data[i + 3]));
      case 2 => r := Some(Joined2(data[i], data[i + 1]));
      case _ => r := Some(data[i]);
    }

    /** Overwrites a field in place; a missing field leaves the packet alone. */
    method SetField(f: HdrField, x: int)
      requires Valid()
      modifies this`inPort, packet`timestamp, packet.data
      ensures Valid() && Seen() == Set(old(Seen()), f, x)
    {
      ghost var was := Seen();
      var value: nat := x % WORD64;
      if f == InPort {
        inPort := value % 256;
        SameLowByte(x);
        return;
      }
      if f == Timestamp {
        packet.timestamp := value;
        return;
      }
      if f !in offsets {
        return;
      }
      var i := offsets[f];
      match Length(f) {
        case 4 =>
          Copy(i, Swapped32(value % WORD32), 4);
        case 2 =>
          Copy(i, Swapped16(value % 0x1_0000), 2);
        case _ =>
          Copy(i, value, 1);
      }
      StoredBytes(x, Length(f));
    }

    /** Copies the low bytes of a host-order number into the packet, the least significant one first. */
    method Copy(i: nat, value: nat, n: nat)
      requires i + n <= packet.data.Length
      modifies packet.data
      ensures packet.data[..] == Splice(old(packet.data[..]), i, LittleEndian(value, n))
    {
      hide Splice, LittleEndian;
      ghost var was, low := packet.data[..], LittleEndian(value, n);
      var rest := value;
      SpliceNothing(was, i);
      assert low[0..] == low && low[..0] == [];
      for k := 0 to n
        invariant low[k..] == LittleEndian(rest, n - k)
        invariant packet.data[..] == Splice(was, i, low[..k])
      {
        NextByte(low, k, rest, n - k);
        SpliceNext(was, i, low, k);
        packet.data[i + k] := rest % 256;
        rest := rest / 256;
      }
      assert low[..n] == low;
    }
  }

  lemma NextByte(low: bytes, k: nat, rest: nat, n: nat)
    requires k < |low| && n > 0 && low[k..] == LittleEndian(rest, n)
    ensures low[k] == rest % 256 && low[k + 1..] == LittleEndian(rest / 256, n - 1)
  {
    assert low[k] == low[k..][0] && low[k + 1..] == low[k..][1..];
  }

  lemma SpliceNothing(data: bytes, at: nat)
    requires at <= |data|
    ensures Splice(data, at, []) == data
  {
  }

  lemma SpliceNext(data: bytes, at: nat, s: bytes, k: nat)
    requires at + |s| <= |data| && k < |s|
    ensures Splice(data, at, s[..k])[at + k := s[k]] == Splice(data, at, s[..k + 1])
  {
    assert s[..k + 1] == s[..k] + [s[k]];
  }

  function Joined2(b0: byte, b1: byte): nat { b0 * 256 + b1 }

  function Joined4(b0: byte, b1: byte, b2: byte, b3: byte): nat { ((b0 * 256 + b1) * 256 + b2) * 256 + b3 }

  function LittleEndian(x: nat, n: nat): (r: bytes)
    ensures |r| == n
  {
    if n == 0 then [] else [x % 256] + LittleEndian(x / 256, n - 1)
  }

  /** Host to network order on a little-endian machine. */
  function Swapped16(x: nat): nat { x % 256 * 256 + x / 256 }

  function Swapped32(x: nat): nat {
    ((x % 256 * 256 + x / 256 % 256) * 256 + x / 256 / 256 % 256) * 256 + x / 256 / 256 / 256
  }

  /** What ends up in memory is the big-endian form of the value. */
  lemma StoredBytes(x: int, n: nat)
    requires n == 1 || n == 2 || n == 4
    ensures var value: nat := x % WORD64;
      ToBigEndian(x, n)
      == LittleEndian(if n == 4 then Swapped32(value % WORD32)
                      else if n == 2 then Swapped16(value % 0x1_0000) else value, n)
  {
    hide Swapped16, Swapped32;
    SameLowBytes(x);
    BigEndianBytes(x);
    if n == 4 {
      StoredBytes4(x % WORD32);
      FourDigits(x);
    } else if n == 2 {
      StoredBytes2(x % 0x1_0000);
    } else {
      assert LittleEndian(x % WORD64, 1) == [x % WORD64 % 256] + LittleEndian(x % WORD64 / 256, 0);
    }
  }

  lemma SameLowBytes(x: int)
    ensures x % WORD64 % 256 == x % 256 && x % WORD64 % 0x1_0000 == x % 0x1_0000 && x % WORD64 % WORD32 == x % WORD32
    ensures x % 0x1_0000 % 256 == x % 256 && x % 0x1_0000 / 256 == x / 256 % 256
  {
    SameLowByte(x);
    SameLowHalf(x);
    SameLowWord(x);
    assert x % 0x1_0000 == x / 256 % 256 * 256 + x % 256 by { ModSplit16(x); }
  }

  lemma SameLowByte(x: int)
    ensures x % WORD64 % 256 == x % 256
  {
    var v := x % WORD64;
    assert x == x / WORD64 * 0x100_0000_0000_0000 * 256 + v / 256 * 256 + v % 256;
  }

  lemma SameLowHalf(x: int)
    ensures x % WORD64 % 0x1_0000 == x % 0x1_0000
  {
    var v := x % WORD64;
    assert x == x / WORD64 * 0x1_0000_0000_0000 * 0x1_0000 + v / 0x1_0000 * 0x1_0000 + v % 0x1_0000;
  }

  lemma SameLowWord(x: int)
    ensures x % WORD64 % WORD32 == x % WORD32
  {
    var v := x % WORD64;
    assert x == x / WORD64 * WORD32 * WORD32 + v / WORD32 * WORD32 + v % WORD32;
  }

  lemma FourDigits(x: int)
    ensures var v := x % WORD32;
      v % 256 == x % 256 && v / 256 % 256 == x / 256 % 256 && v / 256 / 256 % 256 == x / 256 / 256 % 256
      && v / 256 / 256 / 256 == x / 256 / 256 / 256 % 256
  {
    var q, v := x / WORD32, x % WORD32;
    assert x == q * WORD32 + v;
    assert x / 256 == q * 0x100_0000 + v / 256;
    assert x / 256 / 256 == q * 0x1_0000 + v / 256 / 256;
    assert x / 256 / 256 / 256 == q * 0x100 + v / 256 / 256 / 256;
  }

  lemma BigEndianBytes(x: int)
    ensures ToBigEndian(x, 1) == [x % 256]
    ensures ToBigEndian(x, 2) == [x / 256 % 256, x % 256]
    ensures ToBigEndian(x, 4) == [x / 256 / 256 / 256 % 256, x / 256 / 256 % 256, x / 256 % 256, x % 256]
  {
    assert ToBigEndian(x, 2) == ToBigEndian(x / 256, 1) + [x % 256];
    assert ToBigEndian(x, 4) == ToBigEndian(x / 256, 3) + [x % 256];
    assert ToBigEndian(x / 256, 3) == ToBigEndian(x / 256 / 256, 2) + [x / 256 % 256];
    assert ToBigEndian(x / 256 / 256, 2) == ToBigEndian(x / 256 / 256 / 256, 1) + [x / 256 / 256 % 256];
  }

  lemma StoredBytes2(v: nat)
    requires v < 0x1_0000
    ensures LittleEndian(Swapped16(v), 2) == [v / 256, v % 256]
  {
    var w := Swapped16(v);
    assert LittleEndian(w, 2) == [w % 256] + LittleEndian(w / 256, 1);
    assert LittleEndian(w / 256, 1) == [w / 256 % 256] + LittleEndian(w / 256 / 256, 0);
  }

  lemma StoredBytes4(v: nat)
    requires v < WORD32
    ensures LittleEndian(Swapped32(v), 4) == [v / 256 / 256 / 256, v / 256 / 256 % 256, v / 256 % 256, v % 256]
  {
    var w := Swapped32(v);
    assert LittleEndian(w, 4) == [w % 256] + LittleEndian(w / 256, 3);
    assert LittleEndian(w / 256, 3) == [w / 256 % 256] + LittleEndian(w / 256 / 256, 2);
    assert LittleEndian(w / 256 / 256, 2) == [w / 256 / 256 % 256] + LittleEndian(w / 256 / 256 / 256, 1);
    assert LittleEndian(w / 256 / 256 / 256, 1)
         == [w / 256 / 256 / 256 % 256] + LittleEndian(w / 256 / 256 / 256 / 256, 0);
    SwappedDigits(v % 256, v / 256 % 256, v / 256 / 256 % 256, v / 256 / 256 / 256);
  }

  lemma SwappedDigits(a: nat, b: nat, c: nat, d: nat)
    requires a < 256 && b < 256 && c < 256 && d < 256
    ensures var w := ((a * 256 + b) * 256 + c) * 256 + d;
      w % 256 == d && w / 256 % 256 == c && w / 256 / 256 % 256 == b && w / 256 / 256 / 256 % 256 == a
  {
    assert (((a * 256 + b) * 256 + c) * 256 + d) / 256 == (a * 256 + b) * 256 + c;
    assert ((a * 256 + b) * 256 + c) / 256 == a * 256 + b;
  }

  lemma BigEndianSlice(s: bytes, i: nat)
    requires i < |s|
    ensures BigEndian(s[i..i + 1]) == s[i]
    ensures i + 2 <= |s| ==> BigEndian(s[i..i + 2]) == Joined2(s[i], s[i + 1])
    ensures i + 4 <= |s| ==> BigEndian(s[i..i + 4]) == Joined4(s[i], s[i + 1], s[i + 2], s[i + 3])
  {
    assert s[i..i + 1][..0] == [];
    if i + 2 <= |s| {
      assert s[i..i + 2][..1] == s[i..i + 1];
    }
    if i + 4 <= |s| {
      assert s[i..i + 4][..3] == s[i..i + 3] && s[i..i + 3][..2] == s[i..i + 2];
    }
  }
}
