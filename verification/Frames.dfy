/** Frames put together from their parts, and what the engine reads and writes of them. */
module Frames {
  import opened Bytes
  import opened Packet

  /** The parts of a frame in the order in which they are sent: the Ethernet header, the IPv4 header of RFC 791 section
      3.1 without options, the two ports that TCP (RFC 9293 section 3.1) and UDP (RFC 768) begin with, and the rest. */
  datatype Parts = Parts(
    toStation: bytes, fromStation: bytes, ethType: bytes,
    version: byte, tos: byte, totalLength: bytes, identification: bytes, fragment: bytes, ttl: byte, protocol: byte,
    checksum: bytes, source: bytes, destination: bytes,
    sourcePort: bytes, destinationPort: bytes,
    payload: bytes)
  {
    predicate Valid() {
      |toStation| == 6 && |fromStation| == 6 && |ethType| == 2 && |totalLength| == 2 && |identification| == 2 &&
      |fragment| == 2 && |checksum| == 2 && |source| == 4 && |destination| == 4 && |sourcePort| == 2 &&
      |destinationPort| == 2
    }

    function Ethernet(): bytes { (toStation + fromStation) + ethType }

    /** The IPv4 header up to its checksum, in front of the addresses. */
    function Ipv4Front(): bytes { [version, tos] + (Lengths() + ([ttl, protocol] + checksum)) }

    function Lengths(): bytes { totalLength + identification + fragment }

    function Ipv4(): bytes { Ipv4Front() + (source + destination) }

    function Ports(): bytes { sourcePort + destinationPort }

    function Assemble(): bytes { Ethernet() + (Ipv4() + (Ports() + payload)) }
  }

  /** The number that two or four bytes in network order stand for. */
  function Number(s: bytes): nat
    requires |s| == 2 || |s| == 4
  {
    var a: int, b: int := s[0], s[1];
    if |s| == 2 then a * 256 + b else a * 0x100_0000 + b * 0x1_0000 + s[2] as int * 256 + s[3]
  }

  lemma HeaderLengths(p: Parts)
    requires p.Valid()
    ensures |p.Ethernet()| == 14 && |p.Lengths()| == 6 && |p.Ipv4Front()| == 12 && |p.Ipv4()| == 20
    ensures |p.Ports()| == 4 && |p.Assemble()| >= MIN_FRAME
  {
  }

  lemma Behind(s: bytes, t: bytes, i: nat, j: nat)
    requires i <= j <= |t|
    ensures (s + t)[|s| + i..|s| + j] == t[i..j]
  {
  }

  lemma InFront(s: bytes, t: bytes, i: nat, j: nat)
    requires i <= j <= |s|
    ensures (s + t)[i..j] == s[i..j]
  {
  }

  /** The bytes of an assembled frame from `i` to `j` are those of the header that they are part of. */
  lemma HeaderBytes(p: Parts, i: nat, j: nat)
    requires p.Valid() && i <= j
    ensures |p.Ethernet()| == 14 && |p.Ipv4()| == 20 && |p.Ports()| == 4 && |p.Assemble()| >= MIN_FRAME
    ensures j <= 14 ==> p.Assemble()[i..j] == p.Ethernet()[i..j]
    ensures j <= 20 ==> p.Assemble()[14 + i..14 + j] == p.Ipv4()[i..j]
    ensures j <= 4 ==> p.Assemble()[34 + i..34 + j] == p.Ports()[i..j]
  {
    HeaderLengths(p);
    var e, ip, ports := p.Ethernet(), p.Ipv4(), p.Ports();
    hide Parts.Ethernet, Parts.Ipv4, Parts.Ports;
    if j <= 14 {
      InFront(e, ip + (ports + p.payload), i, j);
    }
    if j <= 20 {
      InFront(ip, ports + p.payload, i, j);
      Behind(e, ip + (ports + p.payload), i, j);
    }
    if j <= 4 {
      InFront(ports, p.payload, i, j);
      Behind(ip, ports + p.payload, i, j);
      Behind(e, ip + (ports + p.payload), 20 + i, 20 + j);
    }
  }

  lemma WholePart(s: bytes, t: bytes)
    ensures (s + t)[|s|..|s| + |t|] == t && (s + t)[0..|s|] == s
  {
  }

  /** Where the parts stand in their headers. */
  lemma HeaderParts(p: Parts)
    requires p.Valid()
    ensures |p.Ethernet()| == 14 && |p.Ipv4()| == 20 && |p.Ports()| == 4
    ensures p.Ethernet()[12..14] == p.ethType
    ensures p.Ipv4()[1..2] == [p.tos] && p.Ipv4()[9..10] == [p.protocol]
    ensures p.Ipv4()[12..16] == p.source && p.Ipv4()[16..20] == p.destination
    ensures p.Ports()[0..2] == p.sourcePort && p.Ports()[2..4] == p.destinationPort
  {
    HeaderLengths(p);
    var front := p.Ipv4Front();
    hide Parts.Ipv4Front;
    WholePart(p.toStation + p.fromStation, p.ethType);
    WholePart(p.sourcePort, p.destinationPort);
    WholePart(p.source, p.destination);
    Behind(front, p.source + p.destination, 0, 4);
    Behind(front, p.source + p.destination, 4, 8);
    FrontParts(p);
    InFront(front, p.source + p.destination, 1, 2);
    InFront(front, p.source + p.destination, 9, 10);
  }

  lemma FrontParts(p: Parts)
    requires p.Valid()
    ensures |p.Ipv4Front()| == 12 && p.Ipv4Front()[1..2] == [p.tos] && p.Ipv4Front()[9..10] == [p.protocol]
  {
    HeaderLengths(p);
    var lengths, last := p.Lengths(), [p.ttl, p.protocol] + p.checksum;
    hide Parts.Lengths;
    InFront([p.version, p.tos], lengths + last, 1, 2);
    Behind([p.version, p.tos], lengths + last, 7, 8);
    Behind(lengths, last, 1, 2);
    InFront([p.ttl, p.protocol], p.checksum, 1, 2);
    assert [p.version, p.tos][1..2] == [p.tos] && [p.ttl, p.protocol][1..2] == [p.protocol];
  }

  lemma NumberIsBigEndian(s: bytes)
    ensures |s| == 1 ==> BigEndian(s) == s[0]
    ensures |s| == 2 || |s| == 4 ==> BigEndian(s) == Number(s)
  {
    if |s| == 1 {
      assert s[..0] == [];
    } else if |s| == 2 {
      assert s[..1][..0] == [];
    } else if |s| == 4 {
      assert s[..3][..2] == s[..2] && s[..2][..1] == s[..1] && s[..1][..0] == [];
    }
  }

  /** Bytes that stand for a number and the number taken modulo their width. */
  lemma NetworkOrder(x: int)
    ensures ToBigEndian(x, 1) == [x % 256]
    ensures |ToBigEndian(x, 2)| == 2 && Number(ToBigEndian(x, 2)) == x % 0x1_0000
    ensures |ToBigEndian(x, 4)| == 4 && Number(ToBigEndian(x, 4)) == x % 0x1_0000_0000
  {
    hide BigEndian, Number;
    BigEndianInverse(x, 2);
    BigEndianInverse(x, 4);
    NumberIsBigEndian(ToBigEndian(x, 2));
    NumberIsBigEndian(ToBigEndian(x, 4));
  }

  /** The fields that the engine reads of a frame are its parts, the ports those of its transport only. */
  lemma FieldsOfFrame(p: Parts, port: byte, now: nat)
    requires p.Valid() && now < WORD64
    ensures |p.Assemble()| >= MIN_FRAME
    ensures var v := Parse(p.Assemble(), port, now);
      Get(v, EthType) == Some(Number(p.ethType)) &&
      Get(v, Ipv4Tos) == Some(p.tos) && Get(v, Ipv4Proto) == Some(p.protocol) &&
      Get(v, Ipv4Src) == Some(Number(p.source)) && Get(v, Ipv4Dst) == Some(Number(p.destination)) &&
      Get(v, TcpSport) == (if p.protocol == 6 then Some(Number(p.sourcePort)) else None) &&
      Get(v, TcpDport) == (if p.protocol == 6 then Some(Number(p.destinationPort)) else None) &&
      Get(v, UdpSport) == (if p.protocol == 17 then Some(Number(p.sourcePort)) else None) &&
      Get(v, UdpDport) == (if p.protocol == 17 then Some(Number(p.destinationPort)) else None) &&
      Get(v, InPort) == Some(port) && (now < 0x8000_0000_0000_0000 ==> Get(v, Timestamp) == Some(now))
  {
    HeaderLengths(p);
    FieldBytes(p);
    var data := p.Assemble();
    hide Parts.Assemble, BigEndian, Number;
    NumberIsBigEndian(p.ethType);
    NumberIsBigEndian([p.tos]);
    NumberIsBigEndian([p.protocol]);
    NumberIsBigEndian(p.source);
    NumberIsBigEndian(p.destination);
    NumberIsBigEndian(p.sourcePort);
    NumberIsBigEndian(p.destinationPort);
    assert data[23] == data[23..24][0];
  }

  lemma FieldBytes(p: Parts)
    requires p.Valid()
    ensures var d := p.Assemble();
      |d| >= MIN_FRAME && d[12..14] == p.ethType && d[15..16] == [p.tos] && d[23..24] == [p.protocol] &&
      d[26..30] == p.source && d[30..34] == p.destination && d[34..36] == p.sourcePort &&
      d[36..38] == p.destinationPort
  {
    hide Parts.Assemble, Parts.Ethernet, Parts.Ipv4, Parts.Ports;
    HeaderParts(p);
    HeaderBytes(p, 12, 14);
    HeaderBytes(p, 1, 2);
    HeaderBytes(p, 9, 10);
    HeaderBytes(p, 12, 16);
    HeaderBytes(p, 16, 20);
    HeaderBytes(p, 0, 2);
    HeaderBytes(p, 2, 4);
  }

  // ---------------------------------------------------------------- setting a field

  /** The frame with other bytes in the place of a field. */
  function WithPart(p: Parts, f: HdrField, s: bytes): (r: Parts)
    requires p.Valid() && InData(f) && |s| == Length(f)
    ensures r.Valid()
  {
    match f
    case EthType => p.(ethType := s)
    case Ipv4Tos => p.(tos := s[0])
    case Ipv4Proto => p.(protocol := s[0])
    case Ipv4Src => p.(source := s)
    case Ipv4Dst => p.(destination := s)
    case TcpSport | UdpSport => p.(sourcePort := s)
    case TcpDport | UdpDport => p.(destinationPort := s)
    case InPort | Timestamp => p
  }

  lemma SpliceInFront(s: bytes, t: bytes, i: nat, u: bytes)
    requires i + |u| <= |s|
    ensures Splice(s + t, i, u) == Splice(s, i, u) + t
  {
  }

  lemma SpliceBehind(s: bytes, t: bytes, i: nat, u: bytes)
    requires i + |u| <= |t|
    ensures Splice(s + t, |s| + i, u) == s + Splice(t, i, u)
  {
  }

  lemma SplicedHeaders(p: Parts, u: bytes)
    requires p.Valid()
    ensures |p.Ethernet()| == 14 && |p.Ipv4()| == 20 && |p.Ports()| == 4
    ensures |u| == 2 ==> Splice(p.Ethernet(), 12, u) == p.(ethType := u).Ethernet()
    ensures |u| == 1 ==> Splice(p.Ipv4(), 1, u) == p.(tos := u[0]).Ipv4()
    ensures |u| == 1 ==> Splice(p.Ipv4(), 9, u) == p.(protocol := u[0]).Ipv4()
    ensures |u| == 4 ==> Splice(p.Ipv4(), 12, u) == p.(source := u).Ipv4()
    ensures |u| == 4 ==> Splice(p.Ipv4(), 16, u) == p.(destination := u).Ipv4()
    ensures |u| == 2 ==> Splice(p.Ports(), 0, u) == p.(sourcePort := u).Ports()
    ensures |u| == 2 ==> Splice(p.Ports(), 2, u) == p.(destinationPort := u).Ports()
  {
    hide Splice;
    HeaderLengths(p);
    if |u| == 2 {
      SpliceBehind(p.toStation + p.fromStation, p.ethType, 0, u);
      SpliceInFront(p.sourcePort, p.destinationPort, 0, u);
      SpliceBehind(p.sourcePort, p.destinationPort, 0, u);
      SpliceAll(p.ethType, u);
      SpliceAll(p.sourcePort, u);
      SpliceAll(p.destinationPort, u);
    } else if |u| == 4 {
      SpliceBehind(p.Ipv4Front(), p.source + p.destination, 0, u);
      SpliceBehind(p.Ipv4Front(), p.source + p.destination, 4, u);
      SpliceInFront(p.source, p.destination, 0, u);
      SpliceBehind(p.source, p.destination, 0, u);
      SpliceAll(p.source, u);
      SpliceAll(p.destination, u);
    } else if |u| == 1 {
      SplicedFront(p, u);
      SpliceInFront(p.Ipv4Front(), p.source + p.destination, 1, u);
      SpliceInFront(p.Ipv4Front(), p.source + p.destination, 9, u);
    }
  }

  lemma SpliceAll(s: bytes, u: bytes)
    requires |u| == |s|
    ensures Splice(s, 0, u) == u
  {
  }

  lemma SplicedFront(p: Parts, u: bytes)
    requires p.Valid() && |u| == 1
    ensures |p.Ipv4Front()| == 12
    ensures Splice(p.Ipv4Front(), 1, u) == p.(tos := u[0]).Ipv4Front()
    ensures Splice(p.Ipv4Front(), 9, u) == p.(protocol := u[0]).Ipv4Front()
  {
    hide Splice, Parts.Lengths;
    HeaderLengths(p);
    var lengths, last := p.Lengths(), [p.ttl, p.protocol] + p.checksum;
    SameLengths(p, u[0]);
    SpliceInFront([p.version, p.tos], lengths + last, 1, u);
    SpliceBehind([p.version, p.tos], lengths + last, 7, u);
    SpliceBehind(lengths, last, 1, u);
    SpliceInFront([p.ttl, p.protocol], p.checksum, 1, u);
    SpliceSecond(p.version, p.tos, u);
    SpliceSecond(p.ttl, p.protocol, u);
  }

  lemma SameLengths(p: Parts, b: byte)
    ensures p.(tos := b).Lengths() == p.Lengths() && p.(protocol := b).Lengths() == p.Lengths()
  {
  }

  lemma SpliceSecond(a: byte, b: byte, u: bytes)
    requires |u| == 1
    ensures Splice([a, b], 1, u) == [a, u[0]]
  {
  }

  /** Setting a field replaces its part of the frame by the big-endian bytes of the value, and nothing else. */
  lemma SetPart(p: Parts, port: byte, now: nat, f: HdrField, x: int)
    requires p.Valid() && now < WORD64 && InData(f) && |p.Assemble()| >= MIN_FRAME
    ensures var v := Parse(p.Assemble(), port, now);
      Set(v, f, x) == if Get(v, f).None? then v else v.(data := WithPart(p, f, ToBigEndian(x, Length(f))).Assemble())
  {
    hide ToBigEndian, Splice, BigEndian, Parts.Ethernet, Parts.Ipv4, Parts.Ipv4Front, Parts.Ports;
    var u := ToBigEndian(x, Length(f));
    SplicedHeaders(p, u);
    var e, ip, ports := p.Ethernet(), p.Ipv4(), p.Ports();
    var at := Offset(f);
    OtherHeaders(p, f, u);
    if at < 14 {
      SpliceInFront(e, ip + (ports + p.payload), at, u);
    } else if at < 34 {
      SpliceBehind(e, ip + (ports + p.payload), at - 14, u);
      SpliceInFront(ip, ports + p.payload, at - 14, u);
    } else {
      SpliceBehind(e, ip + (ports + p.payload), at - 14, u);
      SpliceBehind(ip, ports + p.payload, at - 34, u);
      SpliceInFront(ports, p.payload, at - 34, u);
    }
  }

  lemma OtherHeaders(p: Parts, f: HdrField, s: bytes)
    requires p.Valid() && InData(f) && |s| == Length(f)
    ensures var r := WithPart(p, f, s);
      r.payload == p.payload && (f != EthType ==> r.Ethernet() == p.Ethernet()) &&
      (f !in {Ipv4Tos, Ipv4Proto, Ipv4Src, Ipv4Dst} ==> r.Ipv4() == p.Ipv4()) &&
      (f !in {TcpSport, TcpDport, UdpSport, UdpDport} ==> r.Ports() == p.Ports())
  {
  }
}
