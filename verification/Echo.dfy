/** The echo packet: how Controller::send lays it out and how handle_event recognises a reply. */
module Echo {
  import opened Bytes
  import opened Checksum

  const ECHO_REPLY: byte := 0
  const DEST_UNREACH: byte := 3
  const ECHO_REQUEST: byte := 8
  const TIME_EXCEEDED: byte := 11

  const IP_HEADER: nat := 20   // sizeof(struct iphdr)
  const ICMP_HEADER: nat := 28 // sizeof(struct icmp), the unused union included
  const PACKET: nat := 40      // sizeof(Packet), packed
  const DATAGRAM: nat := 60    // sizeof(in)

  datatype Payload = Payload(id: u16, seqno: u16, time: u64)

  /** What the process contributes to every packet: its host's byte order and its pid. */
  datatype Process = Process(order: Order, pid: nat)

  /** getpid() cut to the 16 bits of the identifier field. */
  function PidField(p: Process): u16 {
    p.pid % 0x1_0000
  }

  function PayloadBytes(o: Order, p: Payload): (b: seq<byte>)
    ensures |b| == 12
  {
    Store(o, p.id, 2) + Store(o, p.seqno, 2) + Store(o, p.time, 8)
  }

  function PayloadOf(o: Order, b: seq<byte>): Payload
    requires |b| == 12
  {
    Payload(Load16(o, b[..2]), Load16(o, b[2..4]), Load64(o, b[4..]))
  }

  /** The packet as it stands when the checksum is computed: everything else set, the checksum field zero. */
  function Unsealed(proc: Process, seqno: u16, p: Payload): (b: seq<byte>)
    ensures |b| == PACKET
  {
    var o := proc.order;
    [ECHO_REQUEST, 0, 0, 0] + Store(o, Htons(o, PidField(proc)), 2) + Store(o, Htons(o, seqno), 2)
    + seq(20, _ => 0) + PayloadBytes(o, p)
  }

  /** The packet handed to sendto. */
  function Packet(proc: Process, seqno: u16, p: Payload): (b: seq<byte>)
    ensures |b| == PACKET
  {
    var b := Unsealed(proc, seqno, p);
    WithWord(proc.order, b, 2, Chksum(proc.order, b))
  }

  /** Builds the packet as Controller::send does, with in_chksum over the zeroed field. */
  method BuildPacket(proc: Process, seqno: u16, p: Payload) returns (packet: seq<byte>)
    ensures packet == Packet(proc, seqno, p)
  {
    packet := Unsealed(proc, seqno, p);
    OverflowBound(proc.order, PACKET);
    var sum := InChksum(proc.order, packet);
    packet := packet[..2] + Store(proc.order, sum, 2) + packet[4..];
  }

  /** The type and payload of a datagram that passes the size and identifier filters of handle_event. */
  function Accept(proc: Process, datagram: seq<byte>): Option<(byte, Payload)> {
    if |datagram| != DATAGRAM then None
    else
      var icmp := datagram[IP_HEADER..];
      if Htons(proc.order, Load16(proc.order, icmp[4..6])) != PidField(proc) then None
      else Some((icmp[0], PayloadOf(proc.order, icmp[ICMP_HEADER..])))
  }

  /** The two filters of handle_event, in the order they are applied. */
  method Recognise(proc: Process, datagram: seq<byte>) returns (r: Option<(byte, Payload)>)
    ensures r == Accept(proc, datagram)
    ensures r.Some? <==>
      |datagram| == DATAGRAM && datagram[24] as int * 0x100 + datagram[25] as int == proc.pid % 0x1_0000
  {
    AcceptExactly(proc, datagram);
    if |datagram| != DATAGRAM {
      return None;
    }
    var icmp := datagram[IP_HEADER..];
    if Htons(proc.order, Load16(proc.order, icmp[4..6])) != PidField(proc) {
      return None;
    }
    return Some((icmp[0], PayloadOf(proc.order, icmp[ICMP_HEADER..])));
  }

  /** A datagram that carries the packet back unchanged but for the type and the checksum. */
  ghost predicate Echoes(datagram: seq<byte>, packet: seq<byte>, icmpType: byte) {
    && |datagram| == DATAGRAM && |packet| == PACKET
    && datagram[IP_HEADER] == icmpType
    && datagram[IP_HEADER + 1] == packet[1]
    && datagram[IP_HEADER + 4..] == packet[4..]
  }

  lemma PayloadRoundTrip(o: Order, p: Payload)
    ensures PayloadOf(o, PayloadBytes(o, p)) == p
  {
    var b := PayloadBytes(o, p);
    Capacities();
    LoadStore(o, p.id, 2);
    LoadStore(o, p.seqno, 2);
    LoadStore(o, p.time, 8);
    assert b[..2] == Store(o, p.id, 2);
    assert b[2..4] == Store(o, p.seqno, 2);
    assert b[4..] == Store(o, p.time, 8);
  }

  /** The fields of the packet, by position. */
  lemma PacketLayout(proc: Process, seqno: u16, p: Payload)
    ensures var b := Packet(proc, seqno, p);
      && b[0] == ECHO_REQUEST && b[1] == 0
      && b[4..6] == [PidField(proc) / 0x100, PidField(proc) % 0x100]
      && b[6..8] == [seqno / 0x100, seqno % 0x100]
      && (forall i :: 8 <= i < 28 ==> b[i] == 0)
      && b[28..] == PayloadBytes(proc.order, p)
      && b[28..] == Store(proc.order, p.id, 2) + Store(proc.order, p.seqno, 2) + Store(proc.order, p.time, 8)
  {
    assert PayloadBytes(proc.order, p)
        == Store(proc.order, p.id, 2) + Store(proc.order, p.seqno, 2) + Store(proc.order, p.time, 8);
    hide Store, Chksum, PayloadBytes, Htons, PidField, Unsealed;
    var u := Unsealed(proc, seqno, p);
    UnsealedLayout(proc, seqno, p);
    var b := Packet(proc, seqno, p);
    assert b[..2] == u[..2] && b[4..] == u[4..];
    hide *;
    assert b[0] == b[..2][0] && b[1] == b[..2][1];
    assert b[4..6] == b[4..][0..2] && b[6..8] == b[4..][2..4] && b[28..] == b[4..][24..];
    assert u[4..6] == u[4..][0..2] && u[6..8] == u[4..][2..4] && u[28..] == u[4..][24..];
    forall i | 8 <= i < 28 ensures b[i] == 0 {
      assert b[i] == b[4..][i - 4] == u[4..][i - 4] == u[i];
    }
  }

  lemma UnsealedLayout(proc: Process, seqno: u16, p: Payload)
    ensures var u := Unsealed(proc, seqno, p);
      && u[0] == ECHO_REQUEST && u[1] == 0
      && u[4..6] == [PidField(proc) / 0x100, PidField(proc) % 0x100]
      && u[6..8] == [seqno / 0x100, seqno % 0x100]
      && (forall i :: 8 <= i < 28 ==> u[i] == 0)
      && u[28..] == PayloadBytes(proc.order, p)
  {
    hide Store, PayloadBytes, Htons, PidField;
    StoreHtons(proc.order, PidField(proc));
    StoreHtons(proc.order, seqno);
    var u := Unsealed(proc, seqno, p);
    assert u[4..6] == Store(proc.order, Htons(proc.order, PidField(proc)), 2);
    assert u[6..8] == Store(proc.order, Htons(proc.order, seqno), 2);
    assert u[28..] == PayloadBytes(proc.order, p);
  }

  /**
   * Echo round trip: a datagram that carries a sent packet back passes both filters and decodes
   * to the type it bears and the original payload, whatever the pid and the byte order.
   */
  lemma EchoRoundTrip(proc: Process, seqno: u16, p: Payload, datagram: seq<byte>, icmpType: byte)
    requires Echoes(datagram, Packet(proc, seqno, p), icmpType)
    ensures Accept(proc, datagram) == Some((icmpType, p))
  {
    var o := proc.order;
    var b := Packet(proc, seqno, p);
    PacketLayout(proc, seqno, p);
    var icmp := datagram[IP_HEADER..];
    var tail := datagram[IP_HEADER + 4..];
    assert icmp[4..6] == tail[..2] == b[4..][..2] == b[4..6];
    assert icmp[ICMP_HEADER..] == tail[24..] == b[4..][24..] == b[28..];
    PayloadRoundTrip(o, p);
    StoreHtons(o, PidField(proc));
    Capacities();
    LoadStore(o, Htons(o, PidField(proc)), 2);
  }

  /** htons of a loaded word is its value, most significant byte first. */
  lemma HtonsOfTwo(o: Order, w: seq<byte>)
    requires |w| == 2
    ensures Htons(o, Load16(o, w)) == w[0] as int * 0x100 + w[1] as int
  {
    LoadTwo(w);
  }

  /**
   * A datagram is accepted exactly when it has the fixed size and bears this process's identifier, most
   * significant byte first.
   */
  lemma AcceptExactly(proc: Process, datagram: seq<byte>)
    ensures Accept(proc, datagram).Some? <==>
      |datagram| == DATAGRAM && datagram[24] as int * 0x100 + datagram[25] as int == proc.pid % 0x1_0000
  {
    if |datagram| == DATAGRAM {
      var w := datagram[IP_HEADER..][4..6];
      assert w[0] == datagram[24] && w[1] == datagram[25];
      HtonsOfTwo(proc.order, w);
      hide Load16, Htons, PayloadOf;
    }
  }

  /** Every packet sent carries a valid checksum: in_chksum over all of it gives zero. */
  lemma PacketVerifies(proc: Process, seqno: u16, p: Payload)
    ensures Chksum(proc.order, Packet(proc, seqno, p)) == 0
  {
    var b := Unsealed(proc, seqno, p);
    assert Store(proc.order, 0, 2) == [0, 0] by {
      StoreHtons(proc.order, 0);
    }
    assert WithWord(proc.order, b, 2, 0) == b;
    SealedSumsToZero(proc.order, b, 2);
  }

  /** Different packet numbers or payloads never give the same packet. */
  lemma PacketInjective(proc: Process, m: u16, p: Payload, n: u16, q: Payload)
    ensures Packet(proc, m, p) == Packet(proc, n, q) <==> m == n && p == q
  {
    if Packet(proc, m, p) == Packet(proc, n, q) {
      PacketLayout(proc, m, p);
      PacketLayout(proc, n, q);
      PayloadRoundTrip(proc.order, p);
      PayloadRoundTrip(proc.order, q);
      assert [m / 0x100, m % 0x100][0] == [n / 0x100, n % 0x100][0];
      assert [m / 0x100, m % 0x100][1] == [n / 0x100, n % 0x100][1];
    }
  }

  /**
   * Of all changes of a single 16-bit word of a sent packet, those that keep its checksum valid
   * are exactly the ones that exchange 0x0000 and 0xFFFF.
   */
  lemma CorruptionDetected(proc: Process, seqno: u16, p: Payload, at: nat, v: u16)
    requires at + 2 <= PACKET && at % 2 == 0
    ensures var b := Packet(proc, seqno, p);
      var was := Load16(proc.order, b[at..at + 2]);
      v != was ==> (Chksum(proc.order, WithWord(proc.order, b, at, v)) == 0 <==> ZeroForOnes(v, was))
  {
    hide *;
    var o := proc.order;
    var b := Packet(proc, seqno, p);
    var was := Load16(o, b[at..at + 2]);
    PacketVerifies(proc, seqno, p);
    WordRestored(o, b, at);
    if v != was {
      NotBoth(v, was);
      SingleWordChange(o, b, at, v, was);
      FirstWordNonZero(proc, seqno, p, at);
    }
  }

  lemma WordRestored(o: Order, b: seq<byte>, at: nat)
    requires at + 2 <= |b|
    ensures WithWord(o, b, at, Load16(o, b[at..at + 2])) == b
  {
    StoreLoad(o, b[at..at + 2]);
    hide Store, Load;
  }

  lemma NotBoth(v: u16, was: u16)
    ensures 0 < was < 0xFFFF ==> !ZeroForOnes(v, was)
  {
  }

  /**
   * The type keeps the first word from being zero or all ones, so the rest of any other word's packet is
   * never all zero.
   */
  lemma FirstWordNonZero(proc: Process, seqno: u16, p: Payload, at: nat)
    requires at + 2 <= PACKET && at % 2 == 0
    ensures var b := Packet(proc, seqno, p);
      if at == 0 then 0 < Load16(proc.order, b[at..at + 2]) < 0xFFFF else Total(proc.order, b[..at]) > 0
  {
    var b := Packet(proc, seqno, p);
    PacketLayout(proc, seqno, p);
    LoadTwo(b[0..2]);
    if at > 0 {
      assert b[..at][..2] == b[0..2];
    }
  }
}
