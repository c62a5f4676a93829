/** udp_write: building an IPv4/UDP packet in place and checksumming it over the pseudo-header (RFC 768). */
module UdpWrite {
  import opened Basics
  import opened Checksum

  const UDPIPHDR := 28
  const IPPROTO_UDP := 17
  const TTL_OUT := 64
  const SUM_AT := 26

  /** Address and port, both already in network order. */
  datatype Endpoint = Endpoint(addr: seq<Byte>, port: seq<Byte>)
  {
    ghost predicate Valid() { |addr| == 4 && |port| == 2 }
  }

  /** htons((uint16_t) v), as it lies in memory. */
  function Htons(v: nat): (b: seq<Byte>)
    ensures |b| == 2 && 256 * (b[0] as int) + b[1] == v % 65536
  {
    var w := v % 65536;
    [w / 256, w % 256]
  }

  /** struct udpiphdr while the checksum is computed: overlay and UDP header with a zero sum. */
  function Overlay(userlen: nat, local: Endpoint, dest: Endpoint): (h: seq<Byte>)
    requires local.Valid() && dest.Valid()
    ensures |h| == UDPIPHDR && h[SUM_AT] == 0 && h[SUM_AT + 1] == 0
    ensures h[..9] == Zeros(9) && h[9] == IPPROTO_UDP && h[10..12] == h[24..26] == Htons(8 + userlen)
    ensures h[12..16] == local.addr && h[16..20] == dest.addr && h[20..22] == local.port && h[22..24] == dest.port
  {
    Zeros(9) + [IPPROTO_UDP] + Htons(8 + userlen) + local.addr + dest.addr +
    local.port + dest.port + Htons(8 + userlen) + [0, 0]
  }

  /** The first nine bytes of the IP header as they are filled in afterwards. */
  function IpStart(userlen: nat, linux: bool, o: Order): (h: seq<Byte>)
    ensures |h| == 9
  {
    [0x45, 0] + (if linux then Htons(UDPIPHDR + userlen) else Store(o, (UDPIPHDR + userlen) % M16)) + [0, 0, 0, 0, TTL_OUT]
  }

  /** What the receiver sums: source, destination, zero, protocol, UDP length, and the UDP segment. */
  function PseudoAndSegment(packet: seq<Byte>): seq<Byte>
    requires |packet| >= UDPIPHDR
  {
    packet[12..20] + ([0, packet[9]] + (packet[24..26] + packet[20..]))
  }

  /** A zero word contributes nothing. */
  lemma {:induction false} ZeroSum(o: Order, n: nat)
    ensures WordSum(o, Zeros(2 * n)) == 0
  {
    if n > 0 {
      assert Zeros(2 * n)[2..] == Zeros(2 * (n - 1));
      ZeroSum(o, n - 1);
    }
  }

  /** The overlay's order of the pseudo-header fields, and its zeros, do not change the sum. */
  lemma SameSum(o: Order, p: seq<Byte>)
    requires |p| >= UDPIPHDR && p[..9] == Zeros(9) && p[10..12] == p[24..26]
    ensures WordSum(o, p) == WordSum(o, PseudoAndSegment(p))
  {
    var a, b, l, d, u := p[..8], p[8..10], p[10..12], p[12..20], p[20..];
    assert p == a + (b + (l + (d + u)));
    SumConcat(o, a, b + (l + (d + u)));
    SumConcat(o, b, l + (d + u));
    SumConcat(o, l, d + u);
    SumConcat(o, d, u);
    assert a == Zeros(8);
    ZeroSum(o, 4);
    assert b == [0, p[9]] by { assert p[8] == p[..9][8]; }
    SumConcat(o, d, b + (l + u));
    SumConcat(o, b, l + u);
    SumConcat(o, l, u);
  }

  /** All ones on one host is all ones on any. */
  lemma VerifiesEverywhere(o: Order, o': Order, buf: seq<Byte>)
    requires Cksum(o, buf) == 0
    ensures Cksum(o', buf) == 0
  {
    OrderIndependent(buf);
  }

  /** The receiver's check comes out at zero, on a host of either byte order, whatever the IP header then says. */
  lemma PacketVerifies(o: Order, o': Order, p: seq<Byte>, c: Word, packet: seq<Byte>)
    requires |p| >= UDPIPHDR && p[..9] == Zeros(9) && p[10..12] == p[24..26] && p[SUM_AT] == 0 && p[SUM_AT + 1] == 0
    requires c == Cksum(o, p) || (Cksum(o, p) == 0 && c == 0xffff)
    requires |packet| == |p| && packet[9..] == SetField(o, p, SUM_AT, c)[9..]
    ensures Cksum(o', PseudoAndSegment(packet)) == 0
  {
    var q := SetField(o, p, SUM_AT, c);
    StoredVerifies(o, p, SUM_AT, c);
    assert q[..9] == p[..9] && q[10..12] == p[10..12] && q[24..26] == p[24..26];
    SameSum(o, q);
    assert PseudoAndSegment(packet) == PseudoAndSegment(q) by {
      assert forall k :: 9 <= k < |q| ==> packet[k] == packet[9..][k - 9] == q[9..][k - 9] == q[k];
      assert packet[12..20] == q[12..20] && packet[24..26] == q[24..26] && packet[20..] == q[20..];
    }
    OcSumIsNorm(o, q);
    OcSumIsNorm(o, PseudoAndSegment(q));
    VerifiesEverywhere(o, o', PseudoAndSegment(packet));
  }

  method PutBytes(buf: array<Byte>, at: nat, b: seq<Byte>)
    requires at + |b| <= buf.Length
    modifies buf
    ensures forall k :: 0 <= k < buf.Length ==> buf[k] == if at <= k < at + |b| then b[k - at] else old(buf[k])
  {
    forall k | 0 <= k < |b| { buf[at + k] := b[k]; }
  }

  /** A header is its fields. */
  lemma HeaderOfFields(p: seq<Byte>, userlen: nat, local: Endpoint, dest: Endpoint)
    requires local.Valid() && dest.Valid() && |p| >= UDPIPHDR
    requires p[..9] == Zeros(9) && p[9] == IPPROTO_UDP && p[10..12] == p[24..26] == Htons(8 + userlen)
    requires p[12..16] == local.addr && p[16..20] == dest.addr && p[20..22] == local.port && p[22..24] == dest.port
    requires p[26] == 0 && p[27] == 0
    ensures p[..UDPIPHDR] == Overlay(userlen, local, dest)
  {
    assert p[..UDPIPHDR] == p[..9] + [p[9]] + p[10..12] + p[12..16] + p[16..20] + p[20..22] + p[22..24] + p[24..26] + [p[26], p[27]];
  }

  /** bzero, then the overlaid pseudo-header fields. */
  method FillPseudo(buf: array<Byte>, userlen: nat, local: Endpoint, dest: Endpoint)
    requires buf.Length == UDPIPHDR + userlen && local.Valid() && dest.Valid()
    modifies buf
    ensures buf[..9] == Zeros(9) && buf[9] == IPPROTO_UDP && buf[10..12] == Htons(8 + userlen)
    ensures buf[12..16] == local.addr && buf[16..20] == dest.addr && buf[20..28] == Zeros(8)
    ensures buf[UDPIPHDR..] == old(buf[UDPIPHDR..])
  {
    PutBytes(buf, 0, Zeros(UDPIPHDR));
    PutBytes(buf, 10, Htons(8 + userlen));
    buf[9] := IPPROTO_UDP;
    PutBytes(buf, 12, local.addr);
    PutBytes(buf, 16, dest.addr);
    ghost var h := Htons(8 + userlen);
    assert buf[10] == h[0] && buf[11] == h[1] && buf[10..12] == [h[0], h[1]];
    assert forall k :: 0 <= k < 9 || 20 <= k < 28 ==> buf[k] == 0;
    assert forall k :: 12 <= k < 16 ==> buf[k] == local.addr[k - 12];
    assert forall k :: 16 <= k < 20 ==> buf[k] == dest.addr[k - 16];
  }

  /** The whole header before checksumming, written in the order of the source. */
  method FillHeader(buf: array<Byte>, userlen: nat, local: Endpoint, dest: Endpoint)
    requires buf.Length == UDPIPHDR + userlen && local.Valid() && dest.Valid()
    modifies buf
    ensures buf[..UDPIPHDR] == Overlay(userlen, local, dest) && buf[UDPIPHDR..] == old(buf[UDPIPHDR..])
  {
    FillPseudo(buf, userlen, local, dest);
    ghost var p := buf[..];
    PutBytes(buf, 20, local.port);
    PutBytes(buf, 22, dest.port);
    PutBytes(buf, 24, Htons(8 + userlen));
    ghost var q := buf[..];
    assert q[..20] == p[..20] && q[26..] == p[26..];
    assert q[20..22] == local.port && q[22..24] == dest.port && q[24..26] == Htons(8 + userlen);
    UdpFields(p, q, userlen, local, dest);
    assert q[UDPIPHDR..] == p[UDPIPHDR..];
  }

  lemma UdpFields(p: seq<Byte>, q: seq<Byte>, userlen: nat, local: Endpoint, dest: Endpoint)
    requires local.Valid() && dest.Valid() && |p| == |q| >= UDPIPHDR
    requires p[..9] == Zeros(9) && p[9] == IPPROTO_UDP && p[10..12] == Htons(8 + userlen)
    requires p[12..16] == local.addr && p[16..20] == dest.addr && p[20..28] == Zeros(8)
    requires q[..20] == p[..20] && q[26..] == p[26..]
    requires q[20..22] == local.port && q[22..24] == dest.port && q[24..26] == Htons(8 + userlen)
    ensures q[..UDPIPHDR] == Overlay(userlen, local, dest)
  {
    assert forall k :: 0 <= k < 20 ==> q[k] == q[..20][k] == p[..20][k] == p[k];
    assert q[26] == q[26..][0] == p[26..][0] == p[20..28][6] && q[27] == q[26..][1] == p[26..][1] == p[20..28][7];
    assert q[..9] == p[..9] && q[10..12] == p[10..12] && q[12..16] == p[12..16] && q[16..20] == p[16..20];
    HeaderOfFields(q, userlen, local, dest);
  }

  /**
    * The packet as sent. With checksums on, the stored sum is never zero and the packet
    * verifies over the pseudo-header on hosts of both byte orders; with zerosum it is zero.
    */
  method UdpWrite(o: Order, buf: array<Byte>, userlen: nat, local: Endpoint, dest: Endpoint, zerosum: bool, linux: bool)
    requires buf.Length == UDPIPHDR + userlen && local.Valid() && dest.Valid()
    modifies buf
    ensures buf[..9] == IpStart(userlen, linux, o)
    ensures buf[0] == 0x45 && buf[1] == 0 && buf[4] == buf[5] == buf[6] == buf[7] == 0 && buf[8] == 64 && buf[9] == 17
    ensures linux || o.Big? ==> 256 * (buf[2] as int) + buf[3] == buf.Length % 65536
    ensures !linux && o.Little? ==> buf[2] + 256 * (buf[3] as int) == buf.Length % 65536
    ensures buf[12..16] == local.addr && buf[16..20] == dest.addr && buf[20..22] == local.port && buf[22..24] == dest.port
    ensures 256 * (buf[24] as int) + buf[25] == (8 + userlen) % 65536 && buf[10..12] == buf[24..26]
    ensures buf[9..SUM_AT] == Overlay(userlen, local, dest)[9..SUM_AT]
    ensures buf[UDPIPHDR..] == old(buf[UDPIPHDR..])
    ensures zerosum ==> buf[SUM_AT..UDPIPHDR] == [0, 0]
    ensures !zerosum ==> buf[SUM_AT..UDPIPHDR] != [0, 0]
    ensures !zerosum && buf.Length <= 131074 ==> forall o' :: Cksum(o', PseudoAndSegment(buf[..])) == 0
  {
    FillHeader(buf, userlen, local, dest);
    ghost var p := buf[..];
    HeaderFacts(userlen, local, dest, p);
    var sum := StoreSum(o, buf, zerosum);
    PutBytes(buf, 0, IpStart(userlen, linux, o));
    ghost var q := buf[..];
    assert q == IpStart(userlen, linux, o) + SetField(o, p, SUM_AT, sum)[9..];
    PacketFields(o, p, sum, IpStart(userlen, linux, o), q);
    SentBytes(o, userlen, local, dest, linux, q);
    forall o' | !zerosum && buf.Length <= 131074 ensures Cksum(o', PseudoAndSegment(q)) == 0 {
      PacketVerifies(o, o', p, sum, q);
    }
  }

  /** The checksum, with 0xffff for 0, unless checksums are off. */
  method StoreSum(o: Order, buf: array<Byte>, zerosum: bool) returns (sum: Word)
    requires buf.Length >= UDPIPHDR && buf[SUM_AT] == 0 && buf[SUM_AT + 1] == 0
    modifies buf
    ensures buf[..] == SetField(o, old(buf[..]), SUM_AT, sum) && (sum == 0 <==> zerosum)
    ensures !zerosum && buf.Length <= 131074 ==>
              sum == Cksum(o, old(buf[..])) || (Cksum(o, old(buf[..])) == 0 && sum == 0xffff)
  {
    sum := 0;
    if !zerosum {
      sum := InCksum(o, buf[..]);
      if sum == 0 {
        sum := 0xffff;
      }
      PutBytes(buf, SUM_AT, Store(o, sum));
    }
  }

  /** The header fields as sent, byte by byte. */
  lemma SentBytes(o: Order, userlen: nat, local: Endpoint, dest: Endpoint, linux: bool, q: seq<Byte>)
    requires local.Valid() && dest.Valid() && |q| == UDPIPHDR + userlen
    requires q[..9] == IpStart(userlen, linux, o) && q[9..SUM_AT] == Overlay(userlen, local, dest)[9..SUM_AT]
    ensures q[0] == 0x45 && q[1] == 0 && q[4] == q[5] == q[6] == q[7] == 0 && q[8] == 64 && q[9] == 17
    ensures linux || o.Big? ==> 256 * (q[2] as int) + q[3] == |q| % 65536
    ensures !linux && o.Little? ==> q[2] + 256 * (q[3] as int) == |q| % 65536
    ensures q[12..16] == local.addr && q[16..20] == dest.addr && q[20..22] == local.port && q[22..24] == dest.port
    ensures 256 * (q[24] as int) + q[25] == (8 + userlen) % 65536 && q[10..12] == q[24..26]
  {
    var ip, h := IpStart(userlen, linux, o), Overlay(userlen, local, dest);
    assert forall k :: 0 <= k < 9 ==> q[k] == q[..9][k] == ip[k];
    assert forall k :: 9 <= k < SUM_AT ==> q[k] == q[9..SUM_AT][k - 9] == h[9..SUM_AT][k - 9] == h[k];
    assert q[12..16] == h[12..16] && q[16..20] == h[16..20] && q[20..22] == h[20..22] && q[22..24] == h[22..24];
    assert q[10..12] == h[10..12] && q[24..26] == h[24..26];
  }

  lemma PacketFields(o: Order, p: seq<Byte>, c: Word, ip: seq<Byte>, q: seq<Byte>)
    requires |p| >= UDPIPHDR && |ip| == 9 && q == ip + SetField(o, p, SUM_AT, c)[9..]
    ensures |q| == |p| && q[..9] == ip && q[9..] == SetField(o, p, SUM_AT, c)[9..]
    ensures q[9..SUM_AT] == p[9..SUM_AT] && q[UDPIPHDR..] == p[UDPIPHDR..] && q[SUM_AT..UDPIPHDR] == Store(o, c)
    ensures q[SUM_AT..UDPIPHDR] == [0, 0] <==> c == 0
  {
    var f := SetField(o, p, SUM_AT, c);
    TailSlice(ip, f, 9, |f|);
    TailSlice(ip, f, 9, SUM_AT);
    TailSlice(ip, f, SUM_AT, UDPIPHDR);
    TailSlice(ip, f, UDPIPHDR, |f|);
    StoreZero(o, c);
  }

  lemma TailSlice(ip: seq<Byte>, f: seq<Byte>, a: nat, b: nat)
    requires |ip| == 9 <= a <= b <= |f|
    ensures (ip + f[9..])[a..b] == f[a..b]
  {
  }

  lemma StoreZero(o: Order, c: Word)
    ensures Store(o, c) == [0, 0] <==> c == 0
  {
  }

  lemma HeaderFacts(userlen: nat, local: Endpoint, dest: Endpoint, p: seq<Byte>)
    requires local.Valid() && dest.Valid() && |p| >= UDPIPHDR && p[..UDPIPHDR] == Overlay(userlen, local, dest)
    ensures p[..9] == Zeros(9) && p[10..12] == p[24..26] && p[SUM_AT] == 0 && p[SUM_AT + 1] == 0
    ensures p[9..SUM_AT] == Overlay(userlen, local, dest)[9..SUM_AT]
  {
    var h := Overlay(userlen, local, dest);
    assert forall k :: 0 <= k < UDPIPHDR ==> p[k] == h[k];
    assert p[..9] == h[..9] && p[10..12] == h[10..12] && p[24..26] == h[24..26];
  }
}
