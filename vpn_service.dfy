/**
 * The packet arithmetic of the VPN service (PrivacyVpnService.kt): the IPv4
 * header checksum (section 3.1 of RFC 791, computed as in RFC 1071), the
 * forged IPv4 + UDP (RFC 768) reply built around a resolver's answer, and
 * the per-packet pipeline with its size guard and payload slice. The socket,
 * the tunnel descriptor and the UI broadcasts are parameters or results.
 */
module PrivacyVpnService {
  import opened Wrappers
  import NativeLib
  import DnsUtils
  import Blocklist

  /** The 16 bits of a Kotlin Short, read unsigned. */
  newtype word = x: int | 0 <= x < 0x10000

  /** The big-endian 16-bit word with bytes `hi` and `lo`. */
  function Word(hi: byte, lo: byte): nat
  {
    hi as nat * 256 + lo as nat
  }

  /** The high byte of a 16-bit value (`shr 8`, truncated to a byte). */
  function Hi(v: word): byte
  {
    (v / 256) as byte
  }

  /** The low byte of a 16-bit value (truncation to a byte). */
  function Lo(v: word): byte
  {
    (v % 256) as byte
  }

  /** A big-endian word splits back into its two bytes. */
  lemma WordBytes(hi: byte, lo: byte)
    ensures Word(hi, lo) < 0x10000
    ensures Hi(ToShort(Word(hi, lo))) == hi && Lo(ToShort(Word(hi, lo))) == lo
  {
    var w := Word(hi, lo);
    assert w % 0x10000 == w;
    assert w / 256 == hi as int;
  }

  /** The high and low bytes of a 16-bit value read back as the value. */
  lemma HiLo(v: word)
    ensures Word(Hi(v), Lo(v)) == v as nat
  {
  }

  /** Kotlin's Int.toShort() on a non-negative value: its low 16 bits. */
  function ToShort(v: nat): word
  {
    (v % 0x10000) as word
  }

  /** The sum of `s` read as big-endian 16-bit words, an odd trailing byte being the high byte of a last word. */
  function WordSum(s: seq<byte>): nat
    decreases |s|
  {
    if |s| == 0 then 0
    else if |s| == 1 then Word(s[0], 0)
    else Word(s[0], s[1]) + WordSum(s[2..])
  }

  lemma {:induction false} WordSumConcat(a: seq<byte>, b: seq<byte>)
    requires |a| % 2 == 0
    ensures WordSum(a + b) == WordSum(a) + WordSum(b)
    decreases |a|
  {
    if |a| == 0 {
      assert a + b == b;
    } else {
      assert (a + b)[2..] == a[2..] + b;
      WordSumConcat(a[2..], b);
    }
  }

  /** One carry-fold step shrinks a value above 0xFFFF and keeps it modulo 0xFFFF. */
  lemma FoldStep(x: nat)
    requires x > 0xFFFF
    ensures x % 0x10000 + x / 0x10000 < x
    ensures (x % 0x10000 + x / 0x10000) % 0xFFFF == x % 0xFFFF
  {
    var q, r := x / 0x10000, x % 0x10000;
    assert x == 0xFFFF * q + (q + r);
  }

  /**
   * The end-around-carry fold: the result fits 16 bits, is congruent to `x`
   * modulo 0xFFFF (one's-complement arithmetic), and is zero only for zero.
   */
  function Fold(x: nat): (r: nat)
    ensures r <= 0xFFFF
    ensures r % 0xFFFF == x % 0xFFFF
    ensures x > 0 ==> r > 0
    decreases x
  {
    if x <= 0xFFFF then x
    else
      FoldStep(x);
      Fold(x % 0x10000 + x / 0x10000)
  }

  /**
   * The Internet checksum of `s`: the 16-bit one's complement of the folded
   * word sum. Adding it to the word sum gives a multiple of 0xFFFF, i.e.
   * negative zero in one's-complement arithmetic.
   */
  function InternetChecksum(s: seq<byte>): (c: nat)
    ensures c <= 0xFFFF
    ensures (WordSum(s) + c) % 0xFFFF == 0
  {
    ComplementSum(WordSum(s), Fold(WordSum(s)));
    0xFFFF - Fold(WordSum(s))
  }

  /** A value plus the one's complement of anything congruent to it modulo 0xFFFF is a multiple of 0xFFFF. */
  lemma ComplementSum(x: nat, r: nat)
    requires r <= 0xFFFF && r % 0xFFFF == x % 0xFFFF
    ensures (x + (0xFFFF - r)) % 0xFFFF == 0
  {
    var k := x / 0xFFFF - r / 0xFFFF + 1;
    assert x + (0xFFFF - r) == 0xFFFF * k;
  }

  /**
   * calculateChecksum(data, len): two loops over Kotlin Ints, the first
   * adding big-endian words, the second folding the carries back in, then
   * the bitwise inverse truncated to a Short. `shl 8` is `* 256`; on the
   * non-negative sums met here `shr 16` is `/ 0x10000` and `and 0xFFFF` is
   * `% 0x10000`; once the sum fits 16 bits, the low 16 bits of its inverse
   * are `0xFFFF - sum`.
   */
  method CalculateChecksum(data: array<byte>, len: nat) returns (checksum: word)
    requires len <= data.Length
    ensures checksum as nat == InternetChecksum(data[..len])
  {
    var sum: nat := 0;
    var i := 0;
    while i < len - 1
      invariant 0 <= i <= len && i % 2 == 0
      invariant sum == WordSum(data[..len][..i])
    {
      var b1 := data[i] as nat;
      var b2 := data[i + 1] as nat;
      WordSumStep(data[..len], i);
      sum := sum + (b1 * 256 + b2);
      i := i + 2;
    }
    if i < len {
      WordSumLast(data[..len], i);
      sum := sum + data[i] as nat * 256;
    }
    assert data[..len][..len] == data[..len];
    sum := FoldCarries(sum);
    checksum := (0xFFFF - sum) as word;
  }

  /** The second loop of calculateChecksum: adds the carries above bit 16 back in until there are none. */
  method FoldCarries(total: nat) returns (sum: nat)
    ensures sum == Fold(total)
  {
    sum := total;
    while sum / 0x10000 > 0
      invariant Fold(sum) == Fold(total)
      decreases sum
    {
      FoldStep(sum);
      sum := sum % 0x10000 + sum / 0x10000;
    }
    FoldDone(sum);
  }

  /** The first loop of calculateChecksum adds one whole word. */
  lemma WordSumStep(s: seq<byte>, i: nat)
    requires i % 2 == 0 && i + 1 < |s|
    ensures WordSum(s[..i + 2]) == WordSum(s[..i]) + Word(s[i], s[i + 1])
  {
    WordSumConcat(s[..i], s[i..i + 2]);
    assert s[..i] + s[i..i + 2] == s[..i + 2];
  }

  /** An odd trailing byte is added as the high byte of a word. */
  lemma WordSumLast(s: seq<byte>, i: nat)
    requires i % 2 == 0 && i + 1 == |s|
    ensures WordSum(s) == WordSum(s[..i]) + s[i] as nat * 256
  {
    WordSumConcat(s[..i], [s[i]]);
    assert s[..i] + [s[i]] == s;
  }

  /** Folding stops once no carry is left: the value is then its own fold. */
  lemma FoldDone(x: nat)
    requires x / 0x10000 == 0
    ensures x <= 0xFFFF && Fold(x) == x
  {
  }

  /** Overwriting an aligned word changes the word sum by the difference of the words. */
  lemma {:induction false} WordSumReplace(h: seq<byte>, k: nat, x: byte, y: byte)
    requires k % 2 == 0 && k + 1 < |h|
    ensures WordSum(h[k := x][k + 1 := y]) + Word(h[k], h[k + 1]) == WordSum(h) + Word(x, y)
    decreases k
  {
    var h' := h[k := x][k + 1 := y];
    if k == 0 {
      assert h'[2..] == h[2..];
    } else {
      assert h'[2..] == h[2..][k - 2 := x][k - 1 := y];
      WordSumReplace(h[2..], k - 2, x, y);
    }
  }

  /**
   * The checksum round trip: once the checksum of a block whose checksum
   * field (an aligned word) is zero is stored in that field, the checksum
   * of the block is zero.
   */
  lemma ChecksumVerifies(h: seq<byte>, k: nat)
    requires k % 2 == 0 && k + 1 < |h| && h[k] == 0 && h[k + 1] == 0
    ensures var c := InternetChecksum(h) as word;
      InternetChecksum(h[k := Hi(c)][k + 1 := Lo(c)]) == 0
  {
    var c := InternetChecksum(h) as word;
    var h' := h[k := Hi(c)][k + 1 := Lo(c)];
    var s, s' := WordSum(h), WordSum(h');
    assert s' == s + c as nat by {
      WordSumReplace(h, k, Hi(c), Lo(c));
      HiLo(c);
    }
    assert s' > 0 by {
      if s == 0 {
        assert Fold(0) == 0;
      }
    }
    assert Fold(s') % 0xFFFF == 0;
    FullWord(Fold(s'));
  }

  /** The only positive multiple of 0xFFFF that fits 16 bits. */
  lemma FullWord(f: int)
    requires 0 < f <= 0xFFFF && f % 0xFFFF == 0
    ensures f == 0xFFFF
  {
  }

  /**
   * The part of java.nio.ByteBuffer the forge uses: a zero-filled backing
   * array in big-endian order and a position that relative puts advance.
   */
  class ByteBuffer {
    const hb: array<byte>
    var position: nat

    /** ByteBuffer.allocate(capacity). */
    constructor Allocate(capacity: nat)
      ensures fresh(hb) && hb.Length == capacity && position == 0
      ensures hb[..] == seq(capacity, _ => 0)
    {
      hb := new byte[capacity](_ => 0);
      position := 0;
    }

    /** put(b): writes one byte at the position and moves past it. */
    method Put(b: byte)
      requires position < hb.Length
      modifies this, hb
      ensures position == old(position) + 1
      ensures hb[..] == old(hb[..])[old(position) := b]
    {
      hb[position] := b;
      position := position + 1;
    }

    /** putShort(v): writes the two bytes of `v`, high byte first, and moves past them. */
    method PutShort(v: word)
      requires position + 2 <= hb.Length
      modifies this, hb
      ensures position == old(position) + 2
      ensures hb[..] == old(hb[..])[old(position) := Hi(v)][old(position) + 1 := Lo(v)]
    {
      hb[position] := Hi(v);
      hb[position + 1] := Lo(v);
      position := position + 2;
    }

    /** putShort(index, v): writes the two bytes of `v` at `index`; the position does not move. */
    method PutShortAt(index: nat, v: word)
      requires index + 2 <= hb.Length
      modifies hb
      ensures hb[..] == old(hb[..])[index := Hi(v)][index + 1 := Lo(v)]
    {
      hb[index] := Hi(v);
      hb[index + 1] := Lo(v);
    }

    /** put(src): copies `src` to the position, in order, and moves past it. */
    method PutBytes(src: seq<byte>)
      requires position + |src| <= hb.Length
      modifies this, hb
      ensures position == old(position) + |src|
      ensures hb[..] == old(hb[..])[..old(position)] + src + old(hb[..])[old(position) + |src|..]
    {
      var start := position;
      for i := 0 to |src|
        invariant position == start + i
        invariant hb[..] == old(hb[..])[..start] + src[..i] + old(hb[..])[start + i..]
      {
        hb[position] := src[i];
        position := position + 1;
        assert src[..i + 1] == src[..i] + [src[i]];
      }
      assert src[..|src|] == src;
    }
  }

  /** The virtual DNS server's address, 10.0.0.5. */
  const VirtualDns: seq<byte> := [10, 0, 0, 5]

  /** An IPv4 header without options from the virtual DNS server to `dst`, carrying UDP. */
  function IpHeader(totalLen: word, dst: seq<byte>, checksum: word): (h: seq<byte>)
    requires |dst| == 4
    ensures |h| == 20
  {
    [0x45, 0x00, Hi(totalLen), Lo(totalLen), 0x00, 0x00, 0x40, 0x00, 64, 17,
     Hi(checksum), Lo(checksum), 10, 0, 0, 5, dst[0], dst[1], dst[2], dst[3]]
  }

  /** A UDP header from port 53 to the port `dstPort` (two bytes), with no checksum. */
  function UdpHeader(dstPort: seq<byte>, udpLen: word): (h: seq<byte>)
    requires |dstPort| == 2
    ensures |h| == 8
  {
    [0, 53, dstPort[0], dstPort[1], Hi(udpLen), Lo(udpLen), 0, 0]
  }

  /** The checksum of a header with a zero checksum field. */
  function HeaderChecksum(totalLen: word, dst: seq<byte>): word
    requires |dst| == 4
  {
    InternetChecksum(IpHeader(totalLen, dst, 0)) as word
  }

  /** A header sealed with its own checksum sums to zero: a receiver accepts it. */
  lemma SealedHeaderVerifies(totalLen: word, dst: seq<byte>)
    requires |dst| == 4
    ensures InternetChecksum(IpHeader(totalLen, dst, HeaderChecksum(totalLen, dst))) == 0
  {
    var unsealed := IpHeader(totalLen, dst, 0);
    var c := HeaderChecksum(totalLen, dst);
    ChecksumVerifies(unsealed, 10);
    assert IpHeader(totalLen, dst, c) == unsealed[10 := Hi(c)][11 := Lo(c)];
  }

  /**
   * The reply createFakeDnsResponse forges. The request is assumed to carry
   * a 20-byte IP header: its source address is bytes 12-15 and its source
   * port bytes 20-21. The header's total length, the UDP length and the
   * checksum are computed from the reply's own length, never copied.
   */
  function ForgedReply(request: seq<byte>, response: seq<byte>): (packet: seq<byte>)
    requires |request| >= 22
    ensures |packet| == 28 + |response|
    ensures packet[28..] == response
  {
    var totalLen := ToShort(28 + |response|);
    var dst := request[12..16];
    IpHeader(totalLen, dst, HeaderChecksum(totalLen, dst))
      + UdpHeader(request[20..22], ToShort(8 + |response|)) + response
  }

  /** The reply's IP header: fixed fields, its own length, and the addresses swapped. */
  lemma ForgedIpHeader(request: seq<byte>, response: seq<byte>)
    requires |request| >= 22
    ensures var p := ForgedReply(request, response);
      && p[0] == 0x45 && p[1] == 0
      && Word(p[2], p[3]) == (28 + |response|) % 0x10000
      && Word(p[4], p[5]) == 0 && Word(p[6], p[7]) == 0x4000
      && p[8] == 64 && p[9] == 17
  {
    var totalLen := ToShort(28 + |response|);
    var dst := request[12..16];
    var rest := UdpHeader(request[20..22], ToShort(8 + |response|)) + response;
    assert ForgedReply(request, response) == IpHeader(totalLen, dst, HeaderChecksum(totalLen, dst)) + rest;
    HeaderFields(totalLen, dst, HeaderChecksum(totalLen, dst), rest);
  }

  /** The reply comes from the virtual DNS server and goes back to the asking address. */
  lemma ForgedAddresses(request: seq<byte>, response: seq<byte>)
    requires |request| >= 22
    ensures var p := ForgedReply(request, response);
      p[12..16] == VirtualDns && p[16..20] == request[12..16]
  {
    var totalLen := ToShort(28 + |response|);
    var dst := request[12..16];
    var rest := UdpHeader(request[20..22], ToShort(8 + |response|)) + response;
    assert ForgedReply(request, response) == IpHeader(totalLen, dst, HeaderChecksum(totalLen, dst)) + rest;
    HeaderFields(totalLen, dst, HeaderChecksum(totalLen, dst), rest);
  }

  /** Where each field of an IP header built by IpHeader sits. */
  lemma HeaderFields(totalLen: word, dst: seq<byte>, checksum: word, rest: seq<byte>)
    requires |dst| == 4
    ensures var p := IpHeader(totalLen, dst, checksum) + rest;
      && p[0] == 0x45 && p[1] == 0
      && Word(p[2], p[3]) == totalLen as nat
      && Word(p[4], p[5]) == 0 && Word(p[6], p[7]) == 0x4000
      && p[8] == 64 && p[9] == 17
      && p[12..16] == VirtualDns && p[16..20] == dst
  {
    HiLo(totalLen);
  }

  /**
   * The reply's header checksum is the checksum of its header with the
   * checksum field zeroed, and the sealed header verifies.
   */
  lemma ForgedIpChecksum(request: seq<byte>, response: seq<byte>)
    requires |request| >= 22
    ensures var p := ForgedReply(request, response);
      && Word(p[10], p[11]) == InternetChecksum(p[..10] + [0, 0] + p[12..20])
      && InternetChecksum(p[..20]) == 0
  {
    var p := ForgedReply(request, response);
    var totalLen := ToShort(28 + |response|);
    var dst := request[12..16];
    var c := HeaderChecksum(totalLen, dst);
    var h := IpHeader(totalLen, dst, c);
    assert p[..20] == h;
    assert p[..10] + [0, 0] + p[12..20] == IpHeader(totalLen, dst, 0);
    SealedHeaderVerifies(totalLen, dst);
    HiLo(c);
  }

  /** The reply's UDP header: from port 53 back to the asking port, its own length, no checksum. */
  lemma ForgedUdpHeader(request: seq<byte>, response: seq<byte>)
    requires |request| >= 22
    ensures var p := ForgedReply(request, response);
      && Word(p[20], p[21]) == 53 && p[22..24] == request[20..22]
      && Word(p[24], p[25]) == (8 + |response|) % 0x10000
      && Word(p[26], p[27]) == 0
  {
    var p := ForgedReply(request, response);
    var udpLen := ToShort(8 + |response|);
    assert p[20..28] == UdpHeader(request[20..22], udpLen);
    HiLo(udpLen);
  }

  /**
   * The first fourteen puts of createFakeDnsResponse: the IP header with a
   * zero checksum field, written from the start of the buffer.
   */
  method PutUnsealedHeader(buffer: ByteBuffer, totalLen: word, dst: seq<byte>)
    requires |dst| == 4 && buffer.position == 0 && buffer.hb.Length >= 20
    modifies buffer, buffer.hb
    ensures buffer.position == 20
    ensures buffer.hb[..] == IpHeader(totalLen, dst, 0) + old(buffer.hb[..])[20..]
  {
    PutFixedFields(buffer, totalLen);
    PutAddresses(buffer, dst);
    HeaderPutsLayout(old(buffer.hb[..]), totalLen, dst);
  }

  /** The puts of the version, lengths, flags, TTL, protocol and a zero checksum, from the start of the buffer. */
  method PutFixedFields(buffer: ByteBuffer, totalLen: word)
    requires buffer.position == 0 && buffer.hb.Length >= 20
    modifies buffer, buffer.hb
    ensures buffer.position == 12
    ensures buffer.hb[..] == FixedPuts(old(buffer.hb[..]), totalLen)
  {
    // `image` is the buffer's content after each put.
    ghost var image := buffer.hb[..];
    buffer.Put(0x45);
    image := image[0 := 0x45];
    assert buffer.hb[..] == image;
    buffer.Put(0x00);
    image := image[1 := 0x00];
    assert buffer.hb[..] == image;
    buffer.PutShort(totalLen);
    image := image[2 := Hi(totalLen)][3 := Lo(totalLen)];
    assert buffer.hb[..] == image;
    buffer.PutShort(0);
    image := image[4 := Hi(0)][5 := Lo(0)];
    assert buffer.hb[..] == image;
    buffer.PutShort(0x4000);
    image := image[6 := Hi(0x4000)][7 := Lo(0x4000)];
    assert buffer.hb[..] == image;
    buffer.Put(64);
    image := image[8 := 64];
    assert buffer.hb[..] == image;
    buffer.Put(17);
    image := image[9 := 17];
    assert buffer.hb[..] == image;
    buffer.PutShort(0);
    image := image[10 := Hi(0)][11 := Lo(0)];
  }

  /** The puts of the source address 10.0.0.5 and the destination address `dst`. */
  method PutAddresses(buffer: ByteBuffer, dst: seq<byte>)
    requires |dst| == 4 && buffer.position == 12 && buffer.hb.Length >= 20
    modifies buffer, buffer.hb
    ensures buffer.position == 20
    ensures buffer.hb[..] == AddressPuts(old(buffer.hb[..]), dst)
  {
    ghost var image := buffer.hb[..];
    buffer.PutBytes([10, 0, 0, 5]);
    image := image[..12] + [10, 0, 0, 5] + image[16..];
    assert buffer.hb[..] == image;
    buffer.Put(dst[0]);
    image := image[16 := dst[0]];
    assert buffer.hb[..] == image;
    buffer.Put(dst[1]);
    image := image[17 := dst[1]];
    assert buffer.hb[..] == image;
    buffer.Put(dst[2]);
    image := image[18 := dst[2]];
    assert buffer.hb[..] == image;
    buffer.Put(dst[3]);
    image := image[19 := dst[3]];
  }

  /** The content the puts of PutFixedFields leave in a buffer that held `base`. */
  ghost function FixedPuts(base: seq<byte>, totalLen: word): (s: seq<byte>)
    requires |base| >= 20
    ensures |s| == |base|
  {
    base[0 := 0x45][1 := 0x00][2 := Hi(totalLen)][3 := Lo(totalLen)][4 := Hi(0)][5 := Lo(0)]
      [6 := Hi(0x4000)][7 := Lo(0x4000)][8 := 64][9 := 17][10 := Hi(0)][11 := Lo(0)]
  }

  /** The content the puts of PutAddresses leave in a buffer that held `base`. */
  ghost function AddressPuts(base: seq<byte>, dst: seq<byte>): (s: seq<byte>)
    requires |base| >= 20 && |dst| == 4
    ensures |s| == |base|
  {
    (base[..12] + [10, 0, 0, 5] + base[16..])[16 := dst[0]][17 := dst[1]][18 := dst[2]][19 := dst[3]]
  }

  /** The content the puts of PutUnsealedHeader leave in a buffer that held `base`. */
  ghost function HeaderPuts(base: seq<byte>, totalLen: word, dst: seq<byte>): seq<byte>
    requires |base| >= 20 && |dst| == 4
  {
    AddressPuts(FixedPuts(base, totalLen), dst)
  }

  lemma HeaderPutsLayout(base: seq<byte>, totalLen: word, dst: seq<byte>)
    requires |base| >= 20 && |dst| == 4
    ensures HeaderPuts(base, totalLen, dst) == IpHeader(totalLen, dst, 0) + base[20..]
  {
    var h := HeaderPuts(base, totalLen, dst);
    var r := IpHeader(totalLen, dst, 0) + base[20..];
    assert |h| == |r|;
    forall i | 0 <= i < |h|
      ensures h[i] == r[i]
    {
      if i >= 20 {
        assert h[i] == base[i];
      }
    }
  }

  /**
   * The four putShort calls after the checksum: the UDP header from port 53
   * to `dstPort`, written right after the IP header.
   */
  method PutUdpHeader(buffer: ByteBuffer, dstPort: word, udpLen: word)
    requires buffer.position == 20 && buffer.hb.Length >= 28
    modifies buffer, buffer.hb
    ensures buffer.position == 28
    ensures buffer.hb[..] == old(buffer.hb[..])[..20]
      + [0, 53, Hi(dstPort), Lo(dstPort), Hi(udpLen), Lo(udpLen), 0, 0] + old(buffer.hb[..])[28..]
  {
    ghost var image := buffer.hb[..];
    buffer.PutShort(53);
    image := image[20 := Hi(53)][21 := Lo(53)];
    assert buffer.hb[..] == image;
    buffer.PutShort(dstPort);
    image := image[22 := Hi(dstPort)][23 := Lo(dstPort)];
    assert buffer.hb[..] == image;
    buffer.PutShort(udpLen);
    image := image[24 := Hi(udpLen)][25 := Lo(udpLen)];
    assert buffer.hb[..] == image;
    buffer.PutShort(0);
    image := image[26 := Hi(0)][27 := Lo(0)];
    assert buffer.hb[..] == image;
  }

  /**
   * createFakeDnsResponse: fills a buffer of exactly 28 + N bytes by relative
   * puts, computes the checksum over the first 20 bytes while the checksum
   * field is still zero, and stores it at offset 10 with an absolute put.
   */
  method CreateFakeDnsResponse(request: seq<byte>, responseData: seq<byte>) returns (packet: seq<byte>)
    requires |request| >= 22
    ensures packet == ForgedReply(request, responseData)
  {
    var totalLen := 20 + 8 + |responseData|;
    var buffer := new ByteBuffer.Allocate(totalLen);
    ghost var t, dst := ToShort(totalLen), request[12..16];
    PutUnsealedHeader(buffer, ToShort(totalLen), request[12..16]);
    ghost var zeros := buffer.hb[20..];

    var ipChecksum := CalculateChecksum(buffer.hb, 20);
    assert buffer.hb[..20] == IpHeader(t, dst, 0);
    buffer.PutShortAt(10, ipChecksum);
    assert buffer.hb[..] == IpHeader(t, dst, ipChecksum) + zeros;

    var dstPort := Word(request[20], request[21]);
    var udpLen := 8 + |responseData|;
    PutUdpHeader(buffer, ToShort(dstPort), ToShort(udpLen));
    buffer.PutBytes(responseData);
    packet := buffer.hb[..];
    WordBytes(request[20], request[21]);
    assert packet == IpHeader(t, dst, ipChecksum) + UdpHeader(request[20..22], ToShort(udpLen)) + responseData;
  }

  /** The event sendLogToUI broadcasts: the domain seen and whether the blocklist holds it. */
  datatype TrafficEvent = TrafficEvent(domain: string, isTracker: bool)

  /**
   * What processOutgoingPacket does with a packet read from the tunnel: the
   * event it broadcasts, the DNS payload it forwards when the socket is
   * available, and the forged reply it writes back into the tunnel.
   */
  datatype Handling = Handling(event: Option<TrafficEvent>, query: seq<byte>, reply: Option<seq<byte>>)

  /** The size of the receive buffer: a longer datagram is cut to this length. */
  const ReceiveBufferSize: nat := 4096

  /** The domain the service logs for a packet: the native name as a Java string, or "" for null. */
  function LoggedDomain(packet: seq<byte>): string
  {
    match NativeLib.NativeGetDomain(packet)
    case None => ""
    case Some(name) => NativeLib.JavaString(name)
  }

  /**
   * processOutgoingPacket, with the upstream exchange as a parameter:
   * `answer` is the datagram the resolver sent back, or None when none came
   * (socket not protected, timeout, or a network error).
   */
  function ProcessOutgoingPacket(packet: seq<byte>, blocklist: Blocklist.BlocklistManager,
                                 answer: Option<seq<byte>>): (h: Option<Handling>)
    reads blocklist
    ensures h.None? <==> |packet| <= 28
    ensures h.Some? ==> |h.value.query| + 28 == |packet| && packet == packet[..28] + h.value.query
    ensures h.Some? ==> (h.value.event.Some? <==> LoggedDomain(packet) != "")
    ensures h.Some? && h.value.event.Some? ==>
      h.value.event.value.domain == LoggedDomain(packet)
      && (h.value.event.value.isTracker <==> h.value.event.value.domain in blocklist.blockedDomains)
    ensures h.Some? ==> (h.value.reply.Some? <==> answer.Some? && |answer.value| > 0)
  {
    if |packet| <= 28 then None
    else
      var domain := LoggedDomain(packet);
      var event := if domain != "" then Some(TrafficEvent(domain, blocklist.IsTracker(domain))) else None;
      var reply :=
        if answer.Some? && |answer.value| > 0
        then Some(ForgedReply(packet, answer.value[..DnsUtils.Min(|answer.value|, ReceiveBufferSize)]))
        else None;
      Some(Handling(event, packet[28..], reply))
  }

  /**
   * A reply written back carries the resolver's answer (cut to the receive
   * buffer) after the 28 header bytes, goes back to the address and port
   * the query came from, and has a header checksum that verifies.
   */
  lemma WrittenReply(packet: seq<byte>, blocklist: Blocklist.BlocklistManager, answer: Option<seq<byte>>)
    requires |packet| > 28 && answer.Some? && |answer.value| > 0
    ensures var h := ProcessOutgoingPacket(packet, blocklist, answer);
      && h.Some? && h.value.reply.Some?
      && var r := h.value.reply.value;
      && |r| == 28 + DnsUtils.Min(|answer.value|, ReceiveBufferSize)
      && r[28..] == answer.value[..DnsUtils.Min(|answer.value|, ReceiveBufferSize)]
      && r[16..20] == packet[12..16] && r[22..24] == packet[20..22]
      && InternetChecksum(r[..20]) == 0
  {
    var cut := answer.value[..DnsUtils.Min(|answer.value|, ReceiveBufferSize)];
    var r := ForgedReply(packet, cut);
    assert ProcessOutgoingPacket(packet, blocklist, answer).value.reply == Some(r);
    ForgedAddresses(packet, cut);
    ForgedIpChecksum(packet, cut);
    assert r[28..] == cut;
    assert r[22..24] == packet[20..22] by {
      ForgedUdpHeader(packet, cut);
    }
  }

  /**
   * The service logs names from UDP traffic to any port of the virtual DNS
   * address: a query for "a" sent to 10.0.0.5 port 5353 yields a domain from the native
   * extractor the service calls, while the Kotlin extractor, which checks
   * for port 53, yields none.
   */
  lemma AnyPortIsLogged()
    ensures var p: seq<byte> :=
      [0x45, 0, 0, 43, 0, 0, 0, 0, 64, 17, 0, 0, 10, 0, 0, 2, 10, 0, 0, 5]     // IPv4, UDP to 10.0.0.5
      + [0x9C, 0x40, 0x14, 0xE9, 0, 23, 0, 0]                                  // port 40000 to 5353
      + [0, 0, 0, 0, 0, 0, 0, 0, 0, 0, 0, 0]                                   // DNS header
      + [1, 0x61, 0];                                                          // question name "a"
      LoggedDomain(p) == "a" && DnsUtils.GetDomainFromPacket(p) == None
  {
    var p: seq<byte> :=
      [0x45, 0, 0, 43, 0, 0, 0, 0, 64, 17, 0, 0, 10, 0, 0, 2, 10, 0, 0, 5]
      + [0x9C, 0x40, 0x14, 0xE9, 0, 23, 0, 0]
      + [0, 0, 0, 0, 0, 0, 0, 0, 0, 0, 0, 0]
      + [1, 0x61, 0];
    assert NativeLib.QuestionStart(p) == 40;
    assert NativeLib.WalkFrom(p, 42, 1) == NativeLib.Walk([], NativeLib.ZeroByte);
    assert p[41..42] == [0x61];
    assert NativeLib.WalkFrom(p, 40, 0) == NativeLib.Walk([[0x61]], NativeLib.ZeroByte);
    assert NativeLib.QName(p, 40) == [0x61];
    assert DnsUtils.UdpDestPort(p, 20) == 5353;
  }
}
