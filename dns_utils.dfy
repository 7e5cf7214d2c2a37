/**
 * The Kotlin question-name extractor (DnsUtils.kt). It checks the UDP
 * destination port, reads at most 100 labels, treats every length byte as a
 * plain length (no compression pointers) and skips label bytes that lie past
 * the end of the packet instead of failing. Any index fault is caught and
 * turned into null, so the whole extractor is total.
 */
module DnsUtils {
  import opened Wrappers
  import Labels

  /** Kotlin's Byte.toChar(): the byte is sign-extended, so 0x80..0xFF become U+FF80..U+FFFF. */
  function ByteToChar(b: byte): (c: char)
    ensures b < 0x80 ==> c as int == b as int
    ensures b >= 0x80 ==> c as int == 0xFF00 + b as int
  {
    if b < 0x80 then b as int as char else (0xFF00 + b as int) as char
  }

  function Chars(bytes: seq<byte>): (s: string)
    ensures |s| == |bytes| && forall i :: 0 <= i < |bytes| ==> s[i] == ByteToChar(bytes[i])
  {
    seq(|bytes|, i requires 0 <= i < |bytes| => ByteToChar(bytes[i]))
  }

  lemma CharsSnoc(bytes: seq<byte>, b: byte)
    ensures Chars(bytes + [b]) == Chars(bytes) + [ByteToChar(b)]
  {
  }

  function Min(a: int, b: int): int { if a < b then a else b }

  /** The text of the label whose length byte is at `pos`: those of its bytes that exist. */
  function LabelText(data: seq<byte>, pos: nat): string
    requires pos < |data|
  {
    Chars(data[pos + 1 .. Min(pos + 1 + data[pos] as int, |data|)])
  }

  /** The characters copied from the label at `pos` after `i - 1` turns of the inner loop. */
  function Copied(data: seq<byte>, pos: nat, i: nat): string
    requires pos < |data| && i >= 1
  {
    Chars(data[pos + 1 .. Min(pos + i, |data|)])
  }

  /** One more turn of the inner loop copies the next byte, if it lies inside the packet. */
  lemma CopiedStep(data: seq<byte>, pos: nat, i: nat)
    requires pos < |data| && i >= 1
    ensures Copied(data, pos, i + 1)
      == Copied(data, pos, i) + (if pos + i < |data| then [ByteToChar(data[pos + i])] else [])
  {
    if pos + i < |data| {
      assert data[pos + 1 .. pos + i + 1] == data[pos + 1 .. pos + i] + [data[pos + i]];
      CharsSnoc(data[pos + 1 .. pos + i], data[pos + i]);
    }
  }

  /** The labels parseDnsName reads from `pos` once `jumps` labels have been read. */
  function NameLabels(data: seq<byte>, pos: nat, jumps: nat): seq<string>
    decreases |data| - pos
  {
    if pos >= |data| || jumps >= 100 || data[pos] == 0 then []
    else [LabelText(data, pos)] + NameLabels(data, pos + data[pos] as int + 1, jumps + 1)
  }

  /** What parseDnsName returns. */
  function DnsName(data: seq<byte>, offset: nat): string
  {
    Labels.Join(NameLabels(data, offset, 0), '.')
  }

  /**
   * At most 100 labels are read, and every label but the last has at least
   * one character, so "the builder is non-empty" and "a label was already
   * read" agree wherever the loop tests the former.
   */
  lemma {:induction false} NameLabelsShape(data: seq<byte>, pos: nat, jumps: nat)
    requires jumps <= 100
    ensures var ls := NameLabels(data, pos, jumps);
      && |ls| <= 100 - jumps
      && (forall k :: 0 <= k < |ls| - 1 ==> |ls[k]| > 0)
    decreases |data| - pos
  {
    if pos < |data| && jumps < 100 && data[pos] != 0 {
      var next := pos + data[pos] as int + 1;
      NameLabelsShape(data, next, jumps + 1);
      var rest := NameLabels(data, next, jumps + 1);
      assert NameLabels(data, pos, jumps) == [LabelText(data, pos)] + rest;
      if |rest| > 0 {
        assert next < |data|;
        assert |LabelText(data, pos)| > 0;
      }
    }
  }

  /**
   * What parseDnsName returns is what its loop writes: the labels appended
   * to an empty builder one at a time, with a '.' before each label that
   * finds the builder non-empty.
   */
  lemma DnsNameWritten(data: seq<byte>, offset: nat)
    ensures DnsName(data, offset) == Labels.JoinOnto([], NameLabels(data, offset, 0), '.')
  {
    NameLabelsShape(data, offset, 0);
    Labels.JoinOntoJoin([], NameLabels(data, offset, 0), '.');
    assert [] + NameLabels(data, offset, 0) == NameLabels(data, offset, 0);
  }

  /**
   * The inner `for` loop of parseDnsName: appends to the builder each byte
   * of the label at `pos` that lies inside the packet, as a character.
   */
  method AppendLabel(data: seq<byte>, pos: nat, sb: string) returns (sb': string)
    requires pos < |data|
    ensures sb' == sb + LabelText(data, pos)
  {
    sb' := sb;
    var len := data[pos] as int;
    assert Copied(data, pos, 1) == [];
    for i := 1 to len + 1
      invariant sb' == sb + Copied(data, pos, i)
    {
      CopiedStep(data, pos, i);
      if pos + i < |data| {
        sb' := sb' + [ByteToChar(data[pos + i])];
      }
    }
  }

  /**
   * The model of parseDnsName: a while loop over `pos` and `jumps` that
   * appends to a string builder, writing a '.' before a label whenever the
   * builder is already non-empty, and copying only the label bytes that lie
   * inside the packet.
   */
  method ParseDnsName(data: seq<byte>, offset: nat) returns (sb: string)
    ensures sb == DnsName(data, offset)
  {
    sb := [];
    var pos := offset;
    var jumps := 0;
    while pos < |data| && jumps < 100
      invariant Labels.JoinOnto(sb, NameLabels(data, pos, jumps), '.')
        == Labels.JoinOnto([], NameLabels(data, offset, 0), '.')
      decreases |data| - pos
    {
      var len := data[pos] as int;
      if len == 0 {
        break;
      }
      if |sb| > 0 {
        sb := sb + ".";
      }
      sb := AppendLabel(data, pos, sb);
      pos := pos + len + 1;
      jumps := jumps + 1;
    }
    DnsNameWritten(data, offset);
  }

  /** The destination port: the big-endian 16-bit value two bytes into the UDP header. */
  function UdpDestPort(packet: seq<byte>, ipHeaderLen: nat): nat
    requires ipHeaderLen + 3 < |packet|
  {
    packet[ipHeaderLen + 2] as nat * 256 + packet[ipHeaderLen + 3] as nat
  }

  /** The IP header length in bytes: the low nibble of byte 0 times four (it may be 0). */
  function IpHeaderLen(packet: seq<byte>): nat
    requires |packet| > 0
  {
    (packet[0] % 16) as nat * 4
  }

  /**
   * getDomainFromPacket. Reading byte 9 or the port bytes past the end of
   * the packet throws in the source and the exception handler returns null;
   * here those reads are guarded and give None.
   */
  function GetDomainFromPacket(packet: seq<byte>): (domain: Option<string>)
    ensures domain.Some? <==>
      && |packet| > 9 && packet[9] == 17
      && IpHeaderLen(packet) + 20 < |packet|
      && UdpDestPort(packet, IpHeaderLen(packet)) == 53
    ensures domain.Some? ==> domain.value == DnsName(packet, IpHeaderLen(packet) + 20)
  {
    if |packet| == 0 then None
    else
      var ipHeaderLen := IpHeaderLen(packet);
      if |packet| <= 9 then None
      else if packet[9] != 17 then None
      else if ipHeaderLen + 3 >= |packet| then None
      else if UdpDestPort(packet, ipHeaderLen) != 53 then None
      else
        var questionStart := ipHeaderLen + 8 + 12;
        if questionStart >= |packet| then None
        else Some(DnsName(packet, questionStart))
  }

  /**
   * Label count and dots: the name read is the labels joined by '.', one
   * label per non-zero length byte consumed, and when no label contains a
   * '.' of its own the name holds exactly one '.' fewer than labels and
   * splits back into them.
   */
  lemma DnsNameLabels(data: seq<byte>, offset: nat)
    requires |NameLabels(data, offset, 0)| >= 1
    requires Labels.SeparatorFree(NameLabels(data, offset, 0), '.')
    ensures multiset(DnsName(data, offset))['.'] == |NameLabels(data, offset, 0)| - 1
    ensures Labels.Split(DnsName(data, offset), '.') == NameLabels(data, offset, 0)
  {
    Labels.JoinSeparatorCount(NameLabels(data, offset, 0), '.');
    Labels.SplitJoin(NameLabels(data, offset, 0), '.');
  }
}
