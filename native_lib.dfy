/**
 * The native question-name extractor (app/src/main/cpp/native-lib.cpp):
 * parse_dns_qname walks length-prefixed labels (RFC 1035, sections 3.1 and
 * 4.1.2) and nativeGetDomain checks the IPv4 header before calling it.
 * The JNI array access is replaced by a byte sequence; the name is built as
 * the bytes of a std::string.
 */
module NativeLib {
  import opened Wrappers
  import Labels

  /** The '.' written between labels. */
  const Dot: byte := 0x2E

  /** Why the label walk ended. */
  datatype Stop =
    | ZeroByte       // a zero length byte: the end of the name
    | EndOfBuffer    // the walk reached the end of the packet
    | Pointer        // a length byte with its top two bits set (RFC 1035, section 4.1.4)
    | Overrun        // a label's declared length runs past the end of the packet
    | TooManyLabels  // a 130th label was about to be read

  /** The labels read, in order, and why the walk ended. */
  datatype Walk = Walk(labels: seq<seq<byte>>, stop: Stop)

  /** `(labelLen & 0xC0) == 0xC0`: both top bits set, which for a byte means at least 0xC0. */
  predicate IsPointer(b: byte) { b >= 0xC0 }

  /**
   * The walk of parse_dns_qname starting at `pos` with `count` labels
   * already accepted. The check on the label count precedes the pointer
   * check, as in the source.
   */
  function WalkFrom(buf: seq<byte>, pos: nat, count: nat): Walk
    decreases |buf| - pos
  {
    if pos >= |buf| then Walk([], EndOfBuffer)
    else if buf[pos] == 0 then Walk([], ZeroByte)
    else if count > 128 then Walk([], TooManyLabels)
    else if IsPointer(buf[pos]) then Walk([], Pointer)
    else if pos + 1 + buf[pos] as int > |buf| then Walk([], Overrun)
    else
      var next := WalkFrom(buf, pos + 1 + buf[pos] as int, count + 1);
      Walk([buf[pos + 1 .. pos + 1 + buf[pos] as int]] + next.labels, next.stop)
  }

  /** What parse_dns_qname returns: the joined labels, or "" when a label overruns or there are too many. */
  function QName(buf: seq<byte>, offset: nat): seq<byte>
  {
    var w := WalkFrom(buf, offset, 0);
    if w.stop == Overrun || w.stop == TooManyLabels then [] else Labels.Join(w.labels, Dot)
  }

  /** Every label is non-empty and shorter than 0xC0 bytes; at most 129 labels are accepted in all. */
  lemma {:induction false} WalkShape(buf: seq<byte>, pos: nat, count: nat)
    requires count <= 129
    ensures var w := WalkFrom(buf, pos, count);
      && |w.labels| <= 129 - count
      && Labels.NonEmptyParts(w.labels)
      && (forall k :: 0 <= k < |w.labels| ==> |w.labels[k]| < 0xC0)
      && (w.stop == TooManyLabels ==> |w.labels| == 129 - count)
    decreases |buf| - pos
  {
    if pos < |buf| && buf[pos] != 0 && count <= 128 && !IsPointer(buf[pos]) && pos + 1 + buf[pos] as int <= |buf| {
      WalkShape(buf, pos + 1 + buf[pos] as int, count + 1);
    }
  }

  /**
   * What parse_dns_qname returns when its loop meets the walk `w` with
   * `name` already written: "" if the walk ends in an overrun or too many
   * labels, and otherwise the walk's labels appended to `name`, each after
   * a '.' when `name` is non-empty by then.
   */
  function Written(name: seq<byte>, w: Walk): seq<byte>
  {
    if w.stop == Overrun || w.stop == TooManyLabels then [] else Labels.JoinOnto(name, w.labels, Dot)
  }

  /** From an empty name the loop writes exactly QName. */
  lemma QNameWritten(buf: seq<byte>, offset: nat)
    ensures Written([], WalkFrom(buf, offset, 0)) == QName(buf, offset)
  {
    var w := WalkFrom(buf, offset, 0);
    WalkShape(buf, offset, 0);
    Labels.JoinOntoJoin([], w.labels, Dot);
    assert [] + w.labels == w.labels;
  }

  /**
   * The inner `for` loop of parse_dns_qname: copies the `buffer[start]`
   * bytes after the length byte onto `name`, one at a time; it fails
   * (`ok` false, and the caller returns "") as soon as it would read past
   * the end of the buffer.
   */
  method CopyLabel(buffer: seq<byte>, start: nat, name: seq<byte>) returns (name': seq<byte>, pos: nat, ok: bool)
    requires start < |buffer|
    ensures ok <==> start + 1 + buffer[start] as int <= |buffer|
    ensures ok ==> pos == start + 1 + buffer[start] as int && name' == name + buffer[start + 1 .. pos]
  {
    var labelLen := buffer[start] as int;
    name' := name;
    pos := start + 1;
    for i := 0 to labelLen
      invariant pos == start + 1 + i <= |buffer|
      invariant name' == name + buffer[start + 1 .. pos]
    {
      if pos >= |buffer| {
        return name', pos, false;
      }
      name' := name' + [buffer[pos]];
      pos := pos + 1;
    }
    ok := true;
  }

  /**
   * The model of parse_dns_qname: `pos` moves forward through the buffer,
   * `jumps` counts the labels begun, and `name` grows label by label.
   */
  method ParseDnsQname(buffer: seq<byte>, offset: nat) returns (name: seq<byte>)
    ensures name == QName(buffer, offset)
  {
    QNameWritten(buffer, offset);
    name := [];
    var pos := offset;
    var jumps := 0;
    while pos < |buffer| && buffer[pos] != 0
      invariant Written(name, WalkFrom(buffer, pos, jumps)) == QName(buffer, offset)
      decreases |buffer| - pos
    {
      if jumps > 128 {
        return [];
      }
      jumps := jumps + 1;
      var labelLen := buffer[pos];
      if IsPointer(labelLen) {
        return name;
      }
      if |name| > 0 {
        name := name + [Dot];
      }
      var ok;
      name, pos, ok := CopyLabel(buffer, pos, name);
      if !ok {
        return [];
      }
    }
  }

  /**
   * A name that parsed: it starts with the first label and ends with the
   * last, so no '.' is added at either end, and when no label holds a '.'
   * byte of its own it has one '.' fewer than labels and splits back into
   * them.
   */
  lemma QNameLabels(buf: seq<byte>, offset: nat)
    requires var w := WalkFrom(buf, offset, 0);
      w.stop != Overrun && w.stop != TooManyLabels && |w.labels| >= 1
    ensures var ls := WalkFrom(buf, offset, 0).labels; var q := QName(buf, offset);
      && |ls[0]| <= |q| && |ls[|ls| - 1]| <= |q|
      && q[..|ls[0]|] == ls[0] && q[|q| - |ls[|ls| - 1]|..] == ls[|ls| - 1]
      && (Labels.SeparatorFree(ls, Dot) ==>
            multiset(q)[Dot] == |ls| - 1 && Labels.Split(q, Dot) == ls)
  {
    var ls := WalkFrom(buf, offset, 0).labels;
    Labels.JoinEnds(ls, Dot);
    if Labels.SeparatorFree(ls, Dot) {
      Labels.JoinSeparatorCount(ls, Dot);
      Labels.SplitJoin(ls, Dot);
    }
  }

  /** The IP version: the high nibble of byte 0 (the iphdr bit-field on a little-endian target). */
  function Version(packet: seq<byte>): byte
    requires |packet| > 0
  {
    packet[0] / 16
  }

  /** Where the question name begins: past the IP header (IHL words), the UDP header and the DNS header. */
  function QuestionStart(packet: seq<byte>): nat
    requires |packet| > 0
  {
    (packet[0] % 16) as nat * 4 + 8 + 12
  }

  /** The header checks nativeGetDomain makes before parsing; the UDP ports are never looked at. */
  predicate Parseable(packet: seq<byte>)
  {
    |packet| > 40 && Version(packet) == 4 && packet[9] == 17 && QuestionStart(packet) < |packet|
  }

  /**
   * nativeGetDomain, with the result of the JNI string conversion left as
   * the bytes of the std::string: a name only for a parseable packet whose
   * question name parses to something non-empty, and NULL otherwise.
   */
  function NativeGetDomain(packet: seq<byte>): (domain: Option<seq<byte>>)
    ensures domain.Some? <==> Parseable(packet) && QName(packet, QuestionStart(packet)) != []
    ensures domain.Some? ==> domain.value == QName(packet, QuestionStart(packet)) && |domain.value| > 0
  {
    var name :=
      if |packet| > 40 && Version(packet) == 4 && packet[9] == 17 && QuestionStart(packet) < |packet|
      then QName(packet, QuestionStart(packet))
      else [];
    if name == [] then None else Some(name)
  }

  /** The bytes before the first zero byte: what `c_str()` hands to a C string reader. */
  function UpToNul(s: seq<byte>): (r: seq<byte>)
    ensures r <= s && 0 !in r
    ensures |r| < |s| ==> s[|r|] == 0
  {
    if |s| == 0 || s[0] == 0 then [] else [s[0]] + UpToNul(s[1..])
  }

  /**
   * NewStringUTF(domain.c_str()): the Java string the service receives,
   * each byte read as the character of the same code (exact for ASCII).
   */
  function JavaString(name: seq<byte>): (s: string)
    ensures |s| == |UpToNul(name)| <= |name|
    ensures forall i :: 0 <= i < |s| ==> s[i] as int == name[i] as int
  {
    var t := UpToNul(name);
    seq(|t|, i requires 0 <= i < |t| => t[i] as int as char)
  }

  /** A name crosses the JNI boundary whole exactly when it holds no zero byte. */
  lemma JavaStringWhole(name: seq<byte>)
    ensures |JavaString(name)| == |name| <==> 0 !in name
  {
    var t := UpToNul(name);
    if |t| == |name| {
      assert t == name;
    }
  }
}
