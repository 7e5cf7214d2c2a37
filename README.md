# PrivacyInspector packet and session core, in Dafny

PrivacyInspector is an Android VPN app. Every DNS query the phone sends enters a local tunnel. The app:

- reads the queried name out of the packet with a native (C++) extractor;
- logs the name and flags it when it is on a downloaded tracker blocklist;
- forwards the DNS payload to a real resolver;
- forges an IPv4/UDP reply around the resolver's answer and writes it back into the tunnel;
- keeps a session log, from which a dashboard draws counts, a risk percentage and the top five tracker domains, and names the company behind each domain.

This project models that core and proves properties of it. One Dafny module per source file:

| module | file | models |
|---|---|---|
| `PrivacyVpnService` | `vpn_service.dfy` | The header checksum (RFC 791 section 3.1, computed as in RFC 1071). The forged reply, written through a `ByteBuffer` class over an array. The size guard and payload slice of the per-packet handler. |
| `NativeLib` | `native_lib.dfy` | `parse_dns_qname`: a loop over length-prefixed labels (RFC 1035 sections 3.1 and 4.1.2). It stops at compression pointers (section 4.1.4) and allows at most 129 labels. `nativeGetDomain`: the IPv4 header checks in front of it. |
| `DnsUtils` | `dns_utils.dfy` | The Kotlin extractor: `getDomainFromPacket` as a total function to an `Option`, and `parseDnsName` as a loop over a string builder. |
| `Blocklist` | `blocklist.dfy` | The hosts-file line parser and the grow-only set it fills. The three-domain fallback. Exact lookup. |
| `Analytics` | `analytics.dfy` | The append-only session log and its queries. The top-threats query is filter, group by domain, stable sort by descending count, take 5. |
| `Enricher` | `enricher.dfy` | The ordered first-match substring rule table that names a domain's company, and `fakeIpResolution`. |
| `Labels` | `labels.dfy` | Shared by both extractors: joining labels with a separator, the builder-style join their loops perform, and the split that inverts the join. |
| `Wrappers` | `wrappers.dfy` | `Option` and the `byte` type. |

Imperative source code is modelled as methods with loop invariants. Each method is proved against a function that specifies it:

- `CalculateChecksum` against `InternetChecksum`;
- `CreateFakeDnsResponse` against `ForgedReply`;
- `ParseDnsQname` against `QName`;
- `ParseDnsName` against `DnsName`;
- `LoadBlocklist` against `HostsDomains`.

The properties the source promises are then proved about those functions.

Where this model and the behaviour described for the app differ, the model follows the code:

- The service logs a name from any UDP datagram that carries a parseable question, not only from port-53 traffic. The native extractor never looks at ports. Only the Kotlin extractor, which the service does not call, checks for port 53. `PrivacyVpnService.AnyPortIsLogged` exhibits such a packet: a query to port 5353 of the virtual DNS address 10.0.0.5, the only address the tunnel routes.
- A failed blocklist download adds the fallback domains to what is already loaded; it does not replace it.
- A successful download also only adds: the downloaded domains join the set, and nothing an earlier load put there is removed. A refresh never replaces the old list.

Source cells in the table give paths from the repository root.

## Model

| member | source | states |
|---|---|---|
| PrivacyVpnService.Word | app/src/main/java/com/example/privacyinspector/PrivacyVpnService.kt:243-245 | No contract; the definition: two bytes read unsigned as a big-endian 16-bit word. |
| PrivacyVpnService.Hi | app/src/main/java/com/example/privacyinspector/PrivacyVpnService.kt:214 | No contract; the definition: the high byte `putShort` writes first. |
| PrivacyVpnService.Lo | app/src/main/java/com/example/privacyinspector/PrivacyVpnService.kt:214 | No contract; the definition: the low byte `putShort` writes second. |
| PrivacyVpnService.ToShort | app/src/main/java/com/example/privacyinspector/PrivacyVpnService.kt:214 | No contract; the definition: `toShort`, keeping the low 16 bits. |
| PrivacyVpnService.HiLo | app/src/main/java/com/example/privacyinspector/PrivacyVpnService.kt:214 | Splitting a word into its two bytes and reading them back gives the word. |
| PrivacyVpnService.WordSum | app/src/main/java/com/example/privacyinspector/PrivacyVpnService.kt:240-248 | No contract; the definition: the sum of the big-endian words of a byte sequence, with an odd last byte as a high byte. |
| PrivacyVpnService.WordSumConcat | app/src/main/java/com/example/privacyinspector/PrivacyVpnService.kt:242-247 | The word sum of an even-length prefix plus the rest is the sum of the two word sums. |
| PrivacyVpnService.WordBytes | app/src/main/java/com/example/privacyinspector/PrivacyVpnService.kt:228-229 | A big-endian pair of bytes read as a word fits 16 bits, and `toShort` then `putShort` writes the same two bytes back. |
| PrivacyVpnService.Fold | app/src/main/java/com/example/privacyinspector/PrivacyVpnService.kt:249 | The end-around-carry fold ends at most 0xFFFF, is congruent to the sum modulo 0xFFFF, and is zero only for a zero sum. |
| PrivacyVpnService.InternetChecksum | app/src/main/java/com/example/privacyinspector/PrivacyVpnService.kt:239-251 | The checksum fits 16 bits, and adding it to the word sum gives a multiple of 0xFFFF (one's-complement zero). |
| PrivacyVpnService.ComplementSum | app/src/main/java/com/example/privacyinspector/PrivacyVpnService.kt:250 | A sum plus the complement of any 16-bit value congruent to it is a multiple of 0xFFFF. |
| PrivacyVpnService.CalculateChecksum | app/src/main/java/com/example/privacyinspector/PrivacyVpnService.kt:239-251 | Both loops over the first `len` bytes of the array produce the Internet checksum of those bytes. |
| PrivacyVpnService.WordSumStep | app/src/main/java/com/example/privacyinspector/PrivacyVpnService.kt:242-247 | One turn of the first loop adds the next big-endian word to the sum. |
| PrivacyVpnService.WordSumLast | app/src/main/java/com/example/privacyinspector/PrivacyVpnService.kt:248 | An odd trailing byte counts as the high byte of a final word. |
| PrivacyVpnService.FoldCarries | app/src/main/java/com/example/privacyinspector/PrivacyVpnService.kt:249 | The carry loop ends, and its result is the fold of the sum. |
| PrivacyVpnService.FoldDone | app/src/main/java/com/example/privacyinspector/PrivacyVpnService.kt:249-250 | When the carry loop stops, the sum is at most 0xFFFF and is its own fold. |
| PrivacyVpnService.WordSumReplace | app/src/main/java/com/example/privacyinspector/PrivacyVpnService.kt:225 | Overwriting an aligned word changes the word sum by exactly the difference of the two words. |
| PrivacyVpnService.ChecksumVerifies | app/src/main/java/com/example/privacyinspector/PrivacyVpnService.kt:219-225 | The checksum is computed while its field is zero and then stored in that field; the checksum of the sealed block is then 0. |
| PrivacyVpnService.ByteBuffer.Allocate | app/src/main/java/com/example/privacyinspector/PrivacyVpnService.kt:209 | A fresh zero-filled buffer of the requested capacity, at position 0. |
| PrivacyVpnService.ByteBuffer.Put | app/src/main/java/com/example/privacyinspector/PrivacyVpnService.kt:212 | A relative put writes one byte at the position and advances the position by one; no other byte changes. |
| PrivacyVpnService.ByteBuffer.PutShort | app/src/main/java/com/example/privacyinspector/PrivacyVpnService.kt:214 | A relative putShort writes the high byte, then the low byte, and advances the position by two. |
| PrivacyVpnService.ByteBuffer.PutShortAt | app/src/main/java/com/example/privacyinspector/PrivacyVpnService.kt:225 | An absolute putShort writes the two bytes at the index and leaves the position alone. |
| PrivacyVpnService.ByteBuffer.PutBytes | app/src/main/java/com/example/privacyinspector/PrivacyVpnService.kt:235 | A bulk put copies the source in order at the position and advances the position past it; the bytes on either side are unchanged. |
| PrivacyVpnService.IpHeader | app/src/main/java/com/example/privacyinspector/PrivacyVpnService.kt:212-222 | Always 20 bytes; the definition is the bytes the header puts write: 0x45, 0, total length, 0, 0x4000, 64, 17, the checksum, 10.0.0.5 and the destination. |
| PrivacyVpnService.UdpHeader | app/src/main/java/com/example/privacyinspector/PrivacyVpnService.kt:227-233 | Always 8 bytes; the definition is the UDP header: port 53, the destination port, the length and a zero checksum. |
| PrivacyVpnService.HeaderChecksum | app/src/main/java/com/example/privacyinspector/PrivacyVpnService.kt:224 | No contract; the definition: the checksum of the header with a zero checksum field. |
| PrivacyVpnService.SealedHeaderVerifies | app/src/main/java/com/example/privacyinspector/PrivacyVpnService.kt:224-225 | An IP header sealed with the checksum of its zero-checksum form has checksum 0. |
| PrivacyVpnService.ForgedReply | app/src/main/java/com/example/privacyinspector/PrivacyVpnService.kt:207-237 | For a reply of length N the forged packet is exactly 28 + N bytes, and bytes 28.. are the reply verbatim. |
| PrivacyVpnService.HeaderFields | app/src/main/java/com/example/privacyinspector/PrivacyVpnService.kt:212-222 | Where each field of the built IP header sits: version/IHL, type of service, total length, identification, flags, TTL, protocol, source and destination. |
| PrivacyVpnService.ForgedIpHeader | app/src/main/java/com/example/privacyinspector/PrivacyVpnService.kt:212-218 | Forged packet fields: byte 0 = 0x45, byte 1 = 0, total length = (28 + N) mod 2^16, identification = 0, flags = 0x4000, TTL = 64, protocol = 17. |
| PrivacyVpnService.ForgedAddresses | app/src/main/java/com/example/privacyinspector/PrivacyVpnService.kt:221-222 | The source address is 10.0.0.5, and the destination is the request's source address (request bytes 12-15). |
| PrivacyVpnService.ForgedIpChecksum | app/src/main/java/com/example/privacyinspector/PrivacyVpnService.kt:219-225 | Bytes 10-11 hold the checksum of the header with that field zeroed, and the finished 20-byte header checksums to 0. |
| PrivacyVpnService.ForgedUdpHeader | app/src/main/java/com/example/privacyinspector/PrivacyVpnService.kt:227-233 | Source port 53; destination port = request bytes 20-21; length = (8 + N) mod 2^16; checksum 0. |
| PrivacyVpnService.PutUnsealedHeader | app/src/main/java/com/example/privacyinspector/PrivacyVpnService.kt:212-222 | The first fourteen puts leave the IP header with a zero checksum in bytes 0-19 and position 20; the rest of the buffer is untouched. |
| PrivacyVpnService.PutFixedFields | app/src/main/java/com/example/privacyinspector/PrivacyVpnService.kt:212-219 | The puts of lines 212-219 write their twelve bytes in order, with position 12 afterwards. |
| PrivacyVpnService.PutAddresses | app/src/main/java/com/example/privacyinspector/PrivacyVpnService.kt:221-222 | The address puts write 10.0.0.5 and the four destination bytes into bytes 12-19, with position 20 afterwards. |
| PrivacyVpnService.HeaderPutsLayout | app/src/main/java/com/example/privacyinspector/PrivacyVpnService.kt:212-222 | The fourteen puts, applied to any buffer content, leave exactly the zero-checksum IP header in front of the untouched rest. |
| PrivacyVpnService.PutUdpHeader | app/src/main/java/com/example/privacyinspector/PrivacyVpnService.kt:227-233 | The four putShort calls write the UDP header into bytes 20-27, with position 28 afterwards. |
| PrivacyVpnService.CreateFakeDnsResponse | app/src/main/java/com/example/privacyinspector/PrivacyVpnService.kt:207-237 | The buffer filled by the source's sequence of puts, with the checksum stored at offset 10, is exactly the forged reply. |
| PrivacyVpnService.LoggedDomain | app/src/main/java/com/example/privacyinspector/PrivacyVpnService.kt:118-119 | No contract; the definition: the native name as a Java string, or "" when the extractor returns null. |
| PrivacyVpnService.ProcessOutgoingPacket | app/src/main/java/com/example/privacyinspector/PrivacyVpnService.kt:112-157 | Packets of 28 bytes or fewer are dropped. Otherwise the query sent upstream is exactly the bytes after offset 28. A domain is logged exactly when the native extractor gives a non-empty name, and it is flagged exactly when the blocklist holds it. A reply is written exactly when the resolver answered with at least one byte. |
| PrivacyVpnService.WrittenReply | app/src/main/java/com/example/privacyinspector/PrivacyVpnService.kt:133-150 | The written reply is the 28 header bytes followed by exactly the first min(N, 4096) bytes of the answer: the cut made by the 4096-byte receive buffer. It goes back to the query's source address and port, and its header checksum verifies. |
| PrivacyVpnService.AnyPortIsLogged | app/src/main/java/com/example/privacyinspector/PrivacyVpnService.kt:118-120 | A query to port 5353 of 10.0.0.5 is logged through the native extractor, while the Kotlin extractor would return null for it. |
| NativeLib.IsPointer | app/src/main/cpp/native-lib.cpp:19 | No contract; the definition: a length byte with both top bits set is a compression pointer. |
| NativeLib.WalkFrom | app/src/main/cpp/native-lib.cpp:13-33 | No contract; the definition: the labels the loop reads from a position and why it stops: a zero byte, the buffer end, a pointer, an overrun or a 130th label. |
| NativeLib.QName | app/src/main/cpp/native-lib.cpp:8-35 | No contract; the definition: the labels joined by '.', or "" after an overrun or a 130th label. |
| NativeLib.Written | app/src/main/cpp/native-lib.cpp:25-34 | No contract; the definition: what the loop returns from a given state: the name so far with the remaining labels appended, or "". |
| NativeLib.WalkShape | app/src/main/cpp/native-lib.cpp:13-31 | At most 129 labels are accepted; each is non-empty and shorter than 0xC0 bytes. The walk ends in a 130th-label stop only after exactly 129 labels. |
| NativeLib.QNameWritten | app/src/main/cpp/native-lib.cpp:22-31 | Appending the walked labels to an empty name, with a '.' before each one that finds the name non-empty, gives the labels joined by '.'. |
| NativeLib.CopyLabel | app/src/main/cpp/native-lib.cpp:26-30 | The inner loop copies exactly the declared label bytes, and fails exactly when the label runs past the buffer. |
| NativeLib.ParseDnsQname | app/src/main/cpp/native-lib.cpp:8-35 | The loop returns the labels joined by '.'. It stops early at a zero byte, the buffer end, or a compression pointer, keeping the labels read so far. It returns "" on an overrunning label or a 130th label. |
| NativeLib.QNameLabels | app/src/main/cpp/native-lib.cpp:24-31 | A parsed name starts with the first label and ends with the last, so no leading or trailing '.'. With dot-free labels it holds one '.' fewer than labels and splits back into them. |
| NativeLib.Version | app/src/main/cpp/native-lib.cpp:54 | No contract; the definition: the high nibble of byte 0. |
| NativeLib.QuestionStart | app/src/main/cpp/native-lib.cpp:55-60 | No contract; the definition: IHL * 4 + 8 + 12. |
| NativeLib.Parseable | app/src/main/cpp/native-lib.cpp:50-62 | No contract; the definition: length > 40, version 4, protocol 17, and the question start inside the packet. |
| NativeLib.NativeGetDomain | app/src/main/cpp/native-lib.cpp:50-71 | A name is returned exactly when all hold: length > 40, version 4, protocol 17, question start (IHL*4 + 20) inside the packet, and a non-empty parse. No port is checked. Otherwise NULL. |
| NativeLib.UpToNul | app/src/main/cpp/native-lib.cpp:71 | `c_str()` read as a C string: the longest prefix without a zero byte. |
| NativeLib.JavaString | app/src/main/cpp/native-lib.cpp:71 | The Java string has one character per byte before the first zero byte, each with that byte's code. |
| NativeLib.JavaStringWhole | app/src/main/cpp/native-lib.cpp:71 | The whole name reaches Java exactly when it contains no zero byte. |
| DnsUtils.ByteToChar | app/src/main/java/com/example/privacyinspector/DnsUtils.kt:34 | `Byte.toChar()` sign-extends: bytes below 0x80 keep their code; the others become U+FF80..U+FFFF. |
| DnsUtils.Chars | app/src/main/java/com/example/privacyinspector/DnsUtils.kt:34 | Converting a run of bytes yields one character per byte, in order. |
| DnsUtils.LabelText | app/src/main/java/com/example/privacyinspector/DnsUtils.kt:33-35 | No contract; the definition: the characters of the label bytes that lie inside the packet. |
| DnsUtils.Copied | app/src/main/java/com/example/privacyinspector/DnsUtils.kt:33-35 | No contract; the definition: the characters appended after the first turns of the inner loop. |
| DnsUtils.CopiedStep | app/src/main/java/com/example/privacyinspector/DnsUtils.kt:33-35 | One turn of the inner loop appends the next label byte if it lies inside the packet, and nothing otherwise. |
| DnsUtils.NameLabels | app/src/main/java/com/example/privacyinspector/DnsUtils.kt:29-38 | No contract; the definition: the labels the outer loop reads: stop at a zero length, the end of data or 100 labels, advancing len + 1 each time. |
| DnsUtils.DnsName | app/src/main/java/com/example/privacyinspector/DnsUtils.kt:25-40 | No contract; the definition: the labels joined by '.'. |
| DnsUtils.NameLabelsShape | app/src/main/java/com/example/privacyinspector/DnsUtils.kt:29-38 | At most 100 labels are read, and every label but the last is non-empty. |
| DnsUtils.DnsNameWritten | app/src/main/java/com/example/privacyinspector/DnsUtils.kt:29-38 | The builder's "'.' when non-empty" rule yields exactly the labels joined by '.'. |
| DnsUtils.AppendLabel | app/src/main/java/com/example/privacyinspector/DnsUtils.kt:33-35 | The inner loop appends the label's bytes that lie inside the packet, as characters, and skips the rest without failing. |
| DnsUtils.ParseDnsName | app/src/main/java/com/example/privacyinspector/DnsUtils.kt:25-40 | The loop returns the labels read, joined by '.'. It stops at a zero length byte, the end of data, or 100 labels. It advances by len + 1 per label and treats every length byte as a plain unsigned length. |
| DnsUtils.IpHeaderLen | app/src/main/java/com/example/privacyinspector/DnsUtils.kt:7 | No contract; the definition: the low nibble of byte 0 times 4. |
| DnsUtils.UdpDestPort | app/src/main/java/com/example/privacyinspector/DnsUtils.kt:10-11 | No contract; the definition: the big-endian unsigned word at IHL * 4 + 2. |
| DnsUtils.GetDomainFromPacket | app/src/main/java/com/example/privacyinspector/DnsUtils.kt:4-23 | A name exactly when: byte 9 is 17, the destination port at IHL*4 + 2 is 53, and the question start IHL*4 + 20 lies inside the packet. The name is then parseDnsName from there. Otherwise null, including every read past the end. |
| DnsUtils.DnsNameLabels | app/src/main/java/com/example/privacyinspector/DnsUtils.kt:29-38 | With dot-free labels, the name holds one '.' fewer than labels read, and splits back into them. |
| Labels.Join | app/src/main/java/com/example/privacyinspector/DnsUtils.kt:32 | No contract; the definition: the parts with one separator between consecutive parts. |
| Labels.Split | app/src/main/java/com/example/privacyinspector/DnsUtils.kt:32 | Always at least one part; the cut at every separator, used as the inverse of the join. |
| Labels.JoinOnto | app/src/main/cpp/native-lib.cpp:25-31 | No contract; the definition: the builder-style append: a separator before a part whenever the text so far is non-empty. |
| Labels.JoinSnoc | app/src/main/java/com/example/privacyinspector/DnsUtils.kt:32-35 | One more label adds a separator and the label, unless it is the first. |
| Labels.JoinEmpty | app/src/main/java/com/example/privacyinspector/DnsUtils.kt:32 | A join of non-empty labels is empty exactly when there are no labels, so "the builder is non-empty" means "a label was written". |
| Labels.JoinEnds | app/src/main/cpp/native-lib.cpp:24-30 | A join starts with its first part and ends with its last part. |
| Labels.JoinOntoJoin | app/src/main/cpp/native-lib.cpp:24-30 | Appending parts builder-style after a join of non-empty parts continues the join, when all but the last new part are non-empty. |
| Labels.JoinSeparatorCount | app/src/main/java/com/example/privacyinspector/DnsUtils.kt:32 | A join of separator-free parts holds one separator fewer than parts. |
| Labels.SplitJoin | app/src/main/java/com/example/privacyinspector/DnsUtils.kt:32-35 | Splitting a join of separator-free parts at the separator gives back the parts. |
| Labels.SplitAppendFree | app/src/main/java/com/example/privacyinspector/DnsUtils.kt:32-35 | Appending separator-free text only extends the last piece of a split. |
| Labels.SplitJoinStep | app/src/main/java/com/example/privacyinspector/DnsUtils.kt:32-35 | A separator and one more separator-free part add exactly that part to the split. |
| Blocklist.IsWhitespace | app/src/main/java/com/example/privacyinspector/BlocklistManager.kt:17 | No contract; the definition: the characters Kotlin's `isWhitespace` accepts, which `trim` removes. |
| Blocklist.IsRegexSpace | app/src/main/java/com/example/privacyinspector/BlocklistManager.kt:19 | No contract; the definition: the characters the regex class `\s` matches: space and \t through \r. |
| Blocklist.LeadingWhitespace | app/src/main/java/com/example/privacyinspector/BlocklistManager.kt:17 | The length of the maximal run of whitespace characters at the start of the line. |
| Blocklist.TrailingWhitespace | app/src/main/java/com/example/privacyinspector/BlocklistManager.kt:17 | The length of the maximal run of whitespace characters at the end of the line. |
| Blocklist.Trim | app/src/main/java/com/example/privacyinspector/BlocklistManager.kt:17 | No contract; the definition: the line without its leading and trailing whitespace runs. |
| Blocklist.TrimEnds | app/src/main/java/com/example/privacyinspector/BlocklistManager.kt:17 | A non-empty trimmed line neither starts nor ends with whitespace. |
| Blocklist.TrimCutsWhitespace | app/src/main/java/com/example/privacyinspector/BlocklistManager.kt:17 | Everything `trim` cuts off is whitespace. |
| Blocklist.Pieces | app/src/main/java/com/example/privacyinspector/BlocklistManager.kt:19 | `split("\\s+")` always yields at least one piece. |
| Blocklist.PiecesFree | app/src/main/java/com/example/privacyinspector/BlocklistManager.kt:19 | No piece of the split contains a `\s` character. |
| Blocklist.PiecesShape | app/src/main/java/com/example/privacyinspector/BlocklistManager.kt:19 | No piece contains a `\s` character. Inner pieces are non-empty. The first and last pieces are non-empty when the text does not start or end with `\s`. |
| Blocklist.PiecesPrefix | app/src/main/java/com/example/privacyinspector/BlocklistManager.kt:19 | Text without `\s` in front of a string extends that string's first piece. |
| Blocklist.PiecesOfSpacedFields | app/src/main/java/com/example/privacyinspector/BlocklistManager.kt:19 | Non-empty `\s`-free fields joined by single spaces split back into those fields. |
| Blocklist.Lines | app/src/main/java/com/example/privacyinspector/BlocklistManager.kt:16 | `lineSequence` always yields at least one line. |
| Blocklist.LinesHaveNoBreaks | app/src/main/java/com/example/privacyinspector/BlocklistManager.kt:16 | No line contains '\n' or '\r'. |
| Blocklist.ParseLine | app/src/main/java/com/example/privacyinspector/BlocklistManager.kt:17-20 | No contract; the definition: a non-empty trimmed line not starting with '#' contributes its second `\s+` piece, if it has one. |
| Blocklist.ParseLineShape | app/src/main/java/com/example/privacyinspector/BlocklistManager.kt:17-20 | A contributed domain is a non-empty token with no `\s` character. |
| Blocklist.ParseLineOfTokens | app/src/main/java/com/example/privacyinspector/BlocklistManager.kt:17-20 | Take a hosts line of single-space-separated tokens whose first token does not start with '#'. It contributes exactly its second token, or nothing when it has only one. |
| Blocklist.ParsedLines | app/src/main/java/com/example/privacyinspector/BlocklistManager.kt:16-21 | One parse result per line, in order. |
| Blocklist.Present | app/src/main/java/com/example/privacyinspector/BlocklistManager.kt:20 | No contract; the definition: the set of domains the parsed lines contribute. |
| Blocklist.PresentMembers | app/src/main/java/com/example/privacyinspector/BlocklistManager.kt:20 | A domain is in the set exactly when some line contributed it. |
| Blocklist.PresentStep | app/src/main/java/com/example/privacyinspector/BlocklistManager.kt:20 | Each line adds its own domain, if any, and nothing else. |
| Blocklist.PresentSize | app/src/main/java/com/example/privacyinspector/BlocklistManager.kt:9-20 | The set never holds more domains than there are lines (duplicates count once). |
| Blocklist.HostsDomains | app/src/main/java/com/example/privacyinspector/BlocklistManager.kt:16-21 | No contract; the definition: the domains all lines of a downloaded text contribute. |
| Blocklist.HostsDomainsMembers | app/src/main/java/com/example/privacyinspector/BlocklistManager.kt:16-21 | A domain is loaded from a text exactly when some line contributes it, and there are at most as many domains as lines. |
| Blocklist.BlocklistManager.constructor | app/src/main/java/com/example/privacyinspector/BlocklistManager.kt:9 | The set starts empty. |
| Blocklist.BlocklistManager.LoadBlocklist | app/src/main/java/com/example/privacyinspector/BlocklistManager.kt:12-28 | A successful fetch adds the domains of the text's lines. A failed fetch adds the three fallback domains. Either way the earlier entries stay: a load merges. |
| Blocklist.BlocklistManager.IsTracker | app/src/main/java/com/example/privacyinspector/BlocklistManager.kt:29 | No contract; the definition: exact membership in the set. |
| Blocklist.BlocklistManager.GetSize | app/src/main/java/com/example/privacyinspector/BlocklistManager.kt:30 | No contract; the definition: the number of domains in the set. |
| Blocklist.ReloadChangesNothing | app/src/main/java/com/example/privacyinspector/BlocklistManager.kt:12-28 | Loading the same text twice leaves the same set as loading it once, and keeps every earlier entry. |
| Blocklist.FallbackStart | app/src/main/java/com/example/privacyinspector/BlocklistManager.kt:23-30 | After a failed first load, `getSize` is 3 and a fallback domain is a tracker. Another letter case or a sub-domain of it is not: `isTracker` is exact membership. |
| Analytics.BlockedCount | app/src/main/java/com/example/privacyinspector/AnalyticsManager.kt:21 | At most the number of entries, and zero exactly when no entry is a tracker. |
| Analytics.TrackerDomains | app/src/main/java/com/example/privacyinspector/AnalyticsManager.kt:13 | The tracker filter keeps one domain per tracker entry: as many as the blocked count. |
| Analytics.TrackerHits | app/src/main/java/com/example/privacyinspector/AnalyticsManager.kt:13-15 | No contract; the definition: the number of tracker entries for a domain. |
| Analytics.TrackerDomainsCount | app/src/main/java/com/example/privacyinspector/AnalyticsManager.kt:13-14 | Each domain occurs among the tracker domains as often as it has tracker entries in the log. |
| Analytics.RiskPercentage | app/src/main/java/com/example/privacyinspector/AnalyticsManager.kt:23-26 | 0 for an empty log. Otherwise floor(blocked * 100 / total), stated by its bounds. Always between 0 and 100. |
| Analytics.DivBounds | app/src/main/java/com/example/privacyinspector/AnalyticsManager.kt:25 | Integer division of a value at most m*n by n lies in 0..m and is the floor of the quotient. |
| Analytics.SumCounts | app/src/main/java/com/example/privacyinspector/AnalyticsManager.kt:15 | No contract; the definition: the total of the counts of a list of stats. |
| Analytics.Bump | app/src/main/java/com/example/privacyinspector/AnalyticsManager.kt:14 | Grouping one more entry raises the total count by one. |
| Analytics.Group | app/src/main/java/com/example/privacyinspector/AnalyticsManager.kt:14-15 | No contract; the definition: `groupBy` then `map`: one stat per domain, bumped entry by entry. |
| Analytics.FirstIndex | app/src/main/java/com/example/privacyinspector/AnalyticsManager.kt:14 | The position of a domain's first appearance, which is where `groupBy` creates its key. |
| Analytics.FirstIndexUnique | app/src/main/java/com/example/privacyinspector/AnalyticsManager.kt:14 | The first appearance is unique. |
| Analytics.FirstIndexSnoc | app/src/main/java/com/example/privacyinspector/AnalyticsManager.kt:14 | Appending an entry moves no earlier first appearance; a new domain first appears at the end. |
| Analytics.Grouped | app/src/main/java/com/example/privacyinspector/AnalyticsManager.kt:14-15 | No contract; the definition: one stat per distinct domain, in order of first appearance, each with that domain's number of occurrences. |
| Analytics.BumpExisting | app/src/main/java/com/example/privacyinspector/AnalyticsManager.kt:14 | An entry for a known domain increments that domain's group only. |
| Analytics.BumpNew | app/src/main/java/com/example/privacyinspector/AnalyticsManager.kt:14 | An entry for a new domain opens a group of one at the end. |
| Analytics.GroupSpec | app/src/main/java/com/example/privacyinspector/AnalyticsManager.kt:14-15 | Grouping gives one stat per distinct domain, in order of first appearance. Each count is that domain's number of occurrences, and the counts add up to the number of entries. |
| Analytics.GroupSpecHit | app/src/main/java/com/example/privacyinspector/AnalyticsManager.kt:14 | Grouping stays correct after an entry for a known domain. |
| Analytics.GroupedAfterHit | app/src/main/java/com/example/privacyinspector/AnalyticsManager.kt:14 | A group incremented in place keeps the grouping correct. |
| Analytics.GroupedAfterNew | app/src/main/java/com/example/privacyinspector/AnalyticsManager.kt:14 | A group opened at the end keeps the grouping correct. |
| Analytics.NewCounts | app/src/main/java/com/example/privacyinspector/AnalyticsManager.kt:14-15 | After a new group is opened, every count still equals its domain's occurrences. |
| Analytics.NewCovers | app/src/main/java/com/example/privacyinspector/AnalyticsManager.kt:14 | After a new group is opened, every domain seen has a group. |
| Analytics.NewOrder | app/src/main/java/com/example/privacyinspector/AnalyticsManager.kt:14 | After a new group is opened, groups are still in order of first appearance. |
| Analytics.Ranked | app/src/main/java/com/example/privacyinspector/AnalyticsManager.kt:16 | No contract; the definition: non-increasing counts, with equal counts in order of first appearance. |
| Analytics.Insert | app/src/main/java/com/example/privacyinspector/AnalyticsManager.kt:16 | No contract; the definition: insertion behind every stat of equal or higher count. |
| Analytics.SortByCount | app/src/main/java/com/example/privacyinspector/AnalyticsManager.kt:16 | No contract; the definition: insertion sort by descending count, stable. |
| Analytics.InsertPerm | app/src/main/java/com/example/privacyinspector/AnalyticsManager.kt:16 | Inserting into the sorted list adds exactly that stat. |
| Analytics.SortPerm | app/src/main/java/com/example/privacyinspector/AnalyticsManager.kt:16 | The sort is a permutation of the groups. |
| Analytics.InsertRanked | app/src/main/java/com/example/privacyinspector/AnalyticsManager.kt:16 | Inserting a later-appearing stat behind every stat of equal or higher count keeps the list ranked (stable). |
| Analytics.RankedCons | app/src/main/java/com/example/privacyinspector/AnalyticsManager.kt:16 | A stat ranked before every element of a ranked list can lead it. |
| Analytics.SortRanked | app/src/main/java/com/example/privacyinspector/AnalyticsManager.kt:16 | `sortedByDescending` orders by non-increasing count; equal counts keep the order of first appearance. |
| Analytics.InsertSum | app/src/main/java/com/example/privacyinspector/AnalyticsManager.kt:16 | Insertion adds the inserted count to the total. |
| Analytics.SortSum | app/src/main/java/com/example/privacyinspector/AnalyticsManager.kt:16 | Sorting keeps the total count. |
| Analytics.SumSnoc | app/src/main/java/com/example/privacyinspector/AnalyticsManager.kt:15 | The total of a list grows by the count of an appended stat. |
| Analytics.SumPrefix | app/src/main/java/com/example/privacyinspector/AnalyticsManager.kt:17 | `take` never raises the total count. |
| Analytics.Ranking | app/src/main/java/com/example/privacyinspector/AnalyticsManager.kt:12-16 | No contract; the definition: the grouped tracker domains, sorted. |
| Analytics.TopThreats | app/src/main/java/com/example/privacyinspector/AnalyticsManager.kt:17 | At most five stats, and a prefix of the full ranking. |
| Analytics.DistinctCard | app/src/main/java/com/example/privacyinspector/AnalyticsManager.kt:14 | Distinct keys: the set of a duplicate-free list is as large as the list. |
| Analytics.SortKeepsCounts | app/src/main/java/com/example/privacyinspector/AnalyticsManager.kt:14-16 | After sorting, every stat's count is still its domain's number of occurrences, at least 1. |
| Analytics.SortKeepsDomains | app/src/main/java/com/example/privacyinspector/AnalyticsManager.kt:14-16 | After sorting, every tracker domain still has a stat. |
| Analytics.GroupedSize | app/src/main/java/com/example/privacyinspector/AnalyticsManager.kt:14-15 | There are as many groups as distinct domains. |
| Analytics.RankingSpec | app/src/main/java/com/example/privacyinspector/AnalyticsManager.kt:11-16 | The full ranking has one stat per distinct tracker domain, ranked. Each count equals that domain's tracker entries. The counts add up to the blocked count. |
| Analytics.TopThreatsCounts | app/src/main/java/com/example/privacyinspector/AnalyticsManager.kt:12-15 | Every returned count equals the number of tracker entries for its domain, and is at least 1. |
| Analytics.TopThreatsOrder | app/src/main/java/com/example/privacyinspector/AnalyticsManager.kt:14-17 | The returned domains are distinct, with non-increasing counts; equal counts are in order of each domain's first tracker entry, which can differ from its first entry in the log. |
| Analytics.TiesFollowTrackerEntries | app/src/main/java/com/example/privacyinspector/AnalyticsManager.kt:12-17 | With logs [x not a tracker, y tracker, x tracker], the result is [y: 1, x: 1]: x ranks behind y though it was logged first, because the filter runs before the grouping. |
| Analytics.TopThreatsComplete | app/src/main/java/com/example/privacyinspector/AnalyticsManager.kt:11-17 | A tracker domain is left out only when five stats are returned, each ranked before it. |
| Analytics.PrefixDomains | app/src/main/java/com/example/privacyinspector/AnalyticsManager.kt:17 | A prefix long enough to reach a position keeps that position's domain. |
| Analytics.TopThreatsSum | app/src/main/java/com/example/privacyinspector/AnalyticsManager.kt:12-17 | The returned counts add up to at most the blocked count, and exactly to it when there are at most five distinct tracker domains. |
| Analytics.AnalyticsManager.constructor | app/src/main/java/com/example/privacyinspector/AnalyticsManager.kt:7 | The session log starts empty. |
| Analytics.AnalyticsManager.AddLog | app/src/main/java/com/example/privacyinspector/AnalyticsManager.kt:9 | The entry is appended at the end; earlier entries are unchanged. |
| Analytics.AnalyticsManager.GetTopThreats | app/src/main/java/com/example/privacyinspector/AnalyticsManager.kt:11-18 | At most five stats, each with the number of tracker entries for its domain, at least 1. |
| Analytics.AnalyticsManager.GetTotalRequests | app/src/main/java/com/example/privacyinspector/AnalyticsManager.kt:20 | The number of logged entries. |
| Analytics.AnalyticsManager.GetBlockedCount | app/src/main/java/com/example/privacyinspector/AnalyticsManager.kt:21 | At most the total, and zero exactly when no entry is a tracker. |
| Analytics.AnalyticsManager.GetRiskPercentage | app/src/main/java/com/example/privacyinspector/AnalyticsManager.kt:23-26 | Between 0 and 100, 0 for an empty log, otherwise the floor of blocked * 100 / total. |
| Analytics.AddLogCounts | app/src/main/java/com/example/privacyinspector/AnalyticsManager.kt:9-21 | Adding an entry raises the total by one and the blocked count by one exactly for a tracker entry. It appends its domain to the tracker domains exactly for a tracker entry. |
| Enricher.Lower | app/src/main/java/com/example/privacyinspector/Enricher.kt:13 | An ASCII capital becomes its small letter; any other character is kept. |
| Enricher.LowerCase | app/src/main/java/com/example/privacyinspector/Enricher.kt:13 | Same length, character-wise lowering, no capital letter left. |
| Enricher.LowerCaseIdempotent | app/src/main/java/com/example/privacyinspector/Enricher.kt:13 | Lowering twice is lowering once. |
| Enricher.Contains | app/src/main/java/com/example/privacyinspector/Enricher.kt:16 | No contract; the definition: `contains`: the needle is a prefix of some suffix. |
| Enricher.ContainsAt | app/src/main/java/com/example/privacyinspector/Enricher.kt:16 | `contains` holds exactly when the needle occurs at some position. |
| Enricher.MissingChar | app/src/main/java/com/example/privacyinspector/Enricher.kt:16 | A needle with a character absent from the domain is not contained in it. |
| Enricher.Fires | app/src/main/java/com/example/privacyinspector/Enricher.kt:16 | No contract; the definition: the lower-cased domain contains one of the rule's needles. |
| Enricher.FirstMatch | app/src/main/java/com/example/privacyinspector/Enricher.kt:15-34 | A rule matches exactly when some rule fires, and the answer is the company of a rule that fires. |
| Enricher.FirstMatchAt | app/src/main/java/com/example/privacyinspector/Enricher.kt:15-34 | The first rule that fires decides. |
| Enricher.FirstFiring | app/src/main/java/com/example/privacyinspector/Enricher.kt:15-34 | The answer, when there is one, comes from a rule that fires with no earlier rule firing. |
| Enricher.FirstMatchIs | app/src/main/java/com/example/privacyinspector/Enricher.kt:15-34 | With distinct companies, rule k's company is the answer exactly when rule k fires and no earlier rule does. |
| Enricher.IdentifyCompany | app/src/main/java/com/example/privacyinspector/Enricher.kt:12-41 | The answer is always one of the twelve fixed company records. |
| Enricher.OutcomesDistinct | app/src/main/java/com/example/privacyinspector/Enricher.kt:15-40 | The twelve records are pairwise different. |
| Enricher.RulesDistinct | app/src/main/java/com/example/privacyinspector/Enricher.kt:15-40 | The ten rules name ten different companies, none of them "Ad Network" or "Unknown Host". |
| Enricher.IdentifyByRule | app/src/main/java/com/example/privacyinspector/Enricher.kt:13-35 | Rule k's company is the answer exactly when rule k fires on the lower-cased domain and no earlier rule does. |
| Enricher.IdentifyByBlocklist | app/src/main/java/com/example/privacyinspector/Enricher.kt:36-39 | "Ad Network" exactly when no rule fires and the domain is blocked. "Unknown Host" exactly when no rule fires and it is not. |
| Enricher.IdentifyCaseInsensitive | app/src/main/java/com/example/privacyinspector/Enricher.kt:13-35 | When a rule fires, domains that differ only in letter case get the same answer, whatever the blocklist holds. |
| Enricher.GoogleFirst | app/src/main/java/com/example/privacyinspector/Enricher.kt:16-17 | Any domain containing "google" is Google's, whatever else it contains. |
| Enricher.FacebookRules | app/src/main/java/com/example/privacyinspector/Enricher.kt:16-19 | On "facebook.com" the Google rule does not fire and the Meta rule does. |
| Enricher.BlockedFacebookIsMeta | app/src/main/java/com/example/privacyinspector/Enricher.kt:18-37 | "facebook.com" is in the fallback blocklist, yet it is reported as Meta, not "Ad Network": the rules come first. |
| Enricher.BlocklistIsCaseSensitive | app/src/main/java/com/example/privacyinspector/Enricher.kt:36 | The blocklist is consulted with the original domain: "X" against a list holding "x" is "Unknown Host". |
| Enricher.FakeIpResolution | app/src/main/java/com/example/privacyinspector/Enricher.kt:45-47 | The same constant "DNS Lookup" for every domain. |

## Left out

- Blocklist.IsRegexSpace: `\s` is taken as the JVM's class, space and \t through \r. On Android the regex engine is ICU, whose `\s` also matches Unicode space separators and may treat U+000B differently; hosts files use ASCII spacing.
- The Android lifecycle of the service: `onStartCommand`, `startVpn`, `stopVpn`, `onDestroy`, the tunnel read loop, the coroutine per packet and the `synchronized` write. These are OS I/O and concurrency.
- Notifications and broadcasts. The content of `sendLogToUI` is kept as the event in `ProcessOutgoingPacket`'s result.
- PrivacyVpnService.ProcessOutgoingPacket: the socket half is the `answer` parameter, which is None when no datagram came back. Reasons for None include a failed `protect`, the 2000 ms timeout and a network error. The upstream server address from the preferences is not modelled.
- PrivacyVpnService.CalculateChecksum: the sum is an unbounded integer. The Kotlin `Int` could wrap only for inputs past about 64 KiB, and the service checksums 20 bytes.
- PrivacyVpnService.CalculateChecksum: the final `sum.inv().toShort()` is written as `0xFFFF - sum`. The two agree on the low 16 bits whenever the sum is at most 0xFFFF, which `FoldDone` establishes once the carry loop stops; the bitwise complement of a 32-bit `Int` is not itself modelled.
- PrivacyVpnService.ForgedReply: like the source, it assumes a 20-byte request IP header. The port at bytes 20-21 and the slice at 28 are wrong for a request with IP options; the model reproduces that rather than correcting it.
- Analytics.RiskPercentage: does not model the 32-bit overflow of `blocked * 100`, which needs more than 21 million logged requests.
- Enricher.LowerCase: `lowercase()` is modelled for ASCII letters only. Non-ASCII letters keep their case in the model.
- NativeLib.JavaString: `NewStringUTF` reads modified UTF-8. The model reads each byte as the character of the same code, which is exact for ASCII only.
- `NativeGetDomain` takes the packet as a byte sequence; `GetByteArrayElements`/`ReleaseByteArrayElements` and the `iphdr` cast are replaced by reading the nibbles and bytes directly.
- Blocklist: the download (`URL.readText` on `Dispatchers.IO`) is the `fetched` parameter, None when it threw. Concurrent use of the shared set is not modelled.
- `Blocklist.BlocklistManager.IsTracker` and `GetSize` are plain queries without contracts of their own. Their behaviour is stated through `Blocklist.FallbackStart`.
- `getBlockedLogs`, called from the blocked-domains screen, does not exist in AnalyticsManager.kt and is not modelled. The screens themselves (MainActivity.kt, BlockedActivity.kt) are UI.
- The timestamp of a log entry is carried but never interpreted.
- Several methods split one source function into stages so that each proof stays small. `PutFixedFields`, `PutAddresses` and `PutUdpHeader` are stages of `createFakeDnsResponse`. `FoldCarries` is the second loop of `calculateChecksum`. `CopyLabel` and `AppendLabel` are the inner loops of the two name parsers. The order of the puts and of the loop steps is unchanged.
