# PROXY protocol version 1 header codec

A Dafny model of the header codec of `proxy-protocol-go`: the text header that a
load balancer puts in front of a forwarded TCP connection,

    PROXY <family> <src-ip> <dst-ip> <src-port> <dst-port>\r\n

with `<family>` one of `TCP4`, `TCP6` or `UNKNOWN`. The model covers the decoder
`ParseProtocolHeader`, the version 1 branch of the encoder `WriteHeader`, and the two
byte cursors of the repository: the stream cursor `parser` (over a `bufio.Reader`)
and the buffer cursor `lexer` (over a `[]byte`).

Layout:

- `errors.dfy` (`Errors`): the error kinds. `Eof` is Go's `io.EOF`, passed through
  unchanged. `InvalidHeader` is `ErrInvalidProtocolHeader`, alone or wrapped.
  `BadNumber` is the error of `strconv.ParseUint`. `Unimplemented` is the
  `panic("TODO")` of the version 2 encoder. A Go `error` is `Outcome`: `Pass` for nil,
  `Fail(e)` otherwise.
- `bytes.dfy` (`Bytes`): bytes, 16-bit ports, decimal numerals, and
  `strconv.ParseUint(_, 10, 16)`.
- `cursor.dfy` (`Cursor`): what each cursor operation does, as a pure function of
  the input and the position. Its result is a `Step`: the Go return value, the Go
  error, and the position after the call. It also has the substring search the
  decoder relies on and the restarting search of the buffer cursor.
- `parser.dfy` (`StreamParser.Parser`): the stream cursor as a class. The
  `bufio.Reader` is the immutable sequence of bytes it has yet to deliver (`input`).
  The field `pos` counts how many of them the parser has consumed, which is its
  `nextByteIndex`. Every method is proved to compute the `Cursor` function of the
  same name.
- `lexer.dfy` (`BufferLexer.Lexer`): the buffer cursor as a class with `buffer` and
  `nextByteIndex`, proved against the same `Cursor` functions.
- `ipv4.dfy` (`IPv4`): `net.ParseIP` and `net.IP.String()` for IPv4 dotted quads.
  `Parse` is a byte-by-byte scanner in the style of Go's parser. It is proved to be
  the exact inverse of the printer `Format`.
- `proxyprotocol.dfy` (`ProxyProtocol`): the `Header` record, `WriteHeader`, the
  decoder grammar `Decode` (a pure function of the pending bytes), and the imperative
  `ParseProtocolHeader`, which drives a `Parser`. The imperative decoder is proved to
  return exactly what `Decode` returns: the header, the error, and how many bytes it
  consumed.
- `properties.dfy` (`HeaderProperties`): what the decoder and the encoder promise,
  proved about `Decode` and `WriteHeader`.
- `truncation.dfy` (`HeaderTruncation`): what the decoder reports for an accepted
  header that the input cuts short, stage by stage.
- `vectors.dfy` (`HeaderVectors`): the literal inputs and outputs of
  `proxyprotocol_test.go`, written out byte by byte, with the model proved to give
  the result each test expects.

Behaviour the code has and the model keeps:

- A wrong signature is reported as `InvalidHeader`. A failed signature peek (input
  shorter than five bytes) is reported as `InvalidHeader` as well; in the source that
  error also wraps `io.EOF`, which the model drops (see "Left out"). A missing `\r\n`
  after `UNKNOWN` is reported as `InvalidHeader`, with the whole input consumed
  (`UnknownUnterminated`). End of input inside a token, before a separating space or
  before the closing `\r\n` is `Eof`; end of input where a port should begin is
  `BadNumber`, because the port read then parses an empty numeral; a stream cut
  there is therefore not reported as `io.EOF` (`TruncatedHeaderRejected`). A bad or
  out-of-range port is that same `strconv` error, `BadNumber`. The source wraps each
  of these errors with its own message (see "Left out").
- `expectByte` consumes the byte it compares, even when it is the wrong one.
- After `UNKNOWN` the decoder skips through the first `\r\n` and returns zero
  addresses. The family token is read up to the next space, so `PROXY UNKNOWN\r\n`
  (no space after `UNKNOWN`) is not accepted: the read runs to the end of input and
  fails with `Eof` (`UnknownNeedsTrailingSpace`).
- The family token is not checked against the address literals. `TCP6` with IPv4
  literals is accepted.
- No maximum header length is enforced. The constant of 108 bytes exists in the
  source but is never used.

## Model

| member | source | states |
|---|---|---|
| `Bytes.ParseUint16` | parser.go:42-46 | `strconv.ParseUint(t, 10, 16)` succeeds exactly when `t` is a non-empty run of digits whose value is at most 65535, and then returns that value; leading zeros are accepted; otherwise the number error and 0 |
| `Bytes.DecimalDigits` | proxyprotocol.go:50-51 | `%d` of a non-negative port is a canonical numeral (no superfluous leading zero) whose value is the port |
| `Bytes.FormatInt` | proxyprotocol.go:46-51 | `%d` of a negative port is a minus sign followed by the numeral of its magnitude |
| `Bytes.CanonicalIsDecimalOfValue` | proxyprotocol.go:50-51 | printing the value of a canonical numeral gives the numeral back, so printing and parsing ports are inverse |
| `Cursor.Peek` | parser.go:49-55 | peeking never moves the cursor; it fails with `Eof` exactly when no byte is left, and otherwise yields the next byte |
| `Cursor.Next` | parser.go:71-78 | reading one byte advances the position by exactly one and yields that byte; at end of input it fails with `Eof` and the position stays unchanged |
| `Cursor.ReadBytes` | parser.go:57-69 | `readBytes(n)` succeeds exactly when n bytes are left and then returns exactly the next n bytes; otherwise it returns the shorter prefix it consumed, all that was left, with `Eof` |
| `Cursor.ReadUntilDelimiter` | parser.go:107-125 | returns the bytes before the first delimiter, none of which equals it, and leaves the delimiter unread; if input ends first it consumes everything and fails with `Eof` and an empty result |
| `Cursor.ReadUint16` | parser.go:19-47 | consumes the maximal run of digits and leaves the first non-digit unread; succeeds exactly when the run is non-empty and its value is at most 65535, returning that value; otherwise the number error |
| `Cursor.ExpectByte` | parser.go:137-146 | consumes exactly one byte whenever one is left, even on a mismatch; `Eof` exactly at end of input, `InvalidHeader` on a different byte |
| `Cursor.ExpectCrlf` | parser.go:127-135 | succeeds exactly when the next two bytes are `\r\n`, and then consumes exactly them; otherwise: nothing left is `Eof` at p, a first byte other than `\r` is `InvalidHeader` after it, `\r` at the end is `Eof` after it, and `\r` then a byte other than `\n` is `InvalidHeader` after both |
| `Cursor.FirstOccurrenceEnd` | parser.go:80-105 | the end of the leftmost occurrence of a sequence at or after p, with no occurrence starting before it; `None` exactly when there is none |
| `Cursor.ReadUntilCrlf` | parser.go:80-105 | consumes through the first `\r\n` and no further; a `\r` not followed by `\n` does not stop it; the result is always empty; without any `\r\n` it consumes everything and fails with `Eof` |
| `Cursor.RestartScan` | lexer.go:80-95 | the restarting search, whenever it succeeds, ends at least one whole sequence length after its start |
| `Cursor.RestartScanOccurs` | lexer.go:80-95 | the restarting search never reports a match that is not there: where it stops, the sequence ends |
| `Cursor.ReadUntilByteSequence` | lexer.go:80-95 | on success returns a slice equal to the sequence that ends at the new index; at end of input an empty slice with `Eof`, having consumed the whole buffer |
| `Cursor.RestartScanMissesOverlap` | lexer.go:81-91 | on `\r\r\n` the search for `\r\n` runs off the end and fails with `Eof`, although `\r\n` occurs at index 1 |
| `Cursor.FirstOccurrenceFindsOverlap` | lexer.go:81-91 | the leftmost-occurrence search finds that `\r\n` |
| `Cursor.RestartScanNotBeforeFirstOccurrence` | lexer.go:80-95 | when the restarting search succeeds, a leftmost occurrence exists and ends no later: the search can skip a match but never invent one |
| `Cursor.FirstOccurrenceEndIs` | parser.go:80-105 | the leftmost-occurrence search is determined by its contract |
| `Cursor.ReadUntilCrlfAt` | parser.go:80-105 | bytes that contain no `\r\n`, then `\r\n`: the skip stops right after that `\r\n` |
| `Cursor.ReadUntilDelimiterAt` | parser.go:107-125 | a token without the delimiter, followed by the delimiter, is read as that token and the delimiter is left next |
| `Cursor.ReadUint16At` | parser.go:19-47 | a non-empty numeral of at most 65535 followed by a non-digit is read as its value, and the non-digit is left next |
| `Cursor.ExpectCrlfAt` | parser.go:127-135 | `\r\n` followed by anything is consumed as exactly two bytes |
| `Cursor.ReadUntilDelimiterLocal` | parser.go:107-125 | a successful token read depends only on the bytes it consumed and the delimiter after them |
| `Cursor.ReadUint16Local` | parser.go:19-47 | a successful port read depends only on its digits and the byte after them |
| `Cursor.ReadUntilCrlfLocal` | parser.go:80-105 | a successful skip to `\r\n` depends only on the bytes it consumed |
| `Cursor.ExpectCrlfLocal` | parser.go:127-135 | a successful `\r\n` check depends only on the two bytes it consumed |
| `StreamParser.Parser.constructor` | parser.go:15-17 | a new parser over the pending bytes has consumed nothing |
| `StreamParser.Parser.PeekNextByte` | parser.go:49-55 | computes `Cursor.Peek`; the method has no `modifies`, so the position cannot change |
| `StreamParser.Parser.NextByte` | parser.go:71-78 | computes `Cursor.Next` and moves the position to where it says |
| `StreamParser.Parser.ReadBytes` | parser.go:57-69 | its loop computes `Cursor.ReadBytes` |
| `StreamParser.Parser.ReadUint16` | parser.go:19-47 | its loop computes `Cursor.ReadUint16` |
| `StreamParser.Parser.ReadUntilCRLF` | parser.go:80-105 | its loop computes `Cursor.ReadUntilCrlf`, the leftmost `\r\n` |
| `StreamParser.Parser.ReadUntilDelimiter` | parser.go:107-125 | its loop computes `Cursor.ReadUntilDelimiter` |
| `StreamParser.Parser.ExpectCRLF` | parser.go:127-135 | two `ExpectByte` calls compute `Cursor.ExpectCrlf` |
| `StreamParser.Parser.ExpectByte` | parser.go:137-146 | computes `Cursor.ExpectByte` |
| `BufferLexer.Lexer.constructor` | lexer.go:14-16 | a new lexer starts at index 0 |
| `BufferLexer.Lexer.ReadUint16` | lexer.go:18-48 | its loop computes `Cursor.ReadUint16` over `buffer[start:idx]` and keeps the index within the buffer |
| `BufferLexer.Lexer.PeekNextByte` | lexer.go:50-55 | computes `Cursor.Peek`: `Eof` exactly when the index is at the end; the index never changes |
| `BufferLexer.Lexer.ReadBytes` | lexer.go:57-69 | its loop computes `Cursor.ReadBytes` |
| `BufferLexer.Lexer.NextByte` | lexer.go:71-78 | computes `Cursor.Next`: the index goes up by one, or stays at the end with `Eof` |
| `BufferLexer.Lexer.ReadUntilByteSequence` | lexer.go:80-95 | its restart loop computes `Cursor.ReadUntilByteSequence`, restarting after the mismatched byte as written |
| `BufferLexer.Lexer.ReadUntilDelimiter` | lexer.go:97-114 | its loop computes `Cursor.ReadUntilDelimiter`: `buffer[start:idx]` with the delimiter at `idx` left unread |
| `BufferLexer.Lexer.ExpectCRLF` | lexer.go:116-124 | two `ExpectByte` calls compute `Cursor.ExpectCrlf` |
| `BufferLexer.Lexer.ExpectByte` | lexer.go:126-135 | computes `Cursor.ExpectByte` |
| `IPv4.Parse` | proxyprotocol.go:121-124 | `net.ParseIP` on an IPv4 literal: a scanner that accepts only digits and dots; `ParseIffFormat` shows it accepts exactly the printed dotted quads and returns their address |
| `IPv4.Format` | proxyprotocol.go:48-49 | the printed address consists only of digits and dots |
| `IPv4.ParseFormat` | proxyprotocol.go:121-124 | every IPv4 address parses back from its dotted quad |
| `IPv4.FormatParse` | proxyprotocol.go:121-124 | whatever parses is exactly the dotted quad of the parsed address, so no leading zeros, no octet above 255, exactly four fields |
| `IPv4.ParseIffFormat` | proxyprotocol.go:136-139 | a literal parses to an address exactly when it is that address's dotted quad |
| `ProxyProtocol.WriteHeader` | proxyprotocol.go:42-62 | succeeds exactly for version 1, and the bytes then start with `PROXY ` and end with `\r\n`; version 2 is the unimplemented branch; any other version fails with `InvalidHeader` and writes nothing |
| `ProxyProtocol.IsValidInetProtocolAndFamily` | proxyprotocol.go:178-180 | a valid family (`TCP4`, `TCP6` or `UNKNOWN`) is a single token of 4 to 7 bytes with no space and no line end, so the space-delimited read returns it whole |
| `ProxyProtocol.IPString` | proxyprotocol.go:48-49 | `IP.String()` prints the dotted quad of an address and `<nil>` for a nil one; what it prints parses back to the same address, and `<nil>` parses to nil |
| `ProxyProtocol.V1Line` | proxyprotocol.go:45-52 | the `Sprintf` line starts with `PROXY ` and ends with `\r\n`; `RoundTrip` shows that the decoder reads the header back from it |
| `ProxyProtocol.IsProtocolVersion1` | proxyprotocol.go:182-188 | fails with `Eof` exactly when fewer than five bytes are left; otherwise says whether they are `PROXY` |
| `ProxyProtocol.Decode` | proxyprotocol.go:64-176 | never reads past the input; every error comes with `Header{}`; nothing is consumed exactly when the input does not start with `PROXY`, and that case is `InvalidHeader`; a success is version 1 with a known family. `TcpLine`, `UnknownCarveOut`, `TcpAccepted` and `UnknownAccepted` pin down which lines it accepts, in both directions |
| `ProxyProtocol.DecodeUnknown` | proxyprotocol.go:98-109 | after `UNKNOWN` the decoder stops right after the first `\r\n` and returns the zero-address `UNKNOWN` header; with no `\r\n` left it fails with `InvalidHeader`, having consumed the whole input |
| `ProxyProtocol.ParseProtocolHeader` | proxyprotocol.go:64-176 | the imperative decoder returns exactly the header, the error and the consumed count that the grammar `Decode` gives |
| `ProxyProtocol.ParseAddresses` | proxyprotocol.go:116-129 | from the source address on, computes the `DecodeAddresses` stage of the grammar |
| `ProxyProtocol.ParseDestAddress` | proxyprotocol.go:131-144 | from the destination address on, computes the `DecodeDestAddress` stage |
| `ProxyProtocol.ParsePorts` | proxyprotocol.go:146-172 | the two ports and the closing `\r\n` compute the `DecodePorts` stage |
| `HeaderProperties.DecodeShape` | proxyprotocol.go:64-176 | every decode consumes at most the input; a failure returns `Header{}`; a success has version 1, a known family, ports in 0..65535, ends right after a `\r\n`, starts with `PROXY`, and for `UNKNOWN` has zero addresses |
| `HeaderProperties.SignatureRequired` | proxyprotocol.go:68-71 | input whose first five bytes are not `PROXY`, the empty input included, fails with `InvalidHeader` and consumes nothing |
| `HeaderProperties.FamilyMustBeKnown` | proxyprotocol.go:89-96 | a family token other than `TCP4`, `TCP6` and `UNKNOWN` fails with `InvalidHeader` right after the token |
| `HeaderProperties.UnknownNeedsTrailingSpace` | proxyprotocol.go:88-92 | `PROXY UNKNOWN\r\n` followed by bytes without a space fails with `Eof`, having consumed everything |
| `HeaderProperties.UnknownCarveOut` | proxyprotocol.go:98-109 | `PROXY UNKNOWN ` then any bytes without `\r\n`, then `\r\n`, decodes to version 1, `UNKNOWN`, zero addresses, and stops right after that `\r\n` |
| `HeaderProperties.UnknownUnterminated` | proxyprotocol.go:98-101 | `PROXY UNKNOWN ` followed by bytes without `\r\n` fails with `InvalidHeader` and the zero header, having consumed the whole input |
| `HeaderProperties.DecodeAddressesShape` | proxyprotocol.go:116-172 | the TCP stages consume at most the input, return `Header{}` on failure, and on success end after a `\r\n` with both addresses present and ports in range |
| `HeaderProperties.TcpLine` | proxyprotocol.go:116-172 | a line `PROXY <TCP4 or TCP6> x y p1 p2\r\n` with IPv4 literals x, y and ports of at most 65535 (leading zeros allowed) decodes to version 1, that family, those addresses and ports, consuming exactly the line; the family is not cross-checked |
| `HeaderProperties.TcpAccepted` | proxyprotocol.go:110-172 | the converse of `TcpLine`: whatever the decoder accepts as `TCP4` or `TCP6` consumed exactly `PROXY`, the family, the printed forms of both addresses and two numerals of at most 65535 that denote the ports, separated by single spaces, then `\r\n` |
| `HeaderProperties.UnknownAccepted` | proxyprotocol.go:97-109 | the converse of `UnknownCarveOut`: whatever the decoder accepts as `UNKNOWN` has zero addresses and consumed exactly `PROXY UNKNOWN `, bytes without `\r\n`, then `\r\n` |
| `HeaderProperties.RoundTrip` | proxyprotocol.go:42-172 | decoding the bytes `WriteHeader` writes for a version 1 `TCP4` or `TCP6` header, followed by any payload, gives the header back and consumes exactly the header bytes |
| `HeaderProperties.DecodeLocal` | proxyprotocol.go:161-172 | a successful decode depends only on the bytes it consumed |
| `HeaderProperties.DecodeIgnoresPayload` | proxyprotocol.go:161-172 | replacing everything after the consumed bytes by any payload leaves the decode unchanged: no payload byte is swallowed |
| `HeaderTruncation.TokenCut` | parser.go:107-125 | a token read cut short by the end of input, with no space in it, consumes everything and fails with `Eof` |
| `HeaderTruncation.DigitsCut` | parser.go:19-47 | a non-empty prefix of a port numeral at the end of input is read whole and parses, so the failure comes later, at the next byte expected |
| `HeaderTruncation.DestPortCut` | proxyprotocol.go:156-164 | input that ends inside the destination port or its `\r\n` is consumed whole; the error is `BadNumber` when nothing of the port is left, and `Eof` otherwise |
| `HeaderTruncation.PortsCut` | proxyprotocol.go:146-164 | input that ends inside the ports is consumed whole; `BadNumber` exactly where a port should begin, `Eof` everywhere else |
| `HeaderTruncation.DestAddressCut` | proxyprotocol.go:131-164 | input that ends inside the destination address or after it is consumed whole; `Eof` inside the address, then as `PortsCut` |
| `HeaderTruncation.AddressesCut` | proxyprotocol.go:116-164 | input that ends anywhere after the family's space is consumed whole; `BadNumber` exactly after the space that follows the destination address or the source port, `Eof` everywhere else |
| `HeaderTruncation.FamilyCut` | proxyprotocol.go:83-92 | input that ends right after `PROXY` or inside the family token fails with `Eof`, consumed whole |
| `HeaderTruncation.TcpCut` | proxyprotocol.go:64-164 | every cut of a `TCP4` or `TCP6` line from the fifth byte on is consumed whole and fails with `BadNumber` at the two places where a port should begin and with `Eof` everywhere else |
| `HeaderTruncation.UnknownCut` | proxyprotocol.go:83-101 | every cut of an `UNKNOWN` line from the fifth byte on is consumed whole and fails with `Eof` before the space after `UNKNOWN` and with `InvalidHeader` from that space on |
| `HeaderTruncation.TruncatedHeaderRejected` | proxyprotocol.go:64-164 | input cut anywhere before the end of an accepted header is rejected: below five bytes with `InvalidHeader` and nothing consumed; otherwise consumed whole, with `Eof` or `InvalidHeader` for `UNKNOWN` as `UnknownCut` says and `BadNumber` (the cut ends in the space before a port) or `Eof` for `TCP4` and `TCP6` |
| `HeaderVectors.TcpLineOf` | proxyprotocol.go:116-172 | a line built from two printed IPv4 addresses and two printed ports of at most 65535, after `TCP4` or `TCP6`, decodes to exactly that header and is consumed whole |
| `HeaderVectors.UnknownLineOf` | proxyprotocol.go:98-109 | a line `PROXY UNKNOWN` followed by two addresses and two ports decodes to the `UNKNOWN` header with zero addresses and is consumed whole |
| `HeaderVectors.ValidTcp4Header` | proxyprotocol_test.go:107-122 | `PROXY TCP4 255.255.255.255 255.255.255.254 65535 65534\r\n` decodes to version 1, `TCP4`, those two addresses and ports, with no error, consuming all 56 bytes |
| `HeaderVectors.ValidUnknownHeader` | proxyprotocol_test.go:124-134 | the same line with `UNKNOWN` decodes to version 1, `UNKNOWN`, zero addresses, with no error, consuming all 59 bytes |
| `HeaderVectors.EmptyHeader` | proxyprotocol_test.go:96-106 | the empty input fails with `InvalidHeader`, the zero header, nothing consumed |
| `HeaderVectors.InvalidSignature` | proxyprotocol_test.go:135-145 | `ANYTHING_THATS_NOT_PROXY ...` fails with `InvalidHeader`, the zero header, nothing consumed |
| `HeaderVectors.WriteVersion1` | proxyprotocol_test.go:34-50 | a version 1 `TCP6` header for 127.0.0.1:8080 and 127.0.0.2:8081 writes `PROXY TCP6 127.0.0.1 127.0.0.2 8080 8081\r\n` with no error |
| `HeaderVectors.WriteVersion3` | proxyprotocol_test.go:51-67 | version 3 writes nothing and fails with `InvalidHeader` |

## Left out

- Version 2. `WriteHeader` panics for it in the source; the model returns
  `Unimplemented` with nothing written. There is no version 2 decoder to model.
- The `io.Writer` of `WriteHeader`. The model returns the bytes handed to it; a write
  error from the writer is not modelled.
- `bufio.Reader` internals. The reader is the sequence of bytes it has yet to deliver.
  Buffering, blocking reads and reader errors other than end of input are not
  modelled, so the source's branches that return a non-EOF reader error are absent.
- IPv4.Parse: models `net.ParseIP` for IPv4 dotted quads only. IPv6 literals and the
  IPv4-in-IPv6 forms that Go accepts are rejected by the model, so a `TCP6` line with
  IPv6 addresses fails in the model where the source accepts it.
- IPv4.Format: models `net.IP.String()` for IPv4 addresses and for a nil address
  (`<nil>`) only.
- Error wrapping and message text (`fmt.Errorf`). Only the kind of the wrapped error
  is kept.
- ProxyProtocol.Decode: for input shorter than five bytes, the source's error wraps
  both `io.EOF` (from the failed peek) and `ErrInvalidProtocolHeader`, so it matches
  `errors.Is` for either. The model keeps only `InvalidHeader` and loses the
  end-of-input signal in this one case.
- The listener adapter (`ListenerAdapter`, `connAdapter`): deadlines, forwarding and
  closing are network plumbing. Its concern that no header byte leaks into the payload
  is stated instead by `DecodeIgnoresPayload` and the consumed count.
- The 108-byte maximum header length: declared in the source and never enforced.

## Findings

| source | as written | input that shows it | evidently intended | confidence | as-written member | corrected member |
|---|---|---|---|---|---|---|
| lexer.go:81-91 | after a mismatch, `readUntilByteSequence` restarts matching at the byte after the mismatched one | `\r\r\n` searched for `\r\n` fails with `Eof` | find the first occurrence, as the stream cursor's `readUntilCRLF` does | high; not executed | `Cursor.RestartScanMissesOverlap` | `Cursor.FirstOccurrenceFindsOverlap` |
