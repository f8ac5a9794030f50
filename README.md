# ct-submit: the binary SCT encoder, in Dafny

`ct-submit` sends a PEM certificate chain to a Certificate Transparency log
and writes the log's answer, a Signed Certificate Timestamp (SCT), to
standard output as the binary `SignedCertificateTimestamp` structure of
section 3.2 of RFC 6962. The structure is written in the TLS presentation
language of section 4 of RFC 5246:

    version (1) | log id (verbatim) | timestamp (8, big-endian) |
    extensions length (2, big-endian) | extensions | signature (verbatim, rest)

This project models the encoder `signedCertificateTimestamp.Write` and the
normalisation of the log server argument in `main`, and proves properties
of both.

Modules:

- `BigEndian` (big_endian.dfy): Go's `uint8`, `uint16` and `int64`, and the
  big-endian bytes `binary.Write` emits for them. Two's complement is
  written out (`Unsigned64`, `Signed64`).
- `Sinks` (sinks.dfy): the `io.Writer`, as a class `Sink` whose `data`
  field each `Write` extends. A sink is unbounded (standard output) or has a
  fixed capacity. A write that does not fit stores what fits and reports a
  short write, as Go's `io.Writer` contract allows.
- `Sct` (sct.dfy): the log's JSON answer `SignedCertificateTimestamp`, with
  base64 text in three fields. `Write` streams the structure to a sink.
  `Encode` is the specification function for what `Write` emits and the
  error it stops with. `Layout` and `Parse` are the reference definition of
  the wire format and its reader.
- `LogServerUrl` (log_server_url.dfy): `strings.Contains`/`HasSuffix` and
  the two rewrites of the log server argument.

Base64 decoding (`base64.StdEncoding.DecodeString`) is a library call. It
is a parameter `decode: string -> Option<seq<byte>>` of `Encode` and
`Write`, with `None` standing for a decode error. Every property holds for
every decoder.

`Write` is proved against `Encode`: the sink ends up holding its old bytes
followed by `Delivered(Encode(decode), room).bytes`, and the result is that
output's error. `Delivered` cuts the output at the room the sink had, and
an unbounded sink gets `Encode`'s output unchanged. The properties of the
encoding are then lemmas about `Encode`, `Layout` and `Parse`.

Facts about the code that the model keeps:

- The log id is written with no check that it has 32 bytes, so the model
  has no such check either. `Parse` therefore needs the log id's length as
  an argument.
- On every error the bytes already written stay in the sink. The model
  states exactly which bytes those are for each error.
- A structure with version 0, a 32-byte zero log id, timestamp 10^12, no
  extensions and signature `DE AD BE EF` has 1 + 32 + 8 + 2 + 0 + 4 = 47
  bytes (`Sct.LayoutExample`, `Sct.EncodeExample`).

## Model

| member | source | states |
|---|---|---|
| `Sct.SignedCertificateTimestamp.Write` | ct-submit.go:46-100 | the sink gets its old bytes plus `Encode`'s output, cut where a short write stopped it; the returned error is `Encode`'s (or a short write); a decode or length error keeps the earlier writes |
| `Sct.SignedCertificateTimestamp.Encode` | ct-submit.go:46-100 | the bytes the encoder emits and the error it stops with; these always start with the version byte |
| `Sct.SignedCertificateTimestamp.Decoded` | ct-submit.go:52-92 | decoding succeeds iff the log id, extensions and signature all decode and the extensions have at most 65535 bytes; the fields are then the version, the decoded log id, the timestamp, the decoded extensions and the decoded signature |
| `Sct.WriteToStandardOutput` | ct-submit.go:191-194 | writing to standard output, which has unlimited room, yields exactly `Encode`'s bytes and error |
| `Sct.WriteChunk` | ct-submit.go:58-61 | one write call: on success the sink holds one more chunk of the output; on a short write it holds the output cut at the room it had |
| `Sct.Layout` | ct-submit.go:47-97 | the wire layout has `1 + |logId| + 8 + 2 + |ext| + |sig|` bytes, starts with the version, then the log id verbatim, and ends with the signature verbatim |
| `Sct.Parse` | ct-submit.go:47-97 | a parsed structure has a log id of the given length and extensions that fit the prefix |
| `Sct.ParseLayout` | ct-submit.go:47-97 | slicing a laid-out structure using the log id length gets back version, log id, timestamp, extensions (via the 2-byte prefix) and signature |
| `Sct.LayoutParse` | ct-submit.go:47-97 | every byte string that parses is exactly the layout of what it parses to, so the format is canonical |
| `Sct.EncodeMatchesLayout` | ct-submit.go:46-100 | the encoder succeeds iff all three fields decode and the extensions have at most 65535 bytes; its output is then the layout of the version, decoded log id, timestamp, decoded extensions and decoded signature; otherwise the error is `Decoded`'s |
| `Sct.EncodedLength` | ct-submit.go:47-97 | on success the encoder emits `1 + |logID| + 8 + 2 + |ext| + |sig|` bytes |
| `Sct.EncodeRoundTrip` | ct-submit.go:47-97 | on success, parsing the output with the log id's length gives back the version, the decoded log id, the timestamp, the decoded extensions and the decoded signature |
| `Sct.InvalidLogId` | ct-submit.go:52-56 | a log id that is not base64 leaves only the version byte |
| `Sct.InvalidExtensions` | ct-submit.go:68-72 | extensions that are not base64 leave the version, log id and timestamp |
| `Sct.TooLongExtensions` | ct-submit.go:74-77 | extensions over 65535 bytes fail with the too-long error; the output is then exactly version, log id and timestamp, with no length prefix, no extension bytes and no signature |
| `Sct.InvalidSignature` | ct-submit.go:88-92 | a signature that is not base64 leaves everything except the signature |
| `Sct.ExtensionsLengthPrefix` | ct-submit.go:74-83 | extensions of up to 65535 bytes are accepted; the two bytes after the timestamp decode to their exact length; 65535 is written `FF FF` |
| `Sct.LayoutExample` | ct-submit.go:47-97 | the layout of the worked example is version 0, 32 zero bytes, then `00 00 00 E8 D4 A5 10 00`, `00 00` and `DE AD BE EF`: 47 bytes |
| `Sct.EncodeExample` | ct-submit.go:46-100 | with a decoder giving 32 zero bytes, no bytes and `DE AD BE EF` for the three fields, the encoder succeeds and emits exactly those 47 bytes |
| `Sct.DeliveredUnbounded` | ct-submit.go:192 | a sink with unlimited room receives the encoder's output unchanged |
| `Sct.Delivered` | ct-submit.go:48-97 | a sink receives a prefix of the output, of exactly as many bytes as it accepts; it reports success only if it received all of it, and a short write whenever it was cut |
| `Sct.ShortWriteDelivers` | ct-submit.go:58-61 | a write cut short after earlier whole writes leaves exactly the first `room` bytes of the output |
| `Sinks.Sink.Write` | ct-submit.go:58 | `w.Write(p)` appends the longest prefix of `p` that fits; it reports failure exactly when that prefix is shorter than `p` |
| `Sinks.Accepted` | ct-submit.go:58 | a sink accepts the whole chunk iff it is unbounded or the chunk fits its room; otherwise it accepts exactly its room |
| `BigEndian.ToBytes` | ct-submit.go:64 | the big-endian encoding at a width has exactly that many bytes |
| `BigEndian.FromBytes` | ct-submit.go:64 | a big-endian number read from `k` bytes is below `256^k` |
| `BigEndian.FromToBytes` | ct-submit.go:64 | reading back the encoding of a number that fits the width gives the number |
| `BigEndian.ToFromBytes` | ct-submit.go:64 | encoding a read-back number at the original width gives the original bytes |
| `BigEndian.Int64Bytes` | ct-submit.go:64 | `binary.Write` of an int64 emits exactly 8 bytes (their values are pinned by `Int64RoundTrip` and `Int64BytesOfParse`) |
| `BigEndian.Uint16Bytes` | ct-submit.go:79 | `binary.Write` of a uint16 emits exactly 2 bytes (their values are pinned by `Uint16RoundTrip` and `Uint16BytesOfParse`) |
| `BigEndian.Unsigned64` | ct-submit.go:64 | the two's-complement unsigned view of an int64 is below 2^64 and congruent to it modulo 2^64 |
| `BigEndian.Signed64` | ct-submit.go:64 | the signed view of a 64-bit unsigned value is congruent to it modulo 2^64 |
| `BigEndian.Int64RoundTrip` | ct-submit.go:64 | the 8 timestamp bytes read back as an int64 give the original timestamp, negative ones included |
| `BigEndian.Int64BytesOfParse` | ct-submit.go:64 | every 8-byte string is the encoding of the int64 it reads as |
| `BigEndian.Int64BytesOfOne` | ct-submit.go:64 | timestamp 1 is written `00 00 00 00 00 00 00 01` |
| `BigEndian.Int64BytesOfTrillion` | ct-submit.go:64 | timestamp 10^12 is written `00 00 00 E8 D4 A5 10 00` |
| `BigEndian.Int64BytesOfMinusOne` | ct-submit.go:64 | timestamp -1 is written as eight `FF` bytes (two's complement) |
| `BigEndian.Uint16RoundTrip` | ct-submit.go:79 | the 2-byte length prefix reads back as the exact length |
| `BigEndian.Uint16BytesOfParse` | ct-submit.go:79 | every 2-byte string is the prefix of the length it reads as |
| `BigEndian.Uint16BytesExamples` | ct-submit.go:79 | lengths 0, 65535 and 0x1234 are written `00 00`, `FF FF` and `12 34` |
| `LogServerUrl.Normalize` | ct-submit.go:150-156 | the result always contains `://` and ends with `/`; it starts with the argument, or with `https://` and the argument when the argument had no `://`; at most 9 characters are added |
| `LogServerUrl.NormalizeKeepsNormalized` | ct-submit.go:150-156 | an argument that already contains `://` and ends with `/` is unchanged |
| `LogServerUrl.NormalizeIdempotent` | ct-submit.go:150-156 | normalising twice is the same as normalising once |
| `LogServerUrl.NormalizeAddsOnlyWhatIsMissing` | ct-submit.go:150-156 | the result is the argument, with `https://` prepended exactly when it lacks `://`, and possibly `/` appended; an argument ending in `/` gets no slash appended |
| `LogServerUrl.NormalizeBareHost` | ct-submit.go:150-156 | a host name with no colon and no trailing slash becomes `https://` + host + `/` |
| `LogServerUrl.NormalizeEmpty` | ct-submit.go:150-156 | the empty argument becomes `https://`, which already ends with a slash, so no slash is appended |
| `LogServerUrl.Contains` | ct-submit.go:150 | `strings.Contains`: a contained string is no longer than the text, and the empty string is contained in every text |
| `LogServerUrl.HasSuffix` | ct-submit.go:154 | `strings.HasSuffix`: when it holds, the text is some text followed by the suffix |
| `LogServerUrl.ContainsIffOccurs` | ct-submit.go:150 | `strings.Contains` holds iff the substring occurs at some index |
| `LogServerUrl.ContainsAppend` | ct-submit.go:154-156 | appending text keeps a substring occurrence, so the appended slash keeps `://` |
| `LogServerUrl.SchemeHasSeparator` | ct-submit.go:150-152 | `https://` followed by anything contains `://` |
| `LogServerUrl.NoColonNoSeparator` | ct-submit.go:150 | text without a colon does not contain `://` |

## Left out

- Base64 decoding itself (RFC 4648) is not modelled. `decode` is an arbitrary function, so nothing depends on what it accepts.
- The JSON decoding of the log's answer into the record (ct-submit.go:180-189) is not modelled; the record is the input.
- Reading the chain from standard input, PEM block scanning and the add-chain JSON payload (ct-submit.go:121-147) are left out. They are process I/O and calls into `encoding/pem` and `encoding/json`.
- Resolving `ct/v1/add-chain` against the normalised URL (`net/url`, ct-submit.go:158-166) is left out. It is a foreign library.
- The HTTP POST and the status check (ct-submit.go:168-178) are network I/O and are left out.
- Argument checking, `os.Exit` and `panic` (ct-submit.go:103-119, 192-194) are left out. `Sct.WriteToStandardOutput` returns the error instead of panicking.
- Sct.WriteToStandardOutput: treats standard output as having unlimited room. In the program `os.Stdout.Write` can fail (a closed pipe, a full disk), and ct-submit.go:193 then panics. A failing standard output is covered only by `Write` on a bounded sink.
- Sct.SignedCertificateTimestamp.Encode: reports a base64 error as `InvalidBase64(field)`. At ct-submit.go:53, 69 and 89 the program returns `base64.CorruptInputError`, which holds the offset of the bad input and does not name the field. The model adds the field and drops the offset.
- Sct.TooLongExtensions: the model's `ExtensionsTooLong(length)` carries the decoded length. The program returns `errors.New("extensions are too long")` (ct-submit.go:76), which carries no length.
- A sink write failure is modelled as a capacity-bounded sink. Other `io.Writer` failures (an error after a full write, or fewer bytes than fit) are not modelled.
- `strings.Contains` and `strings.HasSuffix` work on the argument's bytes in Go. The model works on `seq<char>`. Both separators are ASCII, so this changes nothing.
- The SCT signature is not verified by the program, so nothing about it is modelled.
