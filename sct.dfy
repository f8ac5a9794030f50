/**
  The binary `SignedCertificateTimestamp` structure of section 3.2 of
  RFC 6962, written in the TLS presentation language (section 4 of
  RFC 5246):

    version (1 byte) | log id (verbatim) | timestamp (8 bytes, big-endian)
    | extensions length (2 bytes, big-endian) | extensions | signature (rest)

  `SignedCertificateTimestamp` is the log server's JSON response, with the
  log id, extensions and signature still in base64 text; `Write` decodes
  them one by one and streams the structure to a sink, stopping at the
  first error without undoing what it already wrote.
 */
module Sct {
  import opened Wrappers
  import opened BigEndian
  import opened Sinks

  /** The standard base64 decoder (`base64.StdEncoding.DecodeString`): `None` on malformed text. */
  type Base64Decoder = string -> Option<seq<byte>>

  /** The three fields that arrive in base64. */
  datatype Field = LogIdField | ExtensionsField | SignatureField

  datatype WriteError =
    | InvalidBase64(field: Field)        // the decoder rejected the field's text
    | ExtensionsTooLong(length: nat)     // "extensions are too long"
    | ShortWrite                         // the sink did not accept a whole write

  /** Everything the encoder hands to the sink, and the error it stops with (`None`: it returned nil). */
  datatype Output = Output(bytes: seq<byte>, failure: Option<WriteError>)

  /** The largest count a `uint16` length prefix holds. */
  const MaxExtensionsLength: nat := 65535

  /** A decoded SCT: the structure's five fields as raw values. */
  datatype Fields = Fields(version: uint8, logId: seq<byte>, timestamp: int64,
                           extensions: seq<byte>, signature: seq<byte>)

  /** The decoded fields, or the error that stopped the decoding. */
  datatype Result = Ok(fields: Fields) | Err(error: WriteError)

  /** The structure can carry these extensions in its 16-bit length prefix. */
  predicate Representable(f: Fields) {
    |f.extensions| <= MaxExtensionsLength
  }

  /** The wire layout of a decoded SCT (the reference definition of the format). */
  function Layout(f: Fields): (r: seq<byte>)
    requires Representable(f)
    ensures |r| == 1 + |f.logId| + 8 + 2 + |f.extensions| + |f.signature|
    ensures r[0] == f.version
    ensures r[1..1 + |f.logId|] == f.logId
    ensures r[|r| - |f.signature|..] == f.signature
  {
    [f.version] + f.logId + Int64Bytes(f.timestamp)
      + Uint16Bytes(|f.extensions|) + f.extensions + f.signature
  }

  /**
    Reads a structure back, given the log id's length (which the format
    does not carry): `None` when the bytes are too short for the fields
    or for the extensions their prefix announces.
   */
  function Parse(b: seq<byte>, logIdLength: nat): (r: Option<Fields>)
    ensures r.Some? ==> |r.value.logId| == logIdLength && Representable(r.value)
  {
    var head := 1 + logIdLength + 8 + 2;
    if |b| < head then None
    else
      var n := FromBytes(b[head - 2..head]);
      if |b| < head + n then None
      else Some(Fields(b[0], b[1..1 + logIdLength], ParseInt64(b[1 + logIdLength..head - 2]),
                       b[head..head + n], b[head + n..]))
  }

  /** Parsing a laid-out structure recovers every field. */
  lemma ParseLayout(f: Fields)
    requires Representable(f)
    ensures Parse(Layout(f), |f.logId|) == Some(f)
  {
    var b, k := Layout(f), |f.logId|;
    var head := 1 + k + 8 + 2;
    assert b[1 + k..head - 2] == Int64Bytes(f.timestamp);
    assert b[head - 2..head] == Uint16Bytes(|f.extensions|);
    Int64RoundTrip(f.timestamp);
    Uint16RoundTrip(|f.extensions|);
    assert b[head..head + |f.extensions|] == f.extensions;
    assert b[head + |f.extensions|..] == f.signature;
  }

  /** The format is canonical: whatever parses is exactly the layout of what it parses to. */
  lemma LayoutParse(b: seq<byte>, logIdLength: nat)
    requires Parse(b, logIdLength).Some?
    ensures Layout(Parse(b, logIdLength).value) == b
  {
    var f := Parse(b, logIdLength).value;
    var head := 1 + logIdLength + 8 + 2;
    Int64BytesOfParse(b[1 + logIdLength..head - 2]);
    Uint16BytesOfParse(b[head - 2..head]);
    assert b == [b[0]] + b[1..1 + logIdLength] + b[1 + logIdLength..head - 2]
      + b[head - 2..head] + b[head..head + |f.extensions|] + b[head + |f.extensions|..];
  }

  datatype SignedCertificateTimestamp =
    SignedCertificateTimestamp(version: uint8, logId: string, timestamp: int64,
                               extensions: string, signature: string)
  {
    /**
      The fields decoded, or the error the encoder meets first: the log id's
      base64, then the extensions' base64, then their length, then the
      signature's base64.
     */
    function Decoded(decode: Base64Decoder): (r: Result)
      ensures r.Ok? <==>
        && decode(logId).Some? && decode(extensions).Some?
        && |decode(extensions).value| <= MaxExtensionsLength && decode(signature).Some?
      ensures r.Ok? ==>
        && Representable(r.fields) && r.fields.version == version && r.fields.timestamp == timestamp
        && r.fields.logId == decode(logId).value && r.fields.extensions == decode(extensions).value
        && r.fields.signature == decode(signature).value
    {
      match decode(logId)
      case None => Err(InvalidBase64(LogIdField))
      case Some(id) =>
        match decode(extensions)
        case None => Err(InvalidBase64(ExtensionsField))
        case Some(ext) =>
          if |ext| > MaxExtensionsLength then Err(ExtensionsTooLong(|ext|))
          else
            match decode(signature)
            case None => Err(InvalidBase64(SignatureField))
            case Some(sig) => Ok(Fields(version, id, timestamp, ext, sig))
    }

    /** What `Write` hands to a sink that takes everything, and how it ends. */
    function Encode(decode: Base64Decoder): (o: Output)
      ensures |o.bytes| >= 1 && o.bytes[0] == version
    {
      var head := [version as byte];
      match decode(logId)
      case None => Output(head, Some(InvalidBase64(LogIdField)))
      case Some(id) =>
        var head := head + id + Int64Bytes(timestamp);
        match decode(extensions)
        case None => Output(head, Some(InvalidBase64(ExtensionsField)))
        case Some(ext) =>
          if |ext| > MaxExtensionsLength then Output(head, Some(ExtensionsTooLong(|ext|)))
          else
            var head := head + Uint16Bytes(|ext|) + ext;
            match decode(signature)
            case None => Output(head, Some(InvalidBase64(SignatureField)))
            case Some(sig) => Output(head + sig, None)
    }

    /**
      `sct.Write(w)`: writes the version, the decoded log id, the timestamp,
      the extensions' length and bytes and the decoded signature, in that
      order, returning at the first error with the earlier writes in place.
     */
    method Write(w: Sink, decode: Base64Decoder) returns (err: Option<WriteError>)
      requires w.Valid()
      modifies w
      ensures w.Valid()
      ensures var d := Delivered(Encode(decode), old(w.Room()));
        w.data == old(w.data) + d.bytes && err == d.failure
    {
      ghost var out := Encode(decode);
      ghost var start, room := w.data, w.Room();

      // Version: `binary.Write` of a uint8 is the one byte itself
      var ok := WriteChunk(w, [version], out, start, room, []);
      if !ok {
        return Some(ShortWrite);
      }

      // LogID
      var bytes := decode(logId);
      if bytes.None? {
        DeliveredWhole(out, room);
        return Some(InvalidBase64(LogIdField));
      }
      var id := bytes.value;
      ok := WriteChunk(w, id, out, start, room, [version]);
      if !ok {
        return Some(ShortWrite);
      }

      // Timestamp
      ok := WriteChunk(w, Int64Bytes(timestamp), out, start, room, [version] + id);
      if !ok {
        return Some(ShortWrite);
      }
      ghost var sent := [version] + id + Int64Bytes(timestamp);

      // Extensions
      bytes := decode(extensions);
      if bytes.None? {
        DeliveredWhole(out, room);
        return Some(InvalidBase64(ExtensionsField));
      }
      var ext := bytes.value;
      var length := |ext|;
      if length > MaxExtensionsLength {
        DeliveredWhole(out, room);
        return Some(ExtensionsTooLong(length));
      }
      ok := WriteChunk(w, Uint16Bytes(length), out, start, room, sent);
      if !ok {
        return Some(ShortWrite);
      }
      sent := sent + Uint16Bytes(length);
      ok := WriteChunk(w, ext, out, start, room, sent);
      if !ok {
        return Some(ShortWrite);
      }
      sent := sent + ext;

      // Signature
      bytes := decode(signature);
      if bytes.None? {
        DeliveredWhole(out, room);
        return Some(InvalidBase64(SignatureField));
      }
      ok := WriteChunk(w, bytes.value, out, start, room, sent);
      if !ok {
        return Some(ShortWrite);
      }
      DeliveredWhole(out, room);
      return None;
    }
  }

  /**
    The sink holds `start` followed by the `sent` bytes, and a sink that had
    `room` when the write began has what remains of it.
   */
  ghost predicate HoldsSent(w: Sink, start: seq<byte>, room: Option<nat>, sent: seq<byte>)
    reads w
  {
    && w.Valid()
    && w.data == start + sent
    && (room.None? ==> w.Room().None?)
    && (room.Some? ==> |sent| <= room.value && w.Room() == Some(room.value - |sent|))
  }

  /**
    One `w.Write` (or `binary.Write`) call of the encoder: `chunk` is the next
    part of the output `out`. On success the sink holds one more chunk; on a
    short write it holds what `Delivered` says.
   */
  method WriteChunk(w: Sink, chunk: seq<byte>, ghost out: Output, ghost start: seq<byte>,
                    ghost room: Option<nat>, ghost sent: seq<byte>) returns (ok: bool)
    requires HoldsSent(w, start, room, sent)
    requires sent + chunk <= out.bytes
    modifies w
    ensures w.Valid()
    ensures ok ==> HoldsSent(w, start, room, sent + chunk)
    ensures !ok ==> var d := Delivered(out, room);
      w.data == start + d.bytes && d.failure == Some(ShortWrite)
  {
    var n;
    n, ok := w.Write(chunk);
    if !ok {
      ShortWriteDelivers(out, room, sent, chunk, w.data[|start|..]);
    }
  }

  /**
    The program's last step, `sct.Write(os.Stdout)`: standard output never
    runs out of room, so it receives exactly the encoder's output.
   */
  method WriteToStandardOutput(sct: SignedCertificateTimestamp, decode: Base64Decoder)
    returns (written: seq<byte>, err: Option<WriteError>)
    ensures written == sct.Encode(decode).bytes && err == sct.Encode(decode).failure
  {
    var stdout := new Sink(None);
    err := sct.Write(stdout, decode);
    DeliveredUnbounded(sct.Encode(decode));
    written := stdout.data;
  }

  /**
    What a sink with the given room ends up holding when `o` is written to
    it chunk by chunk: everything, or the first `room` bytes and a short
    write.
   */
  function Delivered(o: Output, room: Option<nat>): (d: Output)
    ensures d.bytes <= o.bytes
    ensures |d.bytes| == Accepted(room, |o.bytes|)
    ensures d.failure.None? ==> d == o
    ensures |d.bytes| < |o.bytes| ==> d.failure == Some(ShortWrite)
  {
    var n := Accepted(room, |o.bytes|);
    if n == |o.bytes| then o else Output(o.bytes[..n], Some(ShortWrite))
  }

  /** When the whole output fits, the sink receives all of it and the encoder's own verdict. */
  lemma DeliveredWhole(o: Output, room: Option<nat>)
    requires room.Some? ==> |o.bytes| <= room.value
    ensures Delivered(o, room) == o
  {
  }

  /** A write of `chunk` after `sent` that was cut short leaves the first `room` bytes of the output. */
  lemma ShortWriteDelivers(o: Output, room: Option<nat>, sent: seq<byte>, chunk: seq<byte>,
                           got: seq<byte>)
    requires sent + chunk <= o.bytes
    requires room.Some? && |sent| <= room.value
    requires var n := Accepted(Some(room.value - |sent|), |chunk|);
      n < |chunk| && got == sent + chunk[..n]
    ensures Delivered(o, room) == Output(got, Some(ShortWrite))
  {
    var k := room.value;
    assert k < |o.bytes|;
    assert o.bytes[..k] == (sent + chunk)[..k];
  }

  /** Unbounded sink (the program's standard output): it receives exactly what `Encode` says. */
  lemma DeliveredUnbounded(o: Output)
    ensures Delivered(o, None) == o
  {
  }

  /**
    `Write` succeeds exactly when every field decodes and the extensions fit
    the prefix; then the output is the structure's layout, otherwise the
    error is the first one met in field order.
   */
  lemma EncodeMatchesLayout(sct: SignedCertificateTimestamp, decode: Base64Decoder)
    ensures sct.Encode(decode).failure.None? <==> sct.Decoded(decode).Ok?
    ensures sct.Decoded(decode).Ok? ==> sct.Encode(decode).bytes == Layout(sct.Decoded(decode).fields)
    ensures sct.Decoded(decode).Err? ==> sct.Encode(decode).failure == Some(sct.Decoded(decode).error)
    ensures sct.Encode(decode).failure.None? <==>
      && decode(sct.logId).Some? && decode(sct.extensions).Some?
      && |decode(sct.extensions).value| <= MaxExtensionsLength && decode(sct.signature).Some?
    ensures sct.Encode(decode).failure.None? ==>
      sct.Encode(decode).bytes == Layout(Fields(sct.version, decode(sct.logId).value, sct.timestamp,
                                               decode(sct.extensions).value, decode(sct.signature).value))
  {
  }

  /**
    On success the output has `1 + |logId| + 8 + 2 + |extensions| + |signature|`
    bytes, for the decoded field values.
   */
  lemma EncodedLength(sct: SignedCertificateTimestamp, decode: Base64Decoder)
    requires sct.Encode(decode).failure.None?
    ensures decode(sct.logId).Some? && decode(sct.extensions).Some? && decode(sct.signature).Some?
    ensures |sct.Encode(decode).bytes| == 1 + |decode(sct.logId).value| + 8 + 2
      + |decode(sct.extensions).value| + |decode(sct.signature).value|
  {
    EncodeMatchesLayout(sct, decode);
  }

  /** On success, slicing the output with the log id's length recovers all decoded fields. */
  lemma EncodeRoundTrip(sct: SignedCertificateTimestamp, decode: Base64Decoder)
    requires sct.Encode(decode).failure.None?
    ensures decode(sct.logId).Some?
    ensures Parse(sct.Encode(decode).bytes, |decode(sct.logId).value|)
      == Some(Fields(sct.version, decode(sct.logId).value, sct.timestamp,
                     decode(sct.extensions).value, decode(sct.signature).value))
  {
    EncodeMatchesLayout(sct, decode);
    ParseLayout(sct.Decoded(decode).fields);
  }

  /** A log id that is not base64 stops the write after the version byte. */
  lemma InvalidLogId(sct: SignedCertificateTimestamp, decode: Base64Decoder)
    requires decode(sct.logId).None?
    ensures sct.Encode(decode) == Output([sct.version], Some(InvalidBase64(LogIdField)))
  {
  }

  /** Extensions that are not base64 leave the version, the log id and the timestamp. */
  lemma InvalidExtensions(sct: SignedCertificateTimestamp, decode: Base64Decoder)
    requires decode(sct.logId).Some? && decode(sct.extensions).None?
    ensures sct.Encode(decode) == Output([sct.version] + decode(sct.logId).value
      + Int64Bytes(sct.timestamp), Some(InvalidBase64(ExtensionsField)))
  {
  }

  /**
    Extensions longer than 65535 bytes are refused before their length
    prefix is written: no prefix, no extensions and no signature reach the sink.
   */
  lemma TooLongExtensions(sct: SignedCertificateTimestamp, decode: Base64Decoder)
    requires decode(sct.logId).Some? && decode(sct.extensions).Some?
    requires |decode(sct.extensions).value| > MaxExtensionsLength
    ensures sct.Encode(decode) == Output([sct.version] + decode(sct.logId).value
      + Int64Bytes(sct.timestamp), Some(ExtensionsTooLong(|decode(sct.extensions).value|)))
  {
  }

  /** A signature that is not base64 leaves everything but the signature. */
  lemma InvalidSignature(sct: SignedCertificateTimestamp, decode: Base64Decoder)
    requires decode(sct.logId).Some? && decode(sct.extensions).Some?
    requires |decode(sct.extensions).value| <= MaxExtensionsLength
    requires decode(sct.signature).None?
    ensures var ext := decode(sct.extensions).value;
      sct.Encode(decode) == Output([sct.version] + decode(sct.logId).value
        + Int64Bytes(sct.timestamp) + Uint16Bytes(|ext|) + ext, Some(InvalidBase64(SignatureField)))
  {
  }

  /**
    Extensions of up to 65535 bytes are accepted, and the two bytes after the
    timestamp give their exact length (65535 is written `FF FF`).
   */
  lemma ExtensionsLengthPrefix(sct: SignedCertificateTimestamp, decode: Base64Decoder)
    requires decode(sct.logId).Some? && decode(sct.extensions).Some? && decode(sct.signature).Some?
    requires |decode(sct.extensions).value| <= MaxExtensionsLength
    ensures sct.Encode(decode).failure.None?
    ensures var o, k := sct.Encode(decode).bytes, |decode(sct.logId).value|;
      |o| >= 11 + k && FromBytes(o[9 + k..11 + k]) == |decode(sct.extensions).value|
    ensures |decode(sct.extensions).value| == MaxExtensionsLength ==>
      var k := |decode(sct.logId).value|;
      sct.Encode(decode).bytes[9 + k..11 + k] == [0xFF, 0xFF]
  {
    var k, n := |decode(sct.logId).value|, |decode(sct.extensions).value|;
    var o := sct.Encode(decode).bytes;
    assert o[9 + k..11 + k] == Uint16Bytes(n);
    Uint16RoundTrip(n);
  }

  /**
    Version 0, an all-zero 32-byte log id, timestamp 10^12, no extensions
    and the signature `DE AD BE EF` give this 47-byte structure.
   */
  lemma LayoutExample()
    ensures var f := Fields(0, seq(32, _ => 0), 1_000_000_000_000, [], [0xDE, 0xAD, 0xBE, 0xEF]);
      Layout(f) == [0x00] + seq(32, _ => 0x00) + [0x00, 0x00, 0x00, 0xE8, 0xD4, 0xA5, 0x10, 0x00]
        + [0x00, 0x00] + [0xDE, 0xAD, 0xBE, 0xEF]
      && |Layout(f)| == 47
  {
    Int64BytesOfTrillion();
  }

  /**
    The same example through the encoder: a decoder that turns `"id"` into
    32 zero bytes, `""` into no bytes and `"sig"` into `DE AD BE EF` makes
    `Write` emit exactly those 47 bytes and succeed.
   */
  lemma EncodeExample()
    ensures
      var decode: Base64Decoder := s =>
        if s == "id" then Some(seq(32, _ => 0)) else if s == "" then Some([])
        else if s == "sig" then Some([0xDE, 0xAD, 0xBE, 0xEF]) else None;
      var sct := SignedCertificateTimestamp(0, "id", 1_000_000_000_000, "", "sig");
      sct.Encode(decode) == Output([0x00] + seq(32, _ => 0x00) + [0x00, 0x00, 0x00, 0xE8, 0xD4, 0xA5, 0x10, 0x00]
                                   + [0x00, 0x00] + [0xDE, 0xAD, 0xBE, 0xEF], None)
      && |sct.Encode(decode).bytes| == 47
  {
    var decode: Base64Decoder := s =>
      if s == "id" then Some(seq(32, _ => 0)) else if s == "" then Some([])
      else if s == "sig" then Some([0xDE, 0xAD, 0xBE, 0xEF]) else None;
    var sct := SignedCertificateTimestamp(0, "id", 1_000_000_000_000, "", "sig");
    EncodeMatchesLayout(sct, decode);
    LayoutExample();
  }
}
