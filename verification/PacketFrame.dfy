/**
 Wire framing of a MeshCore packet: header, optional transport codes, packed path byte, path, payload.
 */
module PacketFrame {
  import opened Common

  type Byte = b: nat | b < 256
  type Bytes = seq<Byte>

  const MAX_PATH_SIZE: nat := 64
  const PAYLOAD_TYPE_TRACE: nat := 9

  datatype Envelope = Envelope(
    header: Byte,
    routeType: nat,
    payloadType: nat,
    payloadVersion: nat,
    pathByte: Byte,
    hopCount: nat,
    hashSize: nat,
    pathByteLen: nat,
    path: Bytes,
    payload: Bytes,
    transportCodes: Option<(nat, nat)>)

  datatype PathInfo = PathInfo(hopCount: nat, hashSize: nat, byteLen: nat)

  /** Hop count and hash size packed in a path byte; None for the reserved mode 3. */
  function DecodePathByte(b: Byte): (r: Option<(nat, nat)>)
    ensures r.Some? <==> b < 0xC0
    ensures r.Some? ==> b == (r.value.1 - 1) * 64 + r.value.0 && r.value.0 < 64 && 1 <= r.value.1 <= 3
  {
    var hashMode := b / 64;
    if hashMode == 3 then None else Some((b % 64, hashMode + 1))
  }

  function ValidatePathByte(b: Byte): (r: Option<PathInfo>)
    ensures r.Some? ==> r.value.byteLen == r.value.hopCount * r.value.hashSize <= MAX_PATH_SIZE
    ensures r.Some? ==> r.value.hopCount == b % 64 && r.value.hashSize == b / 64 + 1
    ensures r.None? <==> b >= 0xC0 || (b >= 0x80 && b % 64 > 21) || (0x40 <= b < 0x80 && b % 64 > 32)
  {
    match DecodePathByte(b)
    case None => None
    case Some(hs) =>
      if hs.0 * hs.1 > MAX_PATH_SIZE then None else Some(PathInfo(hs.0, hs.1, hs.0 * hs.1))
  }

  predicate CarriesTransportCodes(routeType: nat)
  {
    routeType == 0 || routeType == 3
  }

  function Le16(lo: Byte, hi: Byte): nat
  {
    lo + 256 * hi
  }

  function Le16Bytes(v: nat): Bytes
    requires v < 65536
  {
    [v % 256, v / 256]
  }

  // ---------------------------------------------------------------------------------------------
  // The language: what an envelope prints as

  /** Fields that belong together, as the firmware would send them. */
  ghost predicate Consistent(e: Envelope)
  {
    && e.routeType == e.header % 4
    && e.payloadType == e.header / 4 % 16
    && e.payloadVersion == e.header / 64
    && (e.transportCodes.Some? <==> CarriesTransportCodes(e.routeType))
    && (e.transportCodes.Some? ==> e.transportCodes.value.0 < 65536 && e.transportCodes.value.1 < 65536)
    && ValidatePathByte(e.pathByte) == Some(PathInfo(e.hopCount, e.hashSize, e.pathByteLen))
    && |e.path| == e.pathByteLen
    && e.payload != []
  }

  ghost function TransportBytes(e: Envelope): Bytes
    requires Consistent(e)
  {
    if e.transportCodes.Some? then Le16Bytes(e.transportCodes.value.0) + Le16Bytes(e.transportCodes.value.1) else []
  }

  ghost function Print(e: Envelope): Bytes
    requires Consistent(e)
  {
    [e.header] + TransportBytes(e) + [e.pathByte] + e.path + e.payload
  }

  /** Where the path byte sits. */
  function PathByteAt(raw: Bytes): nat
    requires raw != []
  {
    if CarriesTransportCodes(raw[0] % 4) then 5 else 1
  }

  function Parse(raw: Bytes): (r: Option<Envelope>)
  {
    if |raw| < 2 || |raw| <= PathByteAt(raw) then None
    else
      var at := PathByteAt(raw);
      match ValidatePathByte(raw[at])
      case None => None
      case Some(info) =>
        var start := at + 1;
        if |raw| <= start + info.byteLen then None
        else Some(Envelope(
          raw[0], raw[0] % 4, raw[0] / 4 % 16, raw[0] / 64,
          raw[at], info.hopCount, info.hashSize, info.byteLen,
          raw[start..start + info.byteLen], raw[start + info.byteLen..],
          if at == 5 then Some((Le16(raw[1], raw[2]), Le16(raw[3], raw[4]))) else None))
  }

  /** The source's parser, advancing an offset. */
  method ParsePacketEnvelope(raw: Bytes) returns (r: Option<Envelope>)
    ensures r == Parse(raw)
  {
    if |raw| < 2 {
      return None;
    }
    var header := raw[0];
    var routeType, payloadType, payloadVersion := header % 4, header / 4 % 16, header / 64 % 4;
    var offset := 1;
    var codes: Option<(nat, nat)> := None;
    if routeType == 0 || routeType == 3 {
      if |raw| < offset + 4 {
        return None;
      }
      codes := Some((Le16(raw[offset], raw[offset + 1]), Le16(raw[offset + 2], raw[offset + 3])));
      offset := offset + 4;
    }
    if |raw| < offset + 1 {
      return None;
    }
    var pathByte := raw[offset];
    offset := offset + 1;
    var info := ValidatePathByte(pathByte);
    if info.None? {
      return None;
    }
    var byteLen := info.value.byteLen;
    if |raw| < offset + byteLen {
      return None;
    }
    var path := raw[offset..offset + byteLen];
    offset := offset + byteLen;
    if offset >= |raw| {
      return None;
    }
    r := Some(Envelope(header, routeType, payloadType, payloadVersion, pathByte,
                       info.value.hopCount, info.value.hashSize, byteLen, path, raw[offset..], codes));
  }

  /** Where the path byte sits: after the header, and after four transport bytes for route types 0 and 3. */
  lemma PathByteSits(raw: Bytes)
    requires raw != []
    ensures PathByteAt(raw) == if raw[0] % 4 == 0 || raw[0] % 4 == 3 then 5 else 1
  {
  }

  /** A frame is accepted exactly if its path byte is valid and at least one byte follows the path. */
  lemma AcceptedExactly(raw: Bytes)
    requires raw != []
    ensures var at := PathByteAt(raw);
      Parse(raw).Some? <==>
        && |raw| > at && raw[at] / 64 < 3 && (raw[at] % 64) * (raw[at] / 64 + 1) <= 64
        && |raw| > at + 1 + (raw[at] % 64) * (raw[at] / 64 + 1)
  {
  }

  /** Where every field of an accepted frame comes from. */
  lemma ParsedFields(raw: Bytes)
    requires Parse(raw).Some?
    ensures raw != [] && |raw| > PathByteAt(raw) + 1 + Parse(raw).value.pathByteLen
    ensures var e := Parse(raw).value;
      && e.header == raw[0] && e.routeType == raw[0] % 4 && e.payloadType == raw[0] / 4 % 16
      && e.payloadVersion == raw[0] / 64
    ensures var e := Parse(raw).value; var at := PathByteAt(raw);
      && e.pathByte == raw[at] && e.hopCount == raw[at] % 64 && e.hashSize == raw[at] / 64 + 1
      && e.pathByteLen == e.hopCount * e.hashSize
      && e.path == raw[at + 1..at + 1 + e.pathByteLen] && e.payload == raw[at + 1 + e.pathByteLen..]
    ensures var e := Parse(raw).value;
      if PathByteAt(raw) == 5
      then e.transportCodes.Some? && e.transportCodes.value.0 == raw[1] as int + 256 * raw[2] as int
        && e.transportCodes.value.1 == raw[3] as int + 256 * raw[4] as int
      else e.transportCodes.None?
  {
  }

  // ---------------------------------------------------------------------------------------------
  // Parsing and printing are inverse, so the accepted language is exactly the printed one

  lemma Le16RoundTrip(lo: Byte, hi: Byte)
    ensures Le16(lo, hi) < 65536 && Le16Bytes(Le16(lo, hi)) == [lo, hi]
  {
    DivModUnique(Le16(lo, hi), 256, hi, lo);
  }

  /** The transport codes of an accepted frame print as the bytes between header and path byte. */
  lemma TransportRoundTrip(raw: Bytes)
    requires Parse(raw).Some?
    ensures Consistent(Parse(raw).value)
    ensures TransportBytes(Parse(raw).value) == raw[1..PathByteAt(raw)]
  {
    var at := PathByteAt(raw);
    if at == 5 {
      Le16RoundTrip(raw[1], raw[2]);
      Le16RoundTrip(raw[3], raw[4]);
      assert raw[1..at] == [raw[1], raw[2]] + [raw[3], raw[4]];
    } else {
      assert raw[1..at] == [];
    }
  }

  lemma SplitAt(raw: Bytes, at: nat, n: nat)
    requires 1 <= at && at + 1 + n <= |raw|
    ensures raw == [raw[0]] + raw[1..at] + [raw[at]] + raw[at + 1..at + 1 + n] + raw[at + 1 + n..]
  {
  }

  lemma PrintAfterParse(raw: Bytes)
    requires Parse(raw).Some?
    ensures Consistent(Parse(raw).value) && Print(Parse(raw).value) == raw
  {
    TransportRoundTrip(raw);
    SplitAt(raw, PathByteAt(raw), Parse(raw).value.pathByteLen);
  }

  lemma ParseAfterPrint(e: Envelope)
    requires Consistent(e)
    ensures Parse(Print(e)) == Some(e)
  {
    var raw := Print(e);
    var codes := TransportBytes(e);
    assert raw[0] == e.header;
    var at := PathByteAt(raw);
    assert at == 1 + |codes|;
    assert raw[at] == e.pathByte;
    assert raw[1..at] == codes;
    assert forall i :: 0 <= i < |codes| ==> raw[1 + i] == codes[i];
    assert raw[at + 1..] == e.path + e.payload;
    assert raw[at + 1..at + 1 + e.pathByteLen] == e.path;
    assert raw[at + 1 + e.pathByteLen..] == e.payload;
  }

  /** A frame is accepted exactly when some consistent envelope prints as it, and then only that one. */
  lemma AcceptedExactlyThePrintedFrames(raw: Bytes)
    ensures Parse(raw).Some? <==> exists e :: Consistent(e) && Print(e) == raw
    ensures forall e, f :: Consistent(e) && Consistent(f) && Print(e) == Print(f) ==> e == f
  {
    if Parse(raw).Some? {
      PrintAfterParse(raw);
    }
    forall e | Consistent(e)
      ensures Parse(Print(e)) == Some(e)
    {
      ParseAfterPrint(e);
    }
  }

  // ---------------------------------------------------------------------------------------------
  // What routing does not change

  /** The bytes whose digest deduplicates stored packets: the payload, or everything if malformed. */
  function DedupBytes(raw: Bytes): Bytes
  {
    match Parse(raw)
    case None => raw
    case Some(e) => e.payload
  }

  /** The bytes the packet hash covers; None where the hash is the all-zero placeholder. */
  function HashedBytes(raw: Bytes): Option<Bytes>
  {
    match Parse(raw)
    case None => None
    case Some(e) =>
      var kind: Bytes := [e.payloadType];
      Some(kind + (if e.payloadType == PAYLOAD_TYPE_TRACE then Le16Bytes(e.pathByte) else []) + e.payload)
  }

  ghost predicate SameContent(e: Envelope, f: Envelope)
  {
    e.payloadType == f.payloadType && e.payload == f.payload
  }

  /** A frame that does not parse is deduplicated by all of its bytes, and has no packet hash. */
  lemma MalformedFrames(raw: Bytes)
    requires Parse(raw).None?
    ensures DedupBytes(raw) == raw && HashedBytes(raw).None?
  {
  }

  /** Rerouting keeps the dedup key: two frames share it exactly when their payloads are equal. */
  lemma DedupIgnoresRouting(e: Envelope, f: Envelope)
    requires Consistent(e) && Consistent(f)
    ensures DedupBytes(Print(e)) == DedupBytes(Print(f)) <==> e.payload == f.payload
  {
    ParseAfterPrint(e);
    ParseAfterPrint(f);
  }

  /** What the packet hash covers, by fields. */
  function HashInput(e: Envelope): Bytes
    requires e.payloadType < 16
  {
    [e.payloadType] + (if e.payloadType == PAYLOAD_TYPE_TRACE then Le16Bytes(e.pathByte) else []) + e.payload
  }

  lemma HashedFrame(e: Envelope)
    requires Consistent(e)
    ensures e.payloadType < 16 && HashedBytes(Print(e)) == Some(HashInput(e))
    ensures e.payloadType != 9 ==> HashedBytes(Print(e)) == Some([e.payloadType] + e.payload)
    ensures e.payloadType == 9 ==> HashedBytes(Print(e)) == Some([9, e.pathByte, 0] + e.payload)
  {
    ParseAfterPrint(e);
    if e.payloadType == 9 {
      assert [9 as Byte] + Le16Bytes(e.pathByte) == [9, e.pathByte, 0];
    } else {
      assert [e.payloadType as Byte] + [] == [e.payloadType];
    }
  }

  lemma HashInputParts(e: Envelope)
    requires e.payloadType < 16
    ensures HashInput(e)[0] == e.payloadType
    ensures e.payloadType == PAYLOAD_TYPE_TRACE ==>
      |HashInput(e)| >= 3 && HashInput(e)[1] == e.pathByte && HashInput(e)[3..] == e.payload
    ensures e.payloadType != PAYLOAD_TYPE_TRACE ==> HashInput(e)[1..] == e.payload
  {
  }

  /** The packet hash covers type and payload, plus the path byte of a TRACE, and nothing else. */
  lemma HashIgnoresRouting(e: Envelope, f: Envelope)
    requires Consistent(e) && Consistent(f)
    ensures HashedBytes(Print(e)) == HashedBytes(Print(f)) <==>
      SameContent(e, f) && (e.payloadType == PAYLOAD_TYPE_TRACE ==> e.pathByte == f.pathByte)
  {
    HashedFrame(e);
    HashedFrame(f);
    HashInputParts(e);
    HashInputParts(f);
  }

}
