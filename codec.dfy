/** The AMS/ADS frame codec shared by every node: the 32-byte AMS header,
    the Read and ReadWrite command payloads, the optional 6-byte length
    prefix, response parsing at fixed offsets, and invoke-id issuing. */
module Codec {
  import opened Bytes
  import opened Wrappers

  /** An AMS net id as produced from its dotted form: six bytes. */
  type NetId = s: seq<byte> | |s| == 6 witness [0, 0, 0, 0, 0, 0]

  const CMD_READ: u16 := 0x0002
  const CMD_READ_WRITE: u16 := 0x0009
  /** State flags of every request the nodes send ("ADS command"). */
  const STATE_FLAGS_REQUEST: u16 := 0x0004
  const HEADER_SIZE: nat := 32
  /** AMS header plus the result and length words of a response. */
  const RESPONSE_MIN: nat := 40

  /** The connection settings every node reads (configured elsewhere). */
  datatype Connection = Connection(
    namespace: string,      // MQTT topic namespace
    clientId: string,
    amsNetIdText: string,   // this client's net id, dotted
    amsNetId: NetId,
    targetText: string,     // the device's net id, dotted
    targetNetId: NetId,
    port: u16,              // the device's AMS port
    sourcePort: u16,
    id: string)             // the connection node's own id

  function RequestTopic(namespace: string, target: string): string
  {
    namespace + "/" + target + "/ams"
  }

  function ResponseTopic(namespace: string, local: string): string
  {
    namespace + "/" + local + "/ams/res"
  }

  datatype AmsHeader = AmsHeader(
    targetNetId: NetId, targetPort: u16,
    sourceNetId: NetId, sourcePort: u16,
    commandId: u16, stateFlags: u16,
    length: u32, errorCode: u32, invokeId: u32)

  /** The header as written field by field into a 32-byte buffer: target net
      id at 0, target port at 6, source net id at 8, source port at 14,
      command at 16, state flags at 18, payload length at 20, error code at
      24, invoke id at 28. */
  function EncodeHeader(h: AmsHeader): (r: seq<byte>)
    ensures |r| == HEADER_SIZE
  {
    h.targetNetId + U16LE(h.targetPort) + h.sourceNetId + U16LE(h.sourcePort)
    + U16LE(h.commandId) + U16LE(h.stateFlags)
    + U32LE(h.length) + U32LE(h.errorCode) + U32LE(h.invokeId)
  }

  /** Reads the header fields of a frame at their fixed offsets. */
  /** The header read back from the first 32 bytes. Nothing is lost: the
      decoded header encodes to exactly the bytes it was read from, so
      every 32-byte block is the encoding of its decoded header. */
  function DecodeHeader(s: seq<byte>): (h: AmsHeader)
    requires |s| >= HEADER_SIZE
    ensures EncodeHeader(h) == s[..HEADER_SIZE]
  {
    U16LEOfReadU16(s, 6);
    U16LEOfReadU16(s, 14);
    U16LEOfReadU16(s, 16);
    U16LEOfReadU16(s, 18);
    U32LEOfReadU32(s, 20);
    U32LEOfReadU32(s, 24);
    U32LEOfReadU32(s, 28);
    SliceJoin(s, 0, 6, 8);
    SliceJoin(s, 0, 8, 14);
    SliceJoin(s, 0, 14, 16);
    SliceJoin(s, 0, 16, 18);
    SliceJoin(s, 0, 18, 20);
    SliceJoin(s, 0, 20, 24);
    SliceJoin(s, 0, 24, 28);
    SliceJoin(s, 0, 28, 32);
    AmsHeader(s[0..6], ReadU16(s, 6), s[8..14], ReadU16(s, 14),
              ReadU16(s, 16), ReadU16(s, 18),
              ReadU32(s, 20), ReadU32(s, 24), ReadU32(s, 28))
  }

  /** Decoding an encoded header, whatever follows it, gives it back. */
  lemma DecodeEncodeHeader(h: AmsHeader, rest: seq<byte>)
    ensures DecodeHeader(EncodeHeader(h) + rest) == h
  {
    var s := EncodeHeader(h) + rest;
    assert s[0..6] == h.targetNetId;
    assert s[8..14] == h.sourceNetId;
    ReadU16At(s, 6, h.targetPort);
    ReadU16At(s, 14, h.sourcePort);
    ReadU16At(s, 16, h.commandId);
    ReadU16At(s, 18, h.stateFlags);
    ReadU32At(s, 20, h.length);
    ReadU32At(s, 24, h.errorCode);
    ReadU32At(s, 28, h.invokeId);
  }

  /** The header of a request from `conn`, as its 32 bytes lie in the
      buffer: the device's net id and port, this client's net id, the given
      source port and command, state flags 4, length field `len`, error
      code 0 and the invoke id. */
  function RequestHeader(conn: Connection, sourcePort: u16, cmd: u16, len: u32, invokeId: u32): (h: AmsHeader)
    ensures var b := EncodeHeader(h);
      && b[0..6] == conn.targetNetId && ReadU16(b, 6) == conn.port
      && b[8..14] == conn.amsNetId && ReadU16(b, 14) == sourcePort
      && ReadU16(b, 16) == cmd && ReadU16(b, 18) == STATE_FLAGS_REQUEST
      && ReadU32(b, 20) == len && ReadU32(b, 24) == 0 && ReadU32(b, 28) == invokeId
  {
    var h := AmsHeader(conn.targetNetId, conn.port, conn.amsNetId, sourcePort,
                       cmd, STATE_FLAGS_REQUEST, len, 0, invokeId);
    DecodeEncodeHeader(h, []);
    assert EncodeHeader(h) + [] == EncodeHeader(h);
    h
  }

  // ---------------------------------------------------------------------
  // Command payloads

  datatype ReadArgs = ReadArgs(indexGroup: u32, indexOffset: u32, length: u32)

  /** ADS Read payload: index group, index offset, requested length. */
  function ReadRequest(a: ReadArgs): (r: seq<byte>)
    ensures |r| == 12
  {
    U32LE(a.indexGroup) + U32LE(a.indexOffset) + U32LE(a.length)
  }

  function DecodeReadRequest(s: seq<byte>): ReadArgs
    requires |s| >= 12
  {
    ReadArgs(ReadU32(s, 0), ReadU32(s, 4), ReadU32(s, 8))
  }

  /** Encoding a Read request and parsing it back yields the triple. */
  lemma ReadRequestRoundTrip(a: ReadArgs)
    ensures DecodeReadRequest(ReadRequest(a)) == a
  {
    var s := ReadRequest(a);
    ReadU32At(s, 0, a.indexGroup);
    ReadU32At(s, 4, a.indexOffset);
    ReadU32At(s, 8, a.length);
  }

  datatype ReadWriteArgs = ReadWriteArgs(indexGroup: u32, indexOffset: u32, readLength: u32, writeData: seq<byte>)

  /** ADS ReadWrite payload: index group, index offset, read length, write
      length, then the write bytes. */
  function ReadWriteRequest(a: ReadWriteArgs): (r: seq<byte>)
    requires |a.writeData| < 0x1_0000_0000
    ensures |r| == 16 + |a.writeData| && r[16..] == a.writeData
  {
    U32LE(a.indexGroup) + U32LE(a.indexOffset) + U32LE(a.readLength)
    + U32LE(|a.writeData|) + a.writeData
  }

  /** Parses a ReadWrite payload; it must hold exactly as many write bytes
      as its write-length field announces. */
  function DecodeReadWriteRequest(s: seq<byte>): Option<ReadWriteArgs>
  {
    if |s| < 16 || |s| != 16 + ReadU32(s, 12) then None
    else Some(ReadWriteArgs(ReadU32(s, 0), ReadU32(s, 4), ReadU32(s, 8), s[16..]))
  }

  lemma ReadWriteRequestRoundTrip(a: ReadWriteArgs)
    requires |a.writeData| < 0x1_0000_0000
    ensures DecodeReadWriteRequest(ReadWriteRequest(a)) == Some(a)
  {
    var s := ReadWriteRequest(a);
    ReadU32At(s, 0, a.indexGroup);
    ReadU32At(s, 4, a.indexOffset);
    ReadU32At(s, 8, a.readLength);
    ReadU32At(s, 12, |a.writeData|);
  }

  /** The four words of a ReadWrite payload and its write data, where a
      receiver reads them. */
  lemma ReadWriteFields(a: ReadWriteArgs)
    requires |a.writeData| < 0x1_0000_0000
    ensures var p := ReadWriteRequest(a);
      && DecodeReadWriteRequest(p) == Some(a)
      && ReadU32(p, 0) == a.indexGroup && ReadU32(p, 4) == a.indexOffset
      && ReadU32(p, 8) == a.readLength && ReadU32(p, 12) == |a.writeData|
      && p[16..] == a.writeData
  {
    ReadWriteRequestRoundTrip(a);
  }

  /** The other direction: whatever parses is the encoding of what it
      parses to, so the encoding is a bijection onto well-formed payloads. */
  lemma DecodeReadWriteRequestExact(s: seq<byte>)
    requires DecodeReadWriteRequest(s).Some?
    ensures ReadWriteRequest(DecodeReadWriteRequest(s).value) == s
  {
    U32LEOfReadU32(s, 0);
    U32LEOfReadU32(s, 4);
    U32LEOfReadU32(s, 8);
    U32LEOfReadU32(s, 12);
    assert s == s[0..4] + s[4..8] + s[8..12] + s[12..16] + s[16..];
  }

  /** `buf.writeUInt32LE(v, off)`. */
  method WriteU32(buf: array<byte>, off: nat, v: u32)
    requires off + 4 <= buf.Length
    modifies buf
    ensures buf[..off + 4] == old(buf[..off]) + U32LE(v) && buf[off + 4..] == old(buf[off + 4..])
  {
    var enc := U32LE(v);
    forall k | 0 <= k < 4 {
      buf[off + k] := enc[k];
    }
    assert buf[..off + 4] == buf[..off] + buf[off..off + 4];
  }

  /** The by-name nodes' `adsRw` buffer: allocated zeroed, the four words
      written at 0, 4, 8 and 12, then the write bytes copied in at 16. */
  method BuildReadWriteRequest(a: ReadWriteArgs) returns (buf: array<byte>)
    requires |a.writeData| < 0x1_0000_0000
    ensures fresh(buf) && buf[..] == ReadWriteRequest(a)
  {
    var wd := a.writeData;
    buf := new byte[16 + |wd|](_ => 0);
    WriteU32(buf, 0, a.indexGroup);
    WriteU32(buf, 4, a.indexOffset);
    WriteU32(buf, 8, a.readLength);
    WriteU32(buf, 12, |wd|);
    ghost var words := buf[..16];
    assert words == U32LE(a.indexGroup) + U32LE(a.indexOffset) + U32LE(a.readLength) + U32LE(|wd|) by {
      assert buf[..0] == [];
    }
    for k := 0 to |wd|
      invariant buf[..16] == words
      invariant buf[16..16 + k] == wd[..k]
    {
      buf[16 + k] := wd[k];
      assert buf[16..16 + k + 1] == buf[16..16 + k] + [wd[k]];
      assert wd[..k + 1] == wd[..k] + [wd[k]];
    }
    assert buf[..] == buf[..16] + buf[16..16 + |wd|];
    assert wd[..|wd|] == wd;
  }

  // ---------------------------------------------------------------------
  // Frames and the two deployment variants

  /** Bare: the frame is the AMS header and payload. Prefixed: a 6-byte
      length header (two reserved zero bytes, then the 32-bit length of
      what follows) comes first, and every response offset moves by 6. */
  datatype Variant = Bare | Prefixed

  function PrefixLen(v: Variant): nat
  {
    if v.Prefixed? then 6 else 0
  }

  function LengthPrefix(total: u32): (r: seq<byte>)
    ensures |r| == 6
  {
    U16LE(0) + U32LE(total)
  }

  /** Only the prefixed variant writes the frame's total length (header
      plus payload) as a 32-bit word; a bare frame is a plain concatenation. */
  predicate FitsFrame(v: Variant, payload: seq<byte>)
  {
    v.Prefixed? ==> HEADER_SIZE + |payload| < 0x1_0000_0000
  }

  /** A request frame: optional length prefix, header, payload. */
  function Frame(v: Variant, h: AmsHeader, payload: seq<byte>): (r: seq<byte>)
    requires FitsFrame(v, payload)
    ensures |r| == PrefixLen(v) + HEADER_SIZE + |payload|
  {
    (if v.Prefixed? then LengthPrefix(HEADER_SIZE + |payload|) else [])
    + EncodeHeader(h) + payload
  }

  /** What a receiver of a request frame reads back: the prefix's total is
      checked against the frame, the header and payload are split off. */
  function DecodeFrame(v: Variant, f: seq<byte>): Option<(AmsHeader, seq<byte>)>
  {
    var p := PrefixLen(v);
    if |f| < p + HEADER_SIZE then None
    else if v.Prefixed? && (ReadU16(f, 0) != 0 || ReadU32(f, 2) != |f| - 6) then None
    else Some((DecodeHeader(f[p..]), f[p + HEADER_SIZE..]))
  }

  /** A built frame decodes to its header and payload, and in the prefixed
      variant the prefix announces the frame length minus 6. */
  lemma FrameRoundTrip(v: Variant, h: AmsHeader, payload: seq<byte>)
    requires FitsFrame(v, payload)
    ensures DecodeFrame(v, Frame(v, h, payload)) == Some((h, payload))
    ensures v.Prefixed? ==>
              ReadU16(Frame(v, h, payload), 0) == 0 &&
              ReadU32(Frame(v, h, payload), 2) == |Frame(v, h, payload)| - 6
  {
    FrameParts(v, EncodeHeader(h), payload);
    DecodeEncodeHeader(h, payload);
  }

  /** Where the parts of a frame lie, for any 32 header bytes. */
  lemma FrameParts(v: Variant, hb: seq<byte>, payload: seq<byte>)
    requires |hb| == HEADER_SIZE && FitsFrame(v, payload)
    ensures var f := (if v.Prefixed? then LengthPrefix(HEADER_SIZE + |payload|) else []) + hb + payload;
      && f[PrefixLen(v)..] == hb + payload && f[PrefixLen(v) + HEADER_SIZE..] == payload
      && (v.Prefixed? ==> ReadU16(f, 0) == 0 && ReadU32(f, 2) == |f| - 6)
  {
    var body := hb + payload;
    assert body[HEADER_SIZE..] == payload;
    if v.Prefixed? {
      var f := LengthPrefix(HEADER_SIZE + |payload|) + hb + payload;
      assert f == LengthPrefix(HEADER_SIZE + |payload|) + body;
      PrefixFields(HEADER_SIZE + |payload|, body);
      assert f[6 + HEADER_SIZE..] == payload;
    } else {
      assert [] + hb + payload == body;
    }
  }

  /** The length prefix reads back as two zero bytes and the total, and
      what follows it is left as it is. */
  lemma PrefixFields(total: u32, body: seq<byte>)
    ensures var f := LengthPrefix(total) + body;
      ReadU16(f, 0) == 0 && ReadU32(f, 2) == total && f[6..] == body
  {
    var f := LengthPrefix(total) + body;
    ReadU16At(f, 0, 0);
    ReadU32At(f, 2, total);
  }

  /** A Read request frame of the loader and the monitor: bare, Read
      command, length field 12, the connection's source port. */
  function ReadFrame(conn: Connection, invokeId: u32, a: ReadArgs): (f: seq<byte>)
    ensures |f| == HEADER_SIZE + 12
  {
    Frame(Bare, RequestHeader(conn, conn.sourcePort, CMD_READ, 12, invokeId), ReadRequest(a))
  }

  /** A request frame reads back as a Read command for `a` under `invokeId`. */
  lemma ReadFrameRoundTrip(conn: Connection, invokeId: u32, a: ReadArgs)
    ensures var f := ReadFrame(conn, invokeId, a);
      && DecodeFrame(Bare, f).Some?
      && var (h, p) := DecodeFrame(Bare, f).value;
      && h.invokeId == invokeId && h.commandId == CMD_READ && h.length == 12
      && h.targetNetId == conn.targetNetId && h.targetPort == conn.port
      && h.sourceNetId == conn.amsNetId && h.sourcePort == conn.sourcePort
      && DecodeReadRequest(p) == a
  {
    var payload := ReadRequest(a);
    FrameRoundTrip(Bare, RequestHeader(conn, conn.sourcePort, CMD_READ, 12, invokeId), payload);
    ReadRequestRoundTrip(a);
  }

  // ---------------------------------------------------------------------
  // Responses

  datatype Response = Response(invokeId: u32, result: u32, length: u32, data: seq<byte>)

  function ResponseMin(v: Variant): nat
  {
    RESPONSE_MIN + PrefixLen(v)
  }

  /** A response frame read at fixed offsets (shifted by the prefix): invoke
      id at 28, result at 32, length at 36, data from 40 for `length` bytes,
      cut short where the frame ends. A frame shorter than 40 bytes (plus
      the prefix) is rejected. */
  function ParseResponse(v: Variant, m: seq<byte>): (r: Option<Response>)
    ensures r.None? <==> |m| < ResponseMin(v)
    ensures r.Some? ==> |r.value.data| == Min(r.value.length, |m| - ResponseMin(v))
    ensures r.Some? ==> r.value.data == m[ResponseMin(v)..ResponseMin(v) + |r.value.data|]
  {
    var p := PrefixLen(v);
    if |m| < RESPONSE_MIN + p then None
    else
      var len := ReadU32(m, 36 + p);
      SliceClamps(m, RESPONSE_MIN + p, RESPONSE_MIN + p + len);
      Some(Response(ReadU32(m, 28 + p), ReadU32(m, 32 + p), len,
                    Slice(m, RESPONSE_MIN + p, RESPONSE_MIN + p + len)))
  }

  /** A device response: header (invoke id echoed, length = 8 + data),
      result code, data length, data. */
  function EncodeResponse(v: Variant, h: AmsHeader, result: u32, data: seq<byte>): (r: seq<byte>)
    requires |data| + 8 + HEADER_SIZE < 0x1_0000_0000
  {
    (if v.Prefixed? then LengthPrefix(HEADER_SIZE + 8 + |data|) else [])
    + EncodeHeader(h) + U32LE(result) + U32LE(|data|) + data
  }

  /** A response the device encodes is parsed back to its invoke id,
      result and data. */
  lemma ResponseRoundTrip(v: Variant, h: AmsHeader, result: u32, data: seq<byte>)
    requires |data| + 8 + HEADER_SIZE < 0x1_0000_0000
    ensures ParseResponse(v, EncodeResponse(v, h, result, data))
         == Some(Response(h.invokeId, result, |data|, data))
  {
    var tail := U32LE(result) + U32LE(|data|) + data;
    var bare := EncodeHeader(h) + tail;
    BareResponseRoundTrip(h, result, data);
    assert EncodeResponse(Bare, h, result, data) == bare;
    if v.Prefixed? {
      var pre := LengthPrefix(HEADER_SIZE + 8 + |data|);
      assert EncodeResponse(v, h, result, data) == pre + bare;
      PrefixShiftsResponse(pre, bare);
    }
  }

  lemma BareResponseRoundTrip(h: AmsHeader, result: u32, data: seq<byte>)
    requires |data| + 8 + HEADER_SIZE < 0x1_0000_0000
    ensures ParseResponse(Bare, EncodeHeader(h) + (U32LE(result) + U32LE(|data|) + data))
         == Some(Response(h.invokeId, result, |data|, data))
  {
    var tail := U32LE(result) + U32LE(|data|) + data;
    var m := EncodeHeader(h) + tail;
    DecodeEncodeHeader(h, tail);
    assert m[32..36] == U32LE(result);
    assert m[36..40] == U32LE(|data|);
    ReadU32At(m, 32, result);
    ReadU32At(m, 36, |data|);
    assert m[RESPONSE_MIN..RESPONSE_MIN + |data|] == data;
    assert ReadU32(m, 28) == h.invokeId;
    SliceWithin(m, RESPONSE_MIN, RESPONSE_MIN + |data|);
    assert |m| >= RESPONSE_MIN;
  }

  /** The 6-byte prefix shifts every response read by 6: a prefixed frame
      parses exactly as the bare frame behind its prefix. */
  lemma PrefixShiftsResponse(prefix: seq<byte>, m: seq<byte>)
    requires |prefix| == 6
    ensures ParseResponse(Prefixed, prefix + m) == ParseResponse(Bare, m)
  {
    var pm := prefix + m;
    if |m| >= RESPONSE_MIN {
      assert ReadU32(pm, 34) == ReadU32(m, 28);
      assert ReadU32(pm, 38) == ReadU32(m, 32);
      assert ReadU32(pm, 42) == ReadU32(m, 36);
      SliceAfterPrefix(prefix, m, RESPONSE_MIN, RESPONSE_MIN + ReadU32(m, 36));
    }
  }

  // ---------------------------------------------------------------------
  // Invoke ids

  /** The invoke id, as written by `_invokeId++ & 0xffffffff`: JavaScript's
      `&` yields a signed 32-bit integer, so from 2^31 on the value is
      negative and the following writeUInt32LE throws. */
  function JsMaskedInvokeId(counter: nat): (r: int)
    ensures -0x8000_0000 <= r < 0x8000_0000
    ensures r >= 0 <==> counter % 0x1_0000_0000 < 0x8000_0000
  {
    var w := counter % 0x1_0000_0000;
    if w < 0x8000_0000 then w else w - 0x1_0000_0000
  }

  /** The first counter value for which the as-written id is rejected. */
  lemma JsMaskedInvokeIdOverflows()
    ensures JsMaskedInvokeId(0x7FFF_FFFF) == 0x7FFF_FFFF
    ensures JsMaskedInvokeId(0x8000_0000) < 0
  {
  }

  /** The invoke id as a 32-bit unsigned counter that wraps on overflow. */
  function WireInvokeId(counter: nat): (id: u32)
    ensures id <= counter
    ensures counter < 0x1_0000_0000 ==> id == counter
    ensures JsMaskedInvokeId(counter) >= 0 ==> id == JsMaskedInvokeId(counter)
  {
    counter % 0x1_0000_0000
  }
}
