/** The write-symbols node: writes a value to a symbol by name with one
    ReadWrite request (index group 0xF003, the name and its value as write
    data) in the 6-byte-prefixed frame variant, on the fixed
    "VirtualAmsNetwork1" namespace, and passes the response on. */
module WriteSymbols {
  import opened Bytes
  import opened Wrappers
  import opened Codec

  const NETWORK_NAME: string := "VirtualAmsNetwork1"
  const ADSIGRP_SYM_HNDBYNAME: u32 := 0xF003

  /** An input message's payload: a Buffer, an object with type, encoding
      and (when it is a string) data, or anything else. */
  datatype Payload =
    | BufferPayload(bytes: seq<byte>)
    | ObjectPayload(kind: string, encoding: string, data: Option<string>)
    | OtherPayload

  /** `decodePayload`: a Buffer as it is, an `{type: "ams", encoding:
      "base64"}` object's string data through `base64`, nothing otherwise. */
  function DecodePayload(p: Payload, base64: string -> seq<byte>): (r: Option<seq<byte>>)
    ensures r.Some? <==>
              p.BufferPayload? || (p.ObjectPayload? && p.kind == "ams" && p.encoding == "base64" && p.data.Some?)
    ensures p.BufferPayload? ==> r == Some(p.bytes)
    ensures p.ObjectPayload? && r.Some? ==> r == Some(base64(p.data.value))
  {
    match p
    case BufferPayload(bytes) => Some(bytes)
    case ObjectPayload(kind, encoding, data) =>
      if kind == "ams" && encoding == "base64" && data.Some? then Some(base64(data.value)) else None
    case OtherPayload => None
  }

  /** The write data: the name, a terminating zero, the value. */
  function WriteBuffer(symbol: Text, value: seq<byte>): (w: seq<byte>)
    ensures |w| == |symbol| + 1 + |value|
  {
    symbol + [0] + value
  }

  /** The payload's own length fields fit in 32 bits: the write length, and
      the payload length that the header carries. These are written before
      the invoke id is taken. */
  predicate WritePayloadFits(symbol: Text, value: seq<byte>)
  {
    16 + |WriteBuffer(symbol, value)| < 0x1_0000_0000
  }

  /** The whole request frame can be built: the prefix's total, written
      after the invoke id is taken, fits in 32 bits as well. */
  predicate WriteFits(symbol: Text, value: seq<byte>)
  {
    HEADER_SIZE + 16 + |WriteBuffer(symbol, value)| < 0x1_0000_0000
  }

  function WriteArgs(symbol: Text, value: seq<byte>): ReadWriteArgs
  {
    ReadWriteArgs(ADSIGRP_SYM_HNDBYNAME, 0, 0, WriteBuffer(symbol, value))
  }

  /** The request frame: prefixed, ReadWrite command, and, as written, the
      device's port in the source-port field. */
  function WriteFrame(conn: Connection, invokeId: u32, symbol: Text, value: seq<byte>): (f: seq<byte>)
    requires WriteFits(symbol, value)
    ensures |f| == 6 + HEADER_SIZE + 16 + |symbol| + 1 + |value|
  {
    var payload := ReadWriteRequest(WriteArgs(symbol, value));
    Frame(Prefixed, RequestHeader(conn, conn.port, CMD_READ_WRITE, |payload|, invokeId), payload)
  }

  /** `Buffer.concat([tcpHeader, amsHeader, adsRw])`: the length prefix, the
      header with the device's port as source port, the payload. */
  function Assemble(conn: Connection, invokeId: u32, adsRw: seq<byte>): seq<byte>
    requires HEADER_SIZE + |adsRw| < 0x1_0000_0000
  {
    LengthPrefix(HEADER_SIZE + |adsRw|)
    + EncodeHeader(RequestHeader(conn, conn.port, CMD_READ_WRITE, |adsRw|, invokeId)) + adsRw
  }

  /** The frame as the node puts it together is the request frame. */
  lemma ConcatIsWriteFrame(conn: Connection, invokeId: u32, symbol: Text, value: seq<byte>, adsRw: seq<byte>)
    requires WriteFits(symbol, value) && adsRw == ReadWriteRequest(WriteArgs(symbol, value))
    ensures Assemble(conn, invokeId, adsRw) == WriteFrame(conn, invokeId, symbol, value)
  {
  }

  /** The bytes before the first zero, and those after it. */
  function SplitAtNull(w: seq<byte>): (r: (Text, seq<byte>))
  {
    if w == [] then ([], [])
    else if w[0] == 0 then ([], w[1..])
    else
      var (name, rest) := SplitAtNull(w[1..]);
      ([w[0]] + name, rest)
  }

  /** A name without zero bytes and its value are recovered from the write
      data by splitting at the first zero. */
  lemma {:induction false} SplitWriteBuffer(symbol: Text, value: seq<byte>)
    requires forall k :: 0 <= k < |symbol| ==> symbol[k] != 0
    ensures SplitAtNull(WriteBuffer(symbol, value)) == (symbol, value)
  {
    var w := WriteBuffer(symbol, value);
    if symbol == [] {
      assert w == [0] + value;
      assert w[1..] == value;
    } else {
      assert w[1..] == WriteBuffer(symbol[1..], value);
      SplitWriteBuffer(symbol[1..], value);
      assert [symbol[0]] + symbol[1..] == symbol;
    }
  }

  /** What the device reads out of a write frame: the prefix announcing the
      rest, a header for a ReadWrite of 16 + |name| + 1 + |value| bytes
      whose source port is the device's port, and the payload
      (0xF003, 0, 0, name ++ 0 ++ value). */
  lemma WriteFrameLayout(conn: Connection, invokeId: u32, symbol: Text, value: seq<byte>)
    requires WriteFits(symbol, value)
    ensures var f := WriteFrame(conn, invokeId, symbol, value);
      && |f| == 6 + HEADER_SIZE + 16 + |symbol| + 1 + |value|
      && ReadU16(f, 0) == 0 && ReadU32(f, 2) == |f| - 6
      && DecodeFrame(Prefixed, f).Some?
      && var (h, p) := DecodeFrame(Prefixed, f).value;
      && h == RequestHeader(conn, conn.port, CMD_READ_WRITE, 16 + |symbol| + 1 + |value|, invokeId)
      && DecodeReadWriteRequest(p) == Some(ReadWriteArgs(ADSIGRP_SYM_HNDBYNAME, 0, 0, symbol + [0] + value))
  {
    var a := WriteArgs(symbol, value);
    var payload := ReadWriteRequest(a);
    FrameRoundTrip(Prefixed, RequestHeader(conn, conn.port, CMD_READ_WRITE, |payload|, invokeId), payload);
    ReadWriteRequestRoundTrip(a);
  }

  datatype Event =
    | Published(topic: string, frame: seq<byte>)
    | Done(error: Option<string>)
    | Sent(data: seq<byte>, symbol: Text, invokeId: u32, result: u32)
    | Logged(message: string)         // node.error
    | DeprecatedTopic(topic: string)
    | InvalidResponseFrame
    | Thrown                          // a length that does not fit a 32-bit field

  class WriteNode {
    const conn: Connection
    const symbol: Text                // the configured symbol; empty when unset
    var pending: map<u32, Text>       // invoke id to the symbol written
    var nextId: nat

    predicate Valid()
      reads this
    {
      forall id :: id in pending ==> id < nextId
    }

    constructor (conn: Connection, symbol: Text)
      ensures this.conn == conn && this.symbol == symbol && pending == map[] && nextId == 1 && Valid()
    {
      this.conn := conn;
      this.symbol := symbol;
      pending := map[];
      nextId := 1;
    }

    function ReqTopic(): string
    {
      RequestTopic(NETWORK_NAME, conn.targetText)
    }

    function ResTopic(): string
    {
      ResponseTopic(NETWORK_NAME, conn.targetText)
    }

    /** The response topic of earlier versions, still accepted. */
    function OldResTopic(): string
    {
      ResponseTopic(conn.clientId, conn.targetText)
    }

    /** An input message naming `msgSymbol` (empty when absent) with a
        payload; `base64` is the base64 decoder. */
    method Input(msgSymbol: Text, payload: Payload, base64: string -> seq<byte>) returns (events: seq<Event>)
      requires Valid()
      modifies this
      ensures Valid()
      ensures var sym := if msgSymbol != [] then msgSymbol else symbol;
        var value := DecodePayload(payload, base64);
        if sym == [] then
          events == [Done(Some("No symbol specified"))] && pending == old(pending) && nextId == old(nextId)
        else if value.None? then
          && events == [Logged("Unsupported payload format"), Done(Some("Unsupported payload format"))]
          && pending == old(pending) && nextId == old(nextId)
        else if !WritePayloadFits(sym, value.value) then
          events == [Thrown] && pending == old(pending) && nextId == old(nextId)
        else if !WriteFits(sym, value.value) then
          events == [Thrown] && pending == old(pending) && nextId == old(nextId) + 1
        else
          var id := WireInvokeId(old(nextId));
          && nextId == old(nextId) + 1 && (old(nextId) < 0x1_0000_0000 ==> id !in old(pending))
          && pending == old(pending)[id := sym]
          && events == [Published(ReqTopic(), WriteFrame(conn, id, sym, value.value))]
    {
      var sym := if msgSymbol != [] then msgSymbol else symbol;
      if sym == [] {
        return [Done(Some("No symbol specified"))];
      }
      var valueBuf := DecodePayload(payload, base64);
      if valueBuf.None? {
        return [Logged("Unsupported payload format"), Done(Some("Unsupported payload format"))];
      }
      var writeBuf := sym + [0] + valueBuf.value;
      assert writeBuf == WriteBuffer(sym, valueBuf.value);
      if 16 + |writeBuf| >= 0x1_0000_0000 {
        return [Thrown];
      }
      var adsRw := BuildReadWriteRequest(ReadWriteArgs(ADSIGRP_SYM_HNDBYNAME, 0, 0, writeBuf));
      var id := WireInvokeId(nextId);
      nextId := nextId + 1;
      if HEADER_SIZE + adsRw.Length >= 0x1_0000_0000 {
        return [Thrown];
      }
      assert WriteFits(sym, valueBuf.value);
      var frame := Assemble(conn, id, adsRw[..]);
      ConcatIsWriteFrame(conn, id, sym, valueBuf.value, adsRw[..]);
      pending := pending[id := sym];
      events := [Published(ReqTopic(), frame)];
    }

    /** A message on a response topic: the matching request's `send`
        gets the data, symbol, invoke id and result, then `done`. */
    method OnMessage(topic: string, message: seq<byte>) returns (events: seq<Event>)
      requires Valid()
      modifies this
      ensures Valid() && nextId == old(nextId)
      ensures topic != ResTopic() && topic != OldResTopic() ==> events == [] && pending == old(pending)
      ensures topic == ResTopic() || topic == OldResTopic() ==>
                var warn := if topic == OldResTopic() then [DeprecatedTopic(topic)] else [];
                if |message| < ResponseMin(Prefixed) then
                  events == warn + [InvalidResponseFrame] && pending == old(pending)
                else
                  var resp := ParseResponse(Prefixed, message).value;
                  if resp.invokeId !in old(pending) then events == warn && pending == old(pending)
                  else
                    && pending == old(pending) - {resp.invokeId}
                    && events == warn + [Sent(resp.data, old(pending)[resp.invokeId], resp.invokeId, resp.result),
                                         Done(None)]
    {
      if topic != ResTopic() && topic != OldResTopic() {
        return [];
      }
      events := [];
      if topic == OldResTopic() {
        events := [DeprecatedTopic(topic)];
      }
      if |message| < ResponseMin(Prefixed) {
        return events + [InvalidResponseFrame];
      }
      var resp := ParseResponse(Prefixed, message).value;
      if resp.invokeId !in pending {
        return;
      }
      var sym := pending[resp.invokeId];
      pending := pending - {resp.invokeId};
      events := events + [Sent(resp.data, sym, resp.invokeId, resp.result), Done(None)];
    }
  }
}
