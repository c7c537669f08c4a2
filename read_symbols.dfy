/** The read-symbols node: reads a symbol's value by name with one
    ReadWrite request (index group 0xF004, the zero-terminated name as write
    data, the wanted length as read length) in the 6-byte-prefixed frame
    variant, on the connection's client-id namespace, and passes the
    response on. */
module ReadSymbols {
  import opened Bytes
  import opened Codec
  import opened Wrappers

  const ADSIGRP_SYM_VALBYNAME: u32 := 0xF004

  /** The payload can be built: the read length is a 32-bit value, and the
      name's length and the payload length that the header carries fit in
      32 bits. These are written before the invoke id is taken. */
  predicate ReadPayloadFits(symbol: Text, readLength: int)
  {
    0 <= readLength < 0x1_0000_0000 && 16 + |symbol| + 1 < 0x1_0000_0000
  }

  /** The whole request frame can be built: the prefix's total, written
      after the invoke id is taken, fits in 32 bits as well. */
  predicate ReadFits(symbol: Text, readLength: int)
  {
    ReadPayloadFits(symbol, readLength) && HEADER_SIZE + 16 + |symbol| + 1 < 0x1_0000_0000
  }

  function ReadByNameArgs(symbol: Text, readLength: int): ReadWriteArgs
    requires ReadPayloadFits(symbol, readLength)
  {
    ReadWriteArgs(ADSIGRP_SYM_VALBYNAME, 0, readLength as u32, symbol + [0])
  }

  /** The request frame: prefixed, ReadWrite command, the connection's
      source port. */
  function ReadByNameFrame(conn: Connection, invokeId: u32, symbol: Text, readLength: int): (f: seq<byte>)
    requires ReadFits(symbol, readLength)
    ensures |f| == 6 + HEADER_SIZE + 17 + |symbol|
  {
    var payload := ReadWriteRequest(ReadByNameArgs(symbol, readLength));
    Frame(Prefixed, RequestHeader(conn, conn.sourcePort, CMD_READ_WRITE, |payload|, invokeId), payload)
  }

  /** What the device reads out of a read frame: the prefix announcing the
      rest, a header for a ReadWrite of 17 + |name| bytes from the
      connection's source port, and the payload
      (0xF004, 0, readLength, name ++ 0). */
  lemma ReadByNameFrameLayout(conn: Connection, invokeId: u32, symbol: Text, readLength: int)
    requires ReadFits(symbol, readLength)
    ensures var f := ReadByNameFrame(conn, invokeId, symbol, readLength);
      && |f| == 6 + HEADER_SIZE + 17 + |symbol|
      && ReadU16(f, 0) == 0 && ReadU32(f, 2) == |f| - 6
      && DecodeFrame(Prefixed, f).Some?
      && var (h, p) := DecodeFrame(Prefixed, f).value;
      && h == RequestHeader(conn, conn.sourcePort, CMD_READ_WRITE, 17 + |symbol|, invokeId)
      && DecodeReadWriteRequest(p) == Some(ReadWriteArgs(ADSIGRP_SYM_VALBYNAME, 0, readLength as u32, symbol + [0]))
  {
    var a := ReadByNameArgs(symbol, readLength);
    var payload := ReadWriteRequest(a);
    FrameRoundTrip(Prefixed, RequestHeader(conn, conn.sourcePort, CMD_READ_WRITE, |payload|, invokeId), payload);
    ReadWriteRequestRoundTrip(a);
  }

  datatype Event =
    | Published(topic: string, frame: seq<byte>)
    | Done(error: Option<string>)
    | Sent(data: seq<byte>, symbol: Text, invokeId: u32, result: u32)
    | InvalidResponseFrame
    | Thrown                          // a value that does not fit a 32-bit field

  class ReadNode {
    const conn: Connection
    const symbol: Text                // the configured symbol; empty when unset
    var pending: map<u32, Text>       // invoke id to the symbol read
    var nextId: nat

    predicate Valid()
      reads this
    {
      forall id :: id in pending ==> id < nextId
    }

    constructor (conn: Connection, symbol: Text)
      ensures this.conn == conn && this.symbol == symbol && pending == map[] && nextId == 1 && Valid()
    {
      this.conn := conn;
      this.symbol := symbol;
      pending := map[];
      nextId := 1;
    }

    function ReqTopic(): string
    {
      RequestTopic(conn.clientId, conn.targetText)
    }

    function ResTopic(): string
    {
      ResponseTopic(conn.clientId, conn.amsNetIdText)
    }

    /** An input message naming `msgSymbol` (empty when absent) and the
        number of bytes to read (0 when absent). */
    method Input(msgSymbol: Text, readLength: int) returns (events: seq<Event>)
      requires Valid()
      modifies this
      ensures Valid()
      ensures var sym := if msgSymbol != [] then msgSymbol else symbol;
        if sym == [] then
          events == [Done(Some("No symbol specified"))] && pending == old(pending) && nextId == old(nextId)
        else if !ReadPayloadFits(sym, readLength) then
          events == [Thrown] && pending == old(pending) && nextId == old(nextId)
        else if !ReadFits(sym, readLength) then
          events == [Thrown] && pending == old(pending) && nextId == old(nextId) + 1
        else
          var id := WireInvokeId(old(nextId));
          && nextId == old(nextId) + 1 && (old(nextId) < 0x1_0000_0000 ==> id !in old(pending))
          && pending == old(pending)[id := sym]
          && events == [Published(ReqTopic(), ReadByNameFrame(conn, id, sym, readLength))]
    {
      var sym := if msgSymbol != [] then msgSymbol else symbol;
      if sym == [] {
        return [Done(Some("No symbol specified"))];
      }
      var symbolBuf := sym + [0];
      if !(0 <= readLength < 0x1_0000_0000) || 16 + |symbolBuf| >= 0x1_0000_0000 {
        return [Thrown];
      }
      var adsRw := BuildReadWriteRequest(ReadWriteArgs(ADSIGRP_SYM_VALBYNAME, 0, readLength as u32, symbolBuf));
      var id := WireInvokeId(nextId);
      nextId := nextId + 1;
      if HEADER_SIZE + adsRw.Length >= 0x1_0000_0000 {
        return [Thrown];
      }
      var header := RequestHeader(conn, conn.sourcePort, CMD_READ_WRITE, adsRw.Length, id);
      var frame := LengthPrefix(HEADER_SIZE + adsRw.Length) + EncodeHeader(header) + adsRw[..];
      pending := pending[id := sym];
      events := [Published(ReqTopic(), frame)];
    }

    /** A message on the response topic: the matching request's `send`
        gets the data, symbol, invoke id and result, then `done`. */
    method OnMessage(topic: string, message: seq<byte>) returns (events: seq<Event>)
      requires Valid()
      modifies this
      ensures Valid() && nextId == old(nextId)
      ensures topic != ResTopic() ==> events == [] && pending == old(pending)
      ensures topic == ResTopic() ==>
                if |message| < ResponseMin(Prefixed) then
                  events == [InvalidResponseFrame] && pending == old(pending)
                else
                  var resp := ParseResponse(Prefixed, message).value;
                  if resp.invokeId !in old(pending) then events == [] && pending == old(pending)
                  else
                    && pending == old(pending) - {resp.invokeId}
                    && events == [Sent(resp.data, old(pending)[resp.invokeId], resp.invokeId, resp.result),
                                  Done(None)]
    {
      if topic != ResTopic() {
        return [];
      }
      if |message| < ResponseMin(Prefixed) {
        return [InvalidResponseFrame];
      }
      var resp := ParseResponse(Prefixed, message).value;
      if resp.invokeId !in pending {
        return [];
      }
      var sym := pending[resp.invokeId];
      pending := pending - {resp.invokeId};
      events := [Sent(resp.data, sym, resp.invokeId, resp.result), Done(None)];
    }
  }
}
