/** The symbol loader node: asks the device for its symbol upload info
    (count and size of the symbol table), then for the table itself, parses
    it and stores the symbols in the flow and global caches. Each request
    waits in a table keyed by its invoke id until its response arrives or
    its timer expires. */
module SymbolLoader {
  import opened Bytes
  import opened Wrappers
  import opened Codec
  import opened SymbolTable

  const ADSIGRP_SYM_UPLOADINFO2: u32 := 0xF00C
  const UPLOAD_INFO_LENGTH: u32 := 24
  const ADSIGRP_SYM_UPLOAD: u32 := 0xF00B
  /** Each request's timer, in milliseconds; its expiry is `Expire`. */
  const REQUEST_TIMEOUT_MS: nat := 5000

  // ---------------------------------------------------------------------
  // The protocol

  /** What a pending request is waiting for. */
  datatype Stage = UploadInfo | TableUpload(count: u32, size: u32)

  datatype LoadError = AdsError(code: u32) | Timeout | UploadInfoShort | TableEmpty

  /** What a request's callback receives: an error, or the response data. */
  datatype Reply = Err(error: LoadError) | Data(bytes: seq<byte>)

  /** What the node does with a reply. */
  datatype Action =
    | Fail(status: string, error: LoadError)
    | Request(args: ReadArgs, stage: Stage)
    | Store(symbols: seq<Symbol>, count: u32, size: u32)

  datatype Event =
    | RawOut(topic: string, frame: seq<byte>)       // third output
    | Published(topic: string, frame: seq<byte>)
    | Failed(status: string, error: LoadError)
    | InvalidResponseFrame
    | Loaded(symbols: seq<Symbol>, count: u32, size: u32)   // first output

  /** The two callbacks of `loadSymbols`. An error reply fails with its
      error; upload info fails when it is short or announces an empty
      table; a table reply is always stored, with the count and size that
      were announced for it. */
  function Next(stage: Stage, reply: Reply): (r: Action)
    ensures reply.Err? ==> r.Fail? && r.error == reply.error
    ensures r.Fail? <==>
              reply.Err? || (stage.UploadInfo? && (|reply.bytes| < 8 || ReadU32(reply.bytes, 4) == 0))
    ensures r.Store? <==> stage.TableUpload? && reply.Data?
    ensures r.Store? ==> stage.TableUpload? && r.count == stage.count && r.size == stage.size
  {
    match stage
    case UploadInfo =>
      if reply.Err? then Fail("uploadInfo", reply.error)
      else if |reply.bytes| < 8 then Fail("uploadInfo", UploadInfoShort)
      else if ReadU32(reply.bytes, 4) == 0 then Fail("empty", TableEmpty)
      else Request(ReadArgs(ADSIGRP_SYM_UPLOAD, 0, ReadU32(reply.bytes, 4)),
                   TableUpload(ReadU32(reply.bytes, 0), ReadU32(reply.bytes, 4)))
    case TableUpload(count, size) =>
      if reply.Err? then Fail("symbol upload", reply.error)
      else Store(ParseFrom(reply.bytes, 0), count, size)
  }

  /** The table is requested exactly when the upload info arrived, holds
      both words, and announces a non-empty table; the request then asks
      for exactly the announced size. */
  lemma NextRequestsTable(reply: Reply)
    ensures Next(UploadInfo, reply).Request? <==>
              reply.Data? && |reply.bytes| >= 8 && ReadU32(reply.bytes, 4) != 0
    ensures Next(UploadInfo, reply).Request? ==>
              var a := Next(UploadInfo, reply).args;
              a.indexGroup == ADSIGRP_SYM_UPLOAD && a.indexOffset == 0 && a.length == ReadU32(reply.bytes, 4)
    ensures !Next(UploadInfo, reply).Store? && !Next(TableUpload(0, 0), reply).Request?
  {
  }

  /** Upload info as the device encodes it (count, then size) leads to a
      request for a table of that size, remembering both words. */
  lemma UploadInfoRoundTrip(count: u32, size: u32, rest: seq<byte>)
    requires size != 0
    ensures Next(UploadInfo, Data(U32LE(count) + U32LE(size) + rest)) ==
              Request(ReadArgs(ADSIGRP_SYM_UPLOAD, 0, size), TableUpload(count, size))
  {
    var b := U32LE(count) + U32LE(size) + rest;
    ReadU32At(b, 0, count);
    ReadU32At(b, 4, size);
  }

  /** A table of well-formed entries, as the device uploads it, is stored
      as exactly the symbols it was encoded from. */
  lemma TableReplyRoundTrip(es: seq<EntryLayout>, count: u32, size: u32)
    requires forall k :: 0 <= k < |es| ==> Encodable(es[k])
    ensures Next(TableUpload(count, size), Data(EncodeTable(es))) == Store(SymbolsOf(es), count, size)
  {
    ParseEncodedTable(es);
  }

  /** A response's reply: an error for a non-zero result, else its data. */
  function ReplyOf(resp: Response): Reply
  {
    if resp.result != 0 then Err(AdsError(resp.result)) else Data(resp.data)
  }

  /** The raw-frame `node.send` output and the MQTT publish of one request. */
  function SentEvents(topic: string, frame: seq<byte>): seq<Event>
  {
    [RawOut(topic, frame), Published(topic, frame)]
  }

  class LoaderNode {
    const conn: Connection
    const cache: SymbolCache
    var pending: map<u32, Stage>
    var nextId: nat

    /** Every pending request carries an id issued earlier. */
    predicate Valid()
      reads this
    {
      forall id :: id in pending ==> id < nextId
    }

    constructor (conn: Connection, cache: SymbolCache)
      ensures this.conn == conn && this.cache == cache
      ensures pending == map[] && nextId == 1 && Valid()
    {
      this.conn := conn;
      this.cache := cache;
      pending := map[];
      nextId := 1;
    }

    function RequestTopicOf(): string
    {
      RequestTopic(conn.namespace, conn.targetText)
    }

    function CacheKey(): string
    {
      conn.namespace + "/" + conn.targetText
    }

    /** `sendAdsRead`: issue an id, remember what the reply is for, and send
        the Read request. */
    method SendAdsRead(a: ReadArgs, stage: Stage) returns (events: seq<Event>)
      requires Valid()
      modifies this
      ensures Valid()
      ensures var id := WireInvokeId(old(nextId));
        && nextId == old(nextId) + 1
        && (old(nextId) < 0x1_0000_0000 ==> id !in old(pending))
        && pending == old(pending)[id := stage]
        && events == SentEvents(RequestTopicOf(), ReadFrame(conn, id, a))
    {
      var id := WireInvokeId(nextId);
      nextId := nextId + 1;
      var frame := ReadFrame(conn, id, a);
      pending := pending[id := stage];
      events := SentEvents(RequestTopicOf(), frame);
    }

    /** An input message: ask for the symbol upload info. */
    method LoadSymbols() returns (events: seq<Event>)
      requires Valid()
      modifies this
      ensures Valid()
      ensures var id := WireInvokeId(old(nextId));
        && nextId == old(nextId) + 1
        && (old(nextId) < 0x1_0000_0000 ==> id !in old(pending))
        && pending == old(pending)[id := UploadInfo]
        && events == SentEvents(RequestTopicOf(),
                                ReadFrame(conn, id, ReadArgs(ADSIGRP_SYM_UPLOADINFO2, 0, UPLOAD_INFO_LENGTH)))
    {
      events := SendAdsRead(ReadArgs(ADSIGRP_SYM_UPLOADINFO2, 0, UPLOAD_INFO_LENGTH), UploadInfo);
    }

    /** The state and events after a reply for `stage`, from the id counter
        `n0`, the remaining requests `rest` and the caches `flow0`, `global0`.
        A reply sends at most one follow-up request, and the caches change
        only when a table is stored. */
    predicate Delivered(n0: nat, rest: map<u32, Stage>, flow0: map<string, seq<Symbol>>,
                        global0: map<string, map<string, map<Text, Address>>>,
                        stage: Stage, reply: Reply, events: seq<Event>)
      reads this, cache
      ensures Delivered(n0, rest, flow0, global0, stage, reply, events) ==>
                && nextId <= n0 + 1 && pending.Keys <= rest.Keys + {WireInvokeId(n0)} && |events| >= 1
                && (!Next(stage, reply).Store? ==> cache.flow == flow0 && cache.global == global0)
    {
      match Next(stage, reply)
      case Fail(status, error) =>
        && events == [Failed(status, error)] && pending == rest && nextId == n0
        && cache.flow == flow0 && cache.global == global0
      case Request(a, st) =>
        var id := WireInvokeId(n0);
        && nextId == n0 + 1 && (n0 < 0x1_0000_0000 ==> id !in rest) && pending == rest[id := st]
        && events == SentEvents(RequestTopicOf(), ReadFrame(conn, id, a))
        && cache.flow == flow0 && cache.global == global0
      case Store(symbols, count, size) =>
        var forConn := if conn.id in global0 then global0[conn.id] else map[];
        && events == [Loaded(symbols, count, size)] && pending == rest && nextId == n0
        && cache.flow == flow0[CacheKey() := symbols]
        && cache.global == global0[conn.id := forConn[conn.targetText := AddressMap(symbols)]]
    }

    /** A request's callback. */
    method Deliver(stage: Stage, reply: Reply) returns (events: seq<Event>)
      requires Valid()
      modifies this, cache
      ensures Valid()
      ensures Delivered(old(nextId), old(pending), old(cache.flow), old(cache.global), stage, reply, events)
    {
      match stage
      case UploadInfo =>
        if reply.Err? {
          return [Failed("uploadInfo", reply.error)];
        }
        var info := reply.bytes;
        if |info| < 8 {
          return [Failed("uploadInfo", UploadInfoShort)];
        }
        var symCount := ReadU32(info, 0);
        var symSize := ReadU32(info, 4);
        if symSize == 0 {
          return [Failed("empty", TableEmpty)];
        }
        events := SendAdsRead(ReadArgs(ADSIGRP_SYM_UPLOAD, 0, symSize), TableUpload(symCount, symSize));
      case TableUpload(count, size) =>
        if reply.Err? {
          return [Failed("symbol upload", reply.error)];
        }
        var symbols := ParseSymbols(reply.bytes);
        cache.Replace(CacheKey(), conn.id, conn.targetText, symbols);
        events := [Loaded(symbols, count, size)];
    }

    /** A message on the connection's MQTT client. */
    method OnMessage(topic: string, message: seq<byte>) returns (events: seq<Event>)
      requires Valid()
      modifies this, cache
      ensures Valid()
      ensures topic != ResponseTopic(conn.namespace, conn.amsNetIdText) || |message| < RESPONSE_MIN ==>
                && events == (if topic != ResponseTopic(conn.namespace, conn.amsNetIdText) then []
                              else [InvalidResponseFrame])
                && pending == old(pending) && nextId == old(nextId)
                && cache.flow == old(cache.flow) && cache.global == old(cache.global)
      ensures topic == ResponseTopic(conn.namespace, conn.amsNetIdText) && |message| >= RESPONSE_MIN ==>
                var resp := ParseResponse(Bare, message).value;
                if resp.invokeId !in old(pending) then
                  && events == [] && pending == old(pending) && nextId == old(nextId)
                  && cache.flow == old(cache.flow) && cache.global == old(cache.global)
                else
                  Delivered(old(nextId), old(pending) - {resp.invokeId}, old(cache.flow), old(cache.global),
                            old(pending)[resp.invokeId], ReplyOf(resp), events)
    {
      if topic != ResponseTopic(conn.namespace, conn.amsNetIdText) {
        return [];
      }
      if |message| < RESPONSE_MIN {
        return [InvalidResponseFrame];
      }
      var resp := ParseResponse(Bare, message).value;
      if resp.invokeId !in pending {
        return [];
      }
      var stage := pending[resp.invokeId];
      pending := pending - {resp.invokeId};
      events := Deliver(stage, ReplyOf(resp));
    }

    /** The request timer of `id` fires: if it is still pending it is
        dropped and its callback gets a timeout. */
    method Expire(id: u32) returns (events: seq<Event>)
      requires Valid()
      modifies this, cache
      ensures Valid()
      ensures id !in old(pending) ==>
                && events == [] && pending == old(pending) && nextId == old(nextId)
                && cache.flow == old(cache.flow) && cache.global == old(cache.global)
      ensures id in old(pending) ==>
                Delivered(old(nextId), old(pending) - {id}, old(cache.flow), old(cache.global),
                          old(pending)[id], Err(Timeout), events)
    {
      if id !in pending {
        return [];
      }
      var stage := pending[id];
      pending := pending - {id};
      events := Deliver(stage, Err(Timeout));
    }
  }
}
