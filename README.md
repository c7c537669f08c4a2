# ADS over MQTT: a verified model of the client nodes

This project models the client core of a set of Node-RED nodes. The nodes
talk Beckhoff ADS (the Automation Device Specification protocol of TwinCAT
devices) over MQTT. Each request is an AMS frame: a 32-byte AMS header
(target and source net id and port, command, state flags, payload length,
error code, invoke id) followed by an ADS payload. The frame is published on
`<namespace>/<target>/ams`. The device answers on `<namespace>/<local>/ams/res`.

There are two frame variants:
- **bare** frames, used by the gvl, symbol-loader and symbol-version-monitor nodes;
- **6-byte-prefixed** frames: two zero bytes and a 32-bit total before the
  header, used by the write-symbols and read-symbols nodes. Every offset a
  response is read at moves by 6.

Each node keeps a table of pending requests keyed by the invoke id it
stamped into the header. Its id counter starts at 1. A response is matched
to its request through that id.

The model contains:

- **`Bytes`**: little-endian 16/32-bit words, the clamping `Buffer.slice`,
  and stripping of trailing zero bytes.
- **`Codec`**: the shared frame codec.
  - Header encoding and decoding.
  - Read and ReadWrite payloads.
  - Bare and prefixed frames.
  - Response parsing.
  - The invoke-id counter.
  - The in-place builders of the `adsRw` buffer.
- **`Prefixes`**: turning the gvl node's configured prefix string into a
  list of trimmed, non-empty, distinct prefixes.
- **`SymbolTable`**:
  - `parseSymbols`, the walk over the device's symbol upload buffer;
  - the name-to-address map of the global context;
  - the flow/global symbol cache.
- **`Gvl`**: the gvl node's two-round sum protocol.
  - Round one: a sum ReadWrite (0xF082) asking for one handle per
    selected symbol.
  - Round two: a sum Read (0xF080) of the values of the symbols that got
    a handle.
  - The check of round two's result codes for 0x711 ("symbol version
    invalid").
- **`SymbolLoader`**: the symbol-loader node.
  - It reads upload info (0xF00C), then the table (0xF00B).
  - Each request has a timeout.
  - The parsed symbols are stored in the cache.
- **`SymVersionMonitor`**: the symbol-version monitor. It polls the symbol
  version (0xF008) and announces rises. It also watches the info topic's
  online flag and announces a false-to-true transition.
- **`WriteSymbols`** and **`ReadSymbols`**: write a value to a symbol by name
  (0xF003), and read a symbol's value by name (0xF004), with one prefixed
  ReadWrite request each.

How things are modelled:
- Each node is a class. Its fields are the pending table and the id counter.
- All a node does on an input, a message or a timer is returned as a list
  of events. This covers publishes, outputs, `done` callbacks, logged
  errors and thrown `RangeError`s.
- Loops of the source are methods with loop invariants, proved against
  specification functions.
- Straight-line buffer fills are modelled as values, paired with decoders
  and round-trip lemmas.

## Model

| member | source | states |
|---|---|---|
| Bytes.ReadU16OfU16LE | nodes/ads-over-mqtt-symbol-loader.js:100-102 | a 16-bit value written little-endian reads back as itself |
| Bytes.ReadU32OfU32LE | nodes/ads-over-mqtt-symbol-loader.js:52-54 | a 32-bit value written little-endian is 4 bytes and reads back as itself |
| Bytes.U32LEOfReadU32 | nodes/ads-over-mqtt-symbol-loader.js:91-99 | any 4 bytes are the little-endian encoding of the word read from them (reading is injective) |
| Bytes.U16LEOfReadU16 | nodes/ads-over-mqtt-symbol-loader.js:100-102 | any 2 bytes are the encoding of the 16-bit word read from them |
| Bytes.SliceClamps | nodes/ads-over-mqtt-symbol-loader.js:40 | `slice` clamps both ends to the buffer's length and never fails |
| Bytes.SliceWithin | nodes/ads-over-mqtt-symbol-loader.js:105-106 | an in-range slice is the plain subsequence; one starting past the end is empty; its length is the clamped difference |
| Bytes.TrimmedNoTrailingNull | nodes/ads-over-mqtt-symbol-loader.js:105-108 | stripping `\0+$` leaves a text that does not end in a zero byte and is no longer than the input |
| Bytes.TrimTrailingNullsDrops | nodes/ads-over-mqtt-symbol-loader.js:105-108 | the stripped text is a prefix of the input and every dropped byte is zero |
| Bytes.TrimIdempotentOn | nodes/ads-over-mqtt-symbol-loader.js:127-130 | a text without a trailing zero, padded with any number of zeros, is stripped back to itself |
| Codec.DecodeEncodeHeader | nodes/ads-over-mqtt-gvl.js:39-52 | reading the header fields at their offsets (target 0, port 6, source 8/14, command 16, flags 18, length 20, error 24, invoke id 28) gives back the header written, whatever follows |
| Codec.EncodeHeader | nodes/ads-over-mqtt-gvl.js:39-52 | the header fills exactly 32 bytes |
| Codec.DecodeHeader | nodes/ads-over-mqtt-gvl.js:39-52 | the header read from the first 32 bytes encodes back to exactly those bytes, so every 32-byte block is the encoding of its decoded header (the layout has no slack) |
| Codec.RequestHeader | nodes/ads-over-mqtt-gvl.js:39-52 | a request header's bytes: the device's net id at 0 and port at 6, the client's net id at 8, the given source port at 14, the command at 16, flags 4 at 18, the length at 20, 0 at 24 and the invoke id at 28 |
| Codec.ReadRequest | nodes/ads-over-mqtt-symbol-loader.js:50-54 | the Read payload is 12 bytes |
| Codec.ReadRequestRoundTrip | nodes/ads-over-mqtt-symbol-loader.js:50-54 | the Read payload reads back as its index group, index offset and length |
| Codec.ReadWriteRequest | nodes/ads-over-mqtt-client-read-symbols.js:59-64 | the ReadWrite payload is 16 bytes plus the write data, which it carries unchanged from byte 16 |
| Codec.ReadWriteRequestRoundTrip | nodes/ads-over-mqtt-write-symbols.js:89-94 | the ReadWrite payload parses back to its four fields and write data |
| Codec.ReadWriteFields | nodes/ads-over-mqtt-write-symbols.js:89-94 | the four words sit at offsets 0, 4, 8, 12 and the write data from 16; the write length equals the data's length |
| Codec.DecodeReadWriteRequestExact | nodes/ads-over-mqtt-write-symbols.js:89-94 | conversely, anything that parses as a ReadWrite payload is exactly the encoding of what it parses to |
| Codec.WriteU32 | nodes/ads-over-mqtt-write-symbols.js:90-93 | `writeUInt32LE` puts the word's 4 bytes at the offset and leaves every other byte as it was |
| Codec.BuildReadWriteRequest | nodes/ads-over-mqtt-write-symbols.js:89-94 | the `adsRw` buffer, allocated zeroed and filled in place, ends up equal to the ReadWrite payload |
| Codec.LengthPrefix | nodes/ads-over-mqtt-write-symbols.js:108-110 | the TCP-style prefix is 6 bytes |
| Codec.Frame | nodes/ads-over-mqtt-write-symbols.js:112 | a frame is prefix (6 bytes or none), 32-byte header and payload |
| Codec.FrameRoundTrip | nodes/ads-over-mqtt-write-symbols.js:96-112 | a built frame decodes to its header and payload; a prefixed one starts with 0x0000 and announces header plus payload length |
| Codec.ReadFrame | nodes/ads-over-mqtt-symbol-loader.js:56-68 | the loader's and monitor's Read frame is 44 bytes |
| Codec.ReadFrameRoundTrip | nodes/ads-over-mqtt-sym-version-monitor.js:46-64 | the Read frame decodes to a bare header with command 2, length 12, the connection's ports and the invoke id, and a payload that reads back as the request |
| Codec.ParseResponse | nodes/ads-over-mqtt-symbol-loader.js:29-40 | a response is parsed exactly when it has at least 40 (bare) or 46 (prefixed) bytes; its data is the bytes after them, up to the announced length, cut at the frame's end |
| Codec.ResponseRoundTrip | nodes/ads-over-mqtt-symbol-loader.js:33-40 | a response the device encodes parses back to its invoke id, result, length and data, in both variants |
| Codec.BareResponseRoundTrip | nodes/ads-over-mqtt-gvl.js:106-112 | a header followed by result, length and data parses back to those fields |
| Codec.PrefixShiftsResponse | nodes/ads-over-mqtt-write-symbols.js:55-65 | any 6 bytes in front of a message shift every read by 6: the prefixed parse equals the bare parse of the rest |
| Codec.JsMaskedInvokeId | nodes/ads-over-mqtt-gvl.js:49 | `counter & 0xffffffff` in JavaScript is a signed 32-bit value, non-negative exactly when the counter modulo 2^32 is below 2^31 |
| Codec.JsMaskedInvokeIdOverflows | nodes/ads-over-mqtt-gvl.js:49-50 | the 2^31-th request gets a negative id, which `writeUInt32LE` rejects |
| Codec.WireInvokeId | nodes/ads-over-mqtt-gvl.js:49-50 | the corrected id: the counter itself below 2^32, wrapping after, and the same as the as-written id wherever that one is valid |
| Prefixes.Split | nodes/ads-over-mqtt-gvl.js:7 | `split(/[;,]/)` always yields at least one part |
| Prefixes.SplitPartsClean | nodes/ads-over-mqtt-gvl.js:7 | no part contains `;` or `,` |
| Prefixes.SplitAfterWord | nodes/ads-over-mqtt-gvl.js:7 | text without separators joins the first part of what follows it |
| Prefixes.SplitJoin | nodes/ads-over-mqtt-gvl.js:5-7 | splitting parts joined by a separator gives back the parts (the `gvls.join(';')` path) |
| Prefixes.TrimStartOf | nodes/ads-over-mqtt-gvl.js:7 | trimming the front drops exactly a leading run of white space |
| Prefixes.TrimEndOf | nodes/ads-over-mqtt-gvl.js:7 | trimming the end drops exactly a trailing run of white space |
| Prefixes.TrimIsTrimmed | nodes/ads-over-mqtt-gvl.js:7 | a trimmed part neither starts nor ends with white space |
| Prefixes.TrimKeepsClean | nodes/ads-over-mqtt-gvl.js:7 | trimming adds no separator |
| Prefixes.TrimPadded | nodes/ads-over-mqtt-gvl.js:7 | trimming white-space padding on both sides gives the trimmed text back |
| Prefixes.NonEmptyPartsMembers | nodes/ads-over-mqtt-gvl.js:7 | `filter(p => p)` keeps exactly the non-empty parts |
| Prefixes.DedupeSpec | nodes/ads-over-mqtt-gvl.js:7 | `Array.from(new Set(...))` keeps every element, repeats none, and leaves a repeat-free list unchanged |
| Prefixes.DedupeMembers | nodes/ads-over-mqtt-gvl.js:7 | deduplication keeps exactly the elements of its input |
| Prefixes.DedupeDistinct | nodes/ads-over-mqtt-gvl.js:7 | deduplication yields no repeats |
| Prefixes.DedupeKeepsDistinct | nodes/ads-over-mqtt-gvl.js:7 | a repeat-free list is left as it is, in order |
| Prefixes.TrimAll | nodes/ads-over-mqtt-gvl.js:7 | `map(p => p.trim())` trims each part in place |
| Prefixes.ParsePrefixes | nodes/ads-over-mqtt-gvl.js:5-7 | the configured prefixes are exactly the non-empty trimmed parts, without repeats, each trimmed and free of separators |
| Prefixes.KeptMembers | nodes/ads-over-mqtt-gvl.js:7 | a text is kept exactly when it is non-empty and some part trims to it |
| Prefixes.KeptClean | nodes/ads-over-mqtt-gvl.js:7 | every kept prefix is non-empty, trimmed and separator-free |
| Prefixes.PrefixesRoundTrip | nodes/ads-over-mqtt-gvl.js:5-7 | distinct, non-empty, trimmed, separator-free prefixes joined by `;` parse back to the same list |
| Prefixes.TrimAllNoop | nodes/ads-over-mqtt-gvl.js:7 | trimming already-trimmed parts changes nothing |
| Prefixes.TrimOfTrimmed | nodes/ads-over-mqtt-gvl.js:7 | trimming a trimmed text changes nothing |
| Prefixes.NonEmptyAll | nodes/ads-over-mqtt-gvl.js:7 | filtering non-empty parts keeps a list with no empty part as it is |
| SymbolTable.SkipDelimiter | nodes/ads-over-mqtt-symbol-loader.js:110-126 | skipping a leading 0x00 moves the start by one and shortens the field by one, so the field's end does not move |
| SymbolTable.EntryAt | nodes/ads-over-mqtt-symbol-loader.js:95-142 | an entry decoded from its bytes has no name, type or comment longer than the length declared for it |
| SymbolTable.ParseFrom | nodes/ads-over-mqtt-symbol-loader.js:87-146 | the parse yields one symbol per offset the walk accepts, and nothing when the walk cannot start (under 30 bytes left, or a declared length below 30 or past the end) |
| SymbolTable.ParseSymbols | nodes/ads-over-mqtt-symbol-loader.js:87-146 | the loop returns one symbol per entry the walk accepts, decoded at that entry's offset; there are at most `|buf| / 30` of them; no text field ends in a zero byte |
| SymbolTable.OffsetsAccepted | nodes/ads-over-mqtt-symbol-loader.js:90-94 | every offset the walk visits has 30 bytes left, a declared length of at least 30, and the entry ends inside the buffer |
| SymbolTable.EntriesChained | nodes/ads-over-mqtt-symbol-loader.js:143 | the first entry is at 0 and each next one starts where the previous one's declared length ends |
| SymbolTable.ParseFromBound | nodes/ads-over-mqtt-symbol-loader.js:90-92 | at most (|buf| - off) / 30 symbols come out |
| SymbolTable.StopInside | nodes/ads-over-mqtt-symbol-loader.js:90-94 | the walk stops inside the buffer, never before where it started |
| SymbolTable.TextFieldsTrimmed | nodes/ads-over-mqtt-symbol-loader.js:105-130 | no decoded name, type or comment ends in a zero byte |
| SymbolTable.EncodeEntry | nodes/ads-over-mqtt-symbol-loader.js:91-130 | an encoded entry's length is 30 plus its texts, delimiters and trailer: the length it declares |
| SymbolTable.FixedPartFields | nodes/ads-over-mqtt-symbol-loader.js:91-102 | the parser reads each fixed field of an encoded entry at its offset |
| SymbolTable.ParseEncodedEntry | nodes/ads-over-mqtt-symbol-loader.js:95-142 | an encoded entry, whatever follows it, decodes to exactly its symbol |
| SymbolTable.EncodedSections | nodes/ads-over-mqtt-symbol-loader.js:104-130 | where the encoder places the name, the 0x00-delimited type and comment, and the trailer |
| SymbolTable.EntryAtFields | nodes/ads-over-mqtt-symbol-loader.js:104-130 | the texts of an entry start and end where the three declared lengths and the two delimiter skips put them |
| SymbolTable.ParseEncodedTable | nodes/ads-over-mqtt-symbol-loader.js:87-146 | a table of N well-formed entries parses to exactly those N symbols, in order |
| SymbolTable.EncodedTableStop | nodes/ads-over-mqtt-symbol-loader.js:90-94 | on such a table the walk ends exactly at the end of the buffer |
| SymbolTable.AddressMap | nodes/ads-over-mqtt-symbol-loader.js:183-191 | the map has no more keys than there are symbols |
| SymbolTable.AddressMapLastWins | nodes/ads-over-mqtt-symbol-loader.js:183-191 | the map's keys are exactly the symbol names, and each name maps to the address (ig, io, size, datatype) of its last occurrence |
| SymbolTable.BuildAddressMap | nodes/ads-over-mqtt-symbol-loader.js:183-191 | the `forEach` loop builds that map: keys are the names, the last occurrence wins |
| SymbolTable.SymbolCache.Table | nodes/ads-over-mqtt-gvl.js:55-58 | `symbolsMap[key] \|\| []`: the cached list for the key, or empty |
| SymbolTable.SymbolCache.Replace | nodes/ads-over-mqtt-symbol-loader.js:172-193 | a reload replaces the flow entry for `namespace/target` and the global entry for (connection, target), creating the connection's object if missing; nothing else changes |
| Gvl.Select | nodes/ads-over-mqtt-gvl.js:58-62 | the selection never holds more symbols than the cache |
| Gvl.SelectMembers | nodes/ads-over-mqtt-gvl.js:58-62 | a symbol is selected exactly when it is cached and its name starts with some prefix followed by `.` |
| Gvl.SelectAppend | nodes/ads-over-mqtt-gvl.js:60-62 | selection keeps the cache order: selecting from two runs is selecting from each |
| Gvl.EncodeSubRequests | nodes/ads-over-mqtt-gvl.js:70-82 | the sub-request table is 16 bytes per entry |
| Gvl.EncodeSubRequestsSnoc | nodes/ads-over-mqtt-gvl.js:74-82 | each iteration appends one 16-byte entry |
| Gvl.DecodeSubRequests | nodes/ads-over-mqtt-gvl.js:70-82 | reading `n` entries gives `n` sub-requests |
| Gvl.SubRequestAt | nodes/ads-over-mqtt-gvl.js:76-81 | entry `i` occupies bytes `16 i` to `16 i + 16` |
| Gvl.SubRequestFields | nodes/ads-over-mqtt-gvl.js:76-79 | an entry's four words read back at +0, +4, +8, +12 |
| Gvl.SubRequestsRoundTrip | nodes/ads-over-mqtt-gvl.js:70-83 | the table read back, whatever follows it, gives the sub-requests it was built from |
| Gvl.WriteSubRequest | nodes/ads-over-mqtt-gvl.js:76-79 | the four writes of one entry, in place: bytes before are kept, the entry is written, bytes after are untouched |
| Gvl.HandleSubRequests | nodes/ads-over-mqtt-gvl.js:74-82 | one sub-request per selected symbol: 0xF003, offset 0, read 4, write the length of its name plus 0x00 |
| Gvl.HandleRequestArgs | nodes/ads-over-mqtt-gvl.js:83-91 | the handle request's write data is the table followed by the names |
| Gvl.BuildHandleTable | nodes/ads-over-mqtt-gvl.js:69-82 | the loop fills the table in place with exactly those sub-requests and collects each symbol's name buffer |
| Gvl.NameBuffersAppend | nodes/ads-over-mqtt-gvl.js:80-83 | the names region of two runs of symbols is the two regions joined |
| Gvl.NameAt | nodes/ads-over-mqtt-gvl.js:80-83 | name `i` lies after names `0..i-1` and before the rest |
| Gvl.ConcatNameBuffers | nodes/ads-over-mqtt-gvl.js:83 | `Buffer.concat(nameBuffers)` is the names region |
| Gvl.HandleRequestLayout | nodes/ads-over-mqtt-gvl.js:83-91 | the handle request parses back as 0xF082, `n`, `8 n`, the table length, and its write data reads back as the sub-requests, then the names |
| Gvl.ResultCodes | nodes/ads-over-mqtt-gvl.js:120-124 | code `i` is the word at `4 i` |
| Gvl.ReadCodes | nodes/ads-over-mqtt-gvl.js:120-124 | the first loop returns those codes, or throws exactly when the data is shorter than `4 n` |
| Gvl.KeptIndicesSpec | nodes/ads-over-mqtt-gvl.js:128-137 | the kept positions are exactly the zero-code positions, in increasing order |
| Gvl.KeptHandlesAt | nodes/ads-over-mqtt-gvl.js:125-137 | the kept handles are, position by position, the words at `4 n + 4 i` for the zero codes `i` |
| Gvl.KeptSymbolsAt | nodes/ads-over-mqtt-gvl.js:128-137 | the kept symbols are the symbols at the zero-code positions |
| Gvl.ZeroCodesOfCodes | nodes/ads-over-mqtt-gvl.js:128-133 | the kept positions are the positions whose word in the data is 0 |
| Gvl.SurvivorsOfCodes | nodes/ads-over-mqtt-gvl.js:120-137 | handles and symbols are aligned with the zero-code positions |
| Gvl.KeptAligned | nodes/ads-over-mqtt-gvl.js:114-141 | when round one yields handles, symbol `i` survives exactly when its code is 0; handle and symbol lists match in length and position |
| Gvl.AnalyseHandles | nodes/ads-over-mqtt-gvl.js:114-141 | round one fails with the sum result exactly when that result is non-zero; kept symbols come with exactly one handle each, and at least one |
| Gvl.CollectHandles | nodes/ads-over-mqtt-gvl.js:125-137 | the second loop returns the kept handles and symbols, or throws exactly when a needed handle lies past the data |
| Gvl.CollectOutcome | nodes/ads-over-mqtt-gvl.js:114-141 | the two loops together give round one's outcome: ADS error, throw, none kept, or handles with their symbols |
| Gvl.SumSubRequests | nodes/ads-over-mqtt-gvl.js:147-155 | one sub-request per kept handle: 0xF005, the handle, the symbol's size, 0 |
| Gvl.SumReadArgs | nodes/ads-over-mqtt-gvl.js:156-163 | the sum-read write data is the 16-byte-per-entry table |
| Gvl.BuildSumReadTable | nodes/ads-over-mqtt-gvl.js:142-155 | the loop fills the table in place with those sub-requests and totals the sizes |
| Gvl.SumReadLayout | nodes/ads-over-mqtt-gvl.js:156-165 | the sum read parses back as 0xF080, `m`, `4 m` plus the total size, `16 m`, and its table reads back as the sub-requests |
| Gvl.ScanCodes | nodes/ads-over-mqtt-gvl.js:178-188 | the scan finds 0x711 exactly when some code is 0x711, or throws exactly when the data is shorter than `4 n` |
| Gvl.ReadVerdict | nodes/ads-over-mqtt-gvl.js:176-188 | an invalid symbol version is reported exactly when the sum result is 0x711, or the response announces the codes and one is 0x711; the check throws exactly when the result is not 0x711 and announced codes are missing from the data |
| Gvl.IntervalMs | nodes/ads-over-mqtt-gvl.js:201-207 | the cycle interval is never 0: minutes, seconds (the default), or the number itself for another unit |
| Gvl.GvlNode.constructor | nodes/ads-over-mqtt-gvl.js:5-7 | the node starts with the parsed prefixes, no pending request and id counter 1 |
| Gvl.GvlNode.IssueId | nodes/ads-over-mqtt-gvl.js:49 | `_invokeId++`: the id is the wire id of the counter, which goes up by one; pending is untouched; while the counter is below 2^32 the id is not already pending |
| Gvl.GvlNode.PerformRead | nodes/ads-over-mqtt-gvl.js:54-98 | no match: `done(err)` or a warning and nothing sent; a length that does not fit 32 bits throws before the counter moves; otherwise one bare handle request is published and registered for the handle phase under an id that is not already pending (while the counter is below 2^32) |
| Gvl.GvlNode.OnMessage | nodes/ads-over-mqtt-gvl.js:100-195 | other topics and unknown ids change nothing; a short frame is logged; a known id is removed and its entry handled by phase |
| Gvl.GvlNode.OnHandles | nodes/ads-over-mqtt-gvl.js:114-141 | round one answered: an error is reported, no survivors finishes, survivors lead to exactly one sum read, registered under an id not among the remaining pending ones (while the counter is below 2^32) |
| Gvl.GvlNode.HandlesStep | nodes/ads-over-mqtt-gvl.js:114-174 | after round one, the counter moves by at most one and the only entry that can be added is the one under the counter's id |
| Gvl.GvlNode.SendSumRead | nodes/ads-over-mqtt-gvl.js:142-174 | the sum read is published and registered for the read phase with the same callbacks, under an id that is not already pending (while the counter is below 2^32) |
| Gvl.GvlNode.OnRead | nodes/ads-over-mqtt-gvl.js:175-194 | the raw frame is forwarded first, then "Invalid symbol version" exactly when the result or a code is 0x711, then `done` |
| Gvl.GvlNode.ReadStep | nodes/ads-over-mqtt-gvl.js:175-194 | after round two, the pending table and counter are as left by the removal, and the first event is the forwarded raw frame |
| SymbolLoader.Next | nodes/ads-over-mqtt-symbol-loader.js:150-170 | an error reply fails with that error; upload info fails exactly when it is shorter than 8 bytes or announces size 0; a table reply is always stored, with the count and size announced for it |
| SymbolLoader.NextRequestsTable | nodes/ads-over-mqtt-symbol-loader.js:150-164 | the table is requested exactly when upload info arrived with both words and a non-zero size, and then for exactly that size from 0xF00B |
| SymbolLoader.UploadInfoRoundTrip | nodes/ads-over-mqtt-symbol-loader.js:156-164 | upload info encoded as count and size leads to a table request of that size that remembers both |
| SymbolLoader.TableReplyRoundTrip | nodes/ads-over-mqtt-symbol-loader.js:164-170 | a well-formed table reply is stored as exactly the symbols it encodes |
| SymbolLoader.LoaderNode.constructor | nodes/ads-over-mqtt-symbol-loader.js:20-21 | no pending request, id counter 1 |
| SymbolLoader.LoaderNode.SendAdsRead | nodes/ads-over-mqtt-symbol-loader.js:50-85 | an id is issued that is not already pending (while the counter is below 2^32), the request is registered under it, and the Read frame is both output and published |
| SymbolLoader.LoaderNode.LoadSymbols | nodes/ads-over-mqtt-symbol-loader.js:148-150 | an input sends the 24-byte upload-info read (0xF00C) |
| SymbolLoader.LoaderNode.Deliver | nodes/ads-over-mqtt-symbol-loader.js:150-206 | a reply fails with its status, requests the table, or stores the parsed symbols in both caches and outputs them with count and size |
| SymbolLoader.LoaderNode.Delivered | nodes/ads-over-mqtt-symbol-loader.js:150-193 | after a reply the counter moves by at most one, no entry is added but the one under the counter's id, there is always an event, and both caches are left alone unless a table is stored |
| SymbolLoader.LoaderNode.OnMessage | nodes/ads-over-mqtt-symbol-loader.js:27-48 | other topics and unknown ids change nothing; a frame under 40 bytes is reported; a known id is removed and its callback gets an ADS error or the data |
| SymbolLoader.LoaderNode.Expire | nodes/ads-over-mqtt-symbol-loader.js:73-76 | a request that is still pending is removed and its callback gets a timeout; otherwise nothing happens |
| SymVersionMonitor.IntervalMs | nodes/ads-over-mqtt-sym-version-monitor.js:6-11 | the poll interval is never 0; `ms` takes the number itself |
| SymVersionMonitor.IntervalUnitsAgree | nodes/ads-over-mqtt-sym-version-monitor.js:6-11 | monitor and gvl node compute the same interval exactly for the units "", "s", "min" and "ms" |
| SymVersionMonitor.VersionAfter | nodes/ads-over-mqtt-sym-version-monitor.js:102-116 | after a version reply the last version is known, and it is the larger of old and new |
| SymVersionMonitor.VersionEvents | nodes/ads-over-mqtt-sym-version-monitor.js:112-115 | a change is announced exactly when a version was known and the new one is larger, with current and previous |
| SymVersionMonitor.OnlineEvents | nodes/ads-over-mqtt-sym-version-monitor.js:121-126 | a change is announced exactly on a false-to-true online transition |
| SymVersionMonitor.VersionRunIsMax | nodes/ads-over-mqtt-sym-version-monitor.js:102-116 | over any run of replies the last version is the maximum seen, and it was one of them |
| SymVersionMonitor.VersionRunEventsRise | nodes/ads-over-mqtt-sym-version-monitor.js:112-115 | every announcement has a current version larger than the previous one |
| SymVersionMonitor.VersionExample | nodes/ads-over-mqtt-sym-version-monitor.js:102-116 | versions 5, 5, 7, 7, 6 give one announcement (7 after 5) and leave 7 |
| SymVersionMonitor.OnlineExample | nodes/ads-over-mqtt-sym-version-monitor.js:118-132 | false, true, true, false, true announce twice; a first true announces nothing |
| SymVersionMonitor.MonitorNode.constructor | nodes/ads-over-mqtt-sym-version-monitor.js:30-33 | nothing known, no pending request, id counter 1 |
| SymVersionMonitor.MonitorNode.ReadSymVersion | nodes/ads-over-mqtt-sym-version-monitor.js:46-68 | the 4-byte Read of 0xF008 is published and its waiter registered under an id that is not already pending (while the counter is below 2^32) |
| SymVersionMonitor.MonitorNode.Restart | nodes/ads-over-mqtt-sym-version-monitor.js:70-75 | forgets version and online state and sends one plain poll |
| SymVersionMonitor.MonitorNode.Input | nodes/ads-over-mqtt-sym-version-monitor.js:78-83 | sends a poll whose reply goes to the second output, and outputs `!!lastOnline` on the third |
| SymVersionMonitor.MonitorNode.OnMessage | nodes/ads-over-mqtt-sym-version-monitor.js:85-134 | responses and info messages are dispatched by topic; unknown ids and other topics change nothing |
| SymVersionMonitor.MonitorNode.OnVersion | nodes/ads-over-mqtt-sym-version-monitor.js:95-116 | a non-zero result announces a change without versions; a short reply does nothing; a requester's waiter gets the version; a poll updates the last version |
| SymVersionMonitor.MonitorNode.VersionStep | nodes/ads-over-mqtt-sym-version-monitor.js:95-116 | a version reply gives at most one event, and an on-demand read never moves the recorded version |
| SymVersionMonitor.MonitorNode.OnInfo | nodes/ads-over-mqtt-sym-version-monitor.js:118-132 | the online flag and its announcement are as the transition functions say; nothing else changes |
| SymVersionMonitor.MonitorNode.Tick | nodes/ads-over-mqtt-sym-version-monitor.js:136 | each interval sends one plain poll under an id that is not already pending (while the counter is below 2^32) |
| WriteSymbols.DecodePayload | nodes/ads-over-mqtt-write-symbols.js:33-48 | a value exists exactly for a Buffer or an `ams`/`base64` object with string data; a Buffer is taken as is |
| WriteSymbols.WriteBuffer | nodes/ads-over-mqtt-write-symbols.js:87-88 | the write data is the name, a zero byte and the value |
| WriteSymbols.SplitWriteBuffer | nodes/ads-over-mqtt-write-symbols.js:87-88 | for a name without zero bytes, splitting at the first zero recovers the name and the value |
| WriteSymbols.WriteFrame | nodes/ads-over-mqtt-write-symbols.js:87-112 | the frame is 6 + 32 + 16 bytes plus the name, its zero byte and the value |
| WriteSymbols.WriteFrameLayout | nodes/ads-over-mqtt-write-symbols.js:87-112 | the frame is prefixed with its length and decodes to a ReadWrite header from the device's port and the payload (0xF003, 0, 0, name, 0, value) |
| WriteSymbols.WriteNode.constructor | nodes/ads-over-mqtt-write-symbols.js:26-27 | no pending request, id counter 1 |
| WriteSymbols.WriteNode.Input | nodes/ads-over-mqtt-write-symbols.js:72-116 | a missing symbol or an unsupported payload ends with `done(err)` and nothing sent; a payload whose length does not fit 32 bits throws before the counter moves; a frame total that does not fit throws after it has moved, with nothing registered; otherwise one frame is published and registered under an id that is not already pending (while the counter is below 2^32) |
| WriteSymbols.WriteNode.OnMessage | nodes/ads-over-mqtt-write-symbols.js:50-70 | both response topics are accepted, the old one with a warning; a frame under 46 bytes is reported; a known id is removed and gets `send` once, then `done` |
| ReadSymbols.ReadByNameFrame | nodes/ads-over-mqtt-client-read-symbols.js:57-82 | the frame is 6 + 32 + 17 bytes plus the name |
| ReadSymbols.ReadByNameFrameLayout | nodes/ads-over-mqtt-client-read-symbols.js:57-82 | the frame is prefixed with its length and decodes to a ReadWrite header from the source port and the payload (0xF004, 0, readLength, name, 0) |
| ReadSymbols.ReadNode.constructor | nodes/ads-over-mqtt-client-read-symbols.js:23-24 | no pending request, id counter 1 |
| ReadSymbols.ReadNode.Input | nodes/ads-over-mqtt-client-read-symbols.js:49-88 | a missing symbol ends with `done(err)`; a read length that is not a 32-bit value, or a payload length that does not fit, throws before the counter moves; a frame total that does not fit throws after it has moved, with nothing registered; otherwise one frame is published and registered under an id that is not already pending (while the counter is below 2^32) |
| ReadSymbols.ReadNode.OnMessage | nodes/ads-over-mqtt-client-read-symbols.js:30-47 | a frame under 46 bytes is reported; a known id is removed and gets `send` once with data, symbol, id and result, then `done` |

## Left out

- MQTT itself is out of scope: subscribing, the connection's `_subscribedRes`
  flag, QoS options and the client library. A publish is an event and a
  received message is a method call.
- Timers:
  - `setTimeout`, `setInterval`, `clearTimeout` and the `close` handlers
    are left out.
  - A request timer firing is `SymbolLoader.LoaderNode.Expire`, and a poll
    interval elapsing is `SymVersionMonitor.MonitorNode.Tick`.
  - `IntervalMs`, `REQUEST_TIMEOUT_MS` and the cyclic timer are recorded as
    values only. The gvl node's cyclic `performRead` is
    `PerformRead(cache, false)`.
- Codec.EncodeHeader and Codec.LengthPrefix build the 32-byte AMS header
  and the 6-byte prefix as values, not by writing them into a zeroed buffer
  in place. The same bytes come out, and `Codec.DecodeHeader` shows the
  header layout has no slack. The `adsRw` payloads and the sub-request
  tables are built in place, as in the source.
- Gvl.GvlNode.IssueId, Gvl.GvlNode.PerformRead, Gvl.GvlNode.SendSumRead,
  SymbolLoader.LoaderNode.SendAdsRead, SymVersionMonitor.MonitorNode.ReadSymVersion,
  WriteSymbols.WriteNode.Input and ReadSymbols.ReadNode.Input issue ids
  through the corrected `Codec.WireInvokeId` (see "## Findings"). From a
  node's 2^31-th request on, the source instead throws a `RangeError` in
  `writeUInt32LE(invokeId, 28)`. That happens after the counter has moved
  and before anything is registered or published. The model registers and
  publishes that request. Freshness of an issued id is stated only while the
  counter is below 2^32; past that the wrapped ids may meet old ones.
- `node.status`, the hex debug output, per-symbol error logs ("Handle error
  for …", "Read error for …") and the "No ADS connection configured" guard
  are left out. They change nothing a caller can observe through the
  pending table or the outputs.
- Net ids are given as their six bytes and their topic text:
  - `amsNetIdToBuffer` (split on dots, `parseInt`) is not modelled;
  - a text that does not give six bytes is not modelled.
- Text encoding:
  - symbol names, prefixes and topics are byte sequences, without UTF-8 or
    ASCII encoding;
  - base64 decoding is a function parameter of `WriteSymbols.DecodePayload`;
  - the `try`/`catch` around it is not modelled, because Node's decoder
    does not throw.
- `Prefixes.Trim` removes only ASCII white space (tab, line feed, vertical
  tab, form feed, carriage return, space). JavaScript's `trim` also removes
  Unicode spaces.
- The monitor's `/>(true|false)<\/online>/i` match on the info payload is
  reduced to its result: an `Option<bool>` passed to
  `SymVersionMonitor.MonitorNode.OnMessage`.
- `Number(...)` conversions:
  - In the gvl, monitor and read-symbols nodes, the interval and
    `readLength` are integers, and 0 stands for a missing or non-numeric
    setting.
  - NaN, fractional and negative intervals are not modelled.
  - A negative or too large `readLength` is the `Thrown` branch.
- `Buffer.isBuffer(message)` checks are left out, because received messages
  are always byte sequences. A non-Buffer payload to the write node is
  `OtherPayload`.
- SymVersionMonitor.MonitorNode.constructor: the constructor does not issue
  the initial `restart()` poll itself. The node as built by the source is
  the constructor followed by `Restart`.
- Context nodes are not part of this model: ads-client-connection.js,
  ads-over-mqtt-info.js, ads-over-mqtt-debug.js and ads-client-read-symbol.js.
- Symbols stored in the JavaScript contexts are plain objects, so the
  caches may be shared between flows. Here the cache is one `SymbolCache`
  object passed to the nodes.
- Aliasing of that object with other writers is not modelled.

## Findings

| source | as written | input that shows it | evidently intended | confidence | as-written member | corrected member |
|---|---|---|---|---|---|---|
| nodes/ads-over-mqtt-gvl.js:49-50 (the same line in every node) | `node._invokeId++ & 0xffffffff` gives a signed 32-bit result, and `writeUInt32LE` rejects the negative value with a `RangeError` | the 2^31-th request of one node: counter 0x8000_0000 gives id -2^31 | the invoke id is an unsigned 32-bit counter that wraps modulo 2^32 | not executed | Codec.JsMaskedInvokeIdOverflows | Codec.WireInvokeId |

### Behaviour notes

The model keeps these behaviours of the nodes:
- Response data is cut at the frame's end: `slice` clamps. A declared length
  that runs past the frame is not rejected (symbol-loader.js lines 39-40).
- A table reply is parsed as far as its entries go; a truncated table is
  not an error (symbol-loader.js lines 165-170).
- The read-symbols node reads `msg.readLength` bytes, 0 when absent. It
  derives no length from a type table (client-read-symbols.js line 51).
- A version poll answered with a non-zero result emits the change output
  without versions. It is not just reported (sym-version-monitor.js lines
  98-100).

The write-symbols node puts the device's port, not the source port, into
the source-port field of its header (write-symbols.js line 100). The model
keeps that.
