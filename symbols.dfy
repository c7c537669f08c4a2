/** The device's symbol table: the upload-buffer parser (`parseSymbols`),
    the name-to-address map kept for compatibility, and the cache both are
    stored in. */
module SymbolTable {
  import opened Bytes

  /** Fixed part of an upload entry: length, index group, index offset,
      size, data type, flags (u32 each), then name, type and comment
      lengths (u16 each). */
  const ENTRY_MIN: nat := 30

  datatype Symbol = Symbol(
    name: Text, indexGroup: u32, indexOffset: u32, size: u32,
    typeName: Text, comment: Text, dataType: u32, flags: u32)

  /** A text section that starts with one 0x00 skips it: the start moves
      by one and the length shrinks by one. A start past the end of the
      buffer reads `undefined`, which is not 0x00. */
  function SkipDelimiter(buf: seq<byte>, start: nat, len: nat): (r: (nat, nat))
    ensures r.0 + r.1 == start + len
  {
    if len > 0 && start < |buf| && buf[start] == 0 then (start + 1, len - 1) else (start, len)
  }

  /** One entry decoded at `off`: u32 fields at +4, +8, +12, +16, +20,
      u16 lengths at +24, +26, +28, the name from +30, then the type and
      the comment, each with trailing zero bytes stripped. Every read is
      relative to `off` and every slice is clamped to the end of the
      buffer, so this is the entry decoded from the bytes from `off` on. */
  function ParseEntry(buf: seq<byte>, off: nat): Symbol
    requires off + ENTRY_MIN <= |buf|
  {
    EntryAt(buf[off..])
  }

  /** The entry at the start of `e`. No text is longer than the length
      declared for it. */
  function EntryAt(e: seq<byte>): (sym: Symbol)
    requires ENTRY_MIN <= |e|
    ensures |sym.name| <= ReadU16(e, 24) && |sym.typeName| <= ReadU16(e, 26) && |sym.comment| <= ReadU16(e, 28)
  {
    var nameLength := ReadU16(e, 24);
    var typeLength := ReadU16(e, 26);
    var commentLength := ReadU16(e, 28);
    var typeText := SkipDelimiter(e, ENTRY_MIN + nameLength, typeLength);
    var commentText := SkipDelimiter(e, typeText.0 + typeText.1, commentLength);
    Symbol(
      TextAt(e, ENTRY_MIN, nameLength),
      ReadU32(e, 4), ReadU32(e, 8), ReadU32(e, 12),
      TextAt(e, typeText.0, typeText.1),
      TextAt(e, commentText.0, commentText.1),
      ReadU32(e, 16), ReadU32(e, 20))
  }

  /** A text field: `len` bytes from `start` (cut short at the end of the
      buffer) with the trailing zero bytes stripped. */
  function TextAt(buf: seq<byte>, start: nat, len: nat): (t: Text)
    ensures |t| <= len
  {
    SliceClamps(buf, start, start + len);
    TrimmedNoTrailingNull(Slice(buf, start, start + len));
    TrimTrailingNulls(Slice(buf, start, start + len))
  }

  /** The walk goes on at `off` when at least 30 bytes remain, the declared
      entry length is at least 30 and the entry ends inside the buffer. */
  predicate Accepts(buf: seq<byte>, off: nat)
  {
    off + ENTRY_MIN <= |buf| && ENTRY_MIN <= ReadU32(buf, off) && off + ReadU32(buf, off) <= |buf|
  }

  /** The offsets at which the walk decodes an entry, from `off` on: it
      advances by the declared entry length, not by what it decoded. */
  function EntryOffsets(buf: seq<byte>, off: nat): seq<nat>
    decreases |buf| - off
  {
    if Accepts(buf, off) then [off] + EntryOffsets(buf, off + ReadU32(buf, off)) else []
  }

  predicate AllAccepted(buf: seq<byte>, offs: seq<nat>)
  {
    forall k :: 0 <= k < |offs| ==> Accepts(buf, offs[k])
  }

  /** A decoder of one entry from the bytes where the entry starts. */
  type Decoder = seq<byte> --> Symbol

  /** `decode` accepts the bytes from each of the offsets on. */
  ghost predicate DecodesAt(decode: Decoder, buf: seq<byte>, offs: seq<nat>)
  {
    forall k :: 0 <= k < |offs| ==> offs[k] <= |buf| && decode.requires(buf[offs[k]..])
  }

  /** The symbols decoded at the given offsets, in order. */
  function DecodeAt(decode: Decoder, buf: seq<byte>, offs: seq<nat>): (r: seq<Symbol>)
    requires DecodesAt(decode, buf, offs)
    ensures |r| == |offs|
  {
    if offs == [] then [] else [decode(buf[offs[0]..])] + DecodeAt(decode, buf, offs[1..])
  }

  /** The k-th decoded symbol is the one decoded at the k-th offset. */
  lemma {:induction false} DecodeAtIndex(decode: Decoder, buf: seq<byte>, offs: seq<nat>, k: nat)
    requires DecodesAt(decode, buf, offs) && k < |offs|
    ensures DecodeAt(decode, buf, offs)[k] == decode(buf[offs[k]..])
  {
    var d := DecodeAt(decode, buf, offs);
    var rest := DecodeAt(decode, buf, offs[1..]);
    assert d == [decode(buf[offs[0]..])] + rest;
    if k > 0 {
      DecodeAtIndex(decode, buf, offs[1..], k - 1);
      assert d[k] == rest[k - 1];
    } else if |offs| > 1 {
      DecodeAtIndex(decode, buf, offs[1..], 0);
    }
  }

  lemma {:induction false} DecodeSnoc(decode: Decoder, buf: seq<byte>, offs: seq<nat>, off: nat)
    requires DecodesAt(decode, buf, offs) && off <= |buf| && decode.requires(buf[off..])
    ensures DecodesAt(decode, buf, offs + [off])
    ensures DecodeAt(decode, buf, offs + [off]) == DecodeAt(decode, buf, offs) + [decode(buf[off..])]
  {
    var all := offs + [off];
    assert forall k :: 0 <= k < |offs| ==> all[k] == offs[k];
    if offs != [] {
      assert all[1..] == offs[1..] + [off];
      DecodeSnoc(decode, buf, offs[1..], off);
      assert all[0] == offs[0];
    } else {
      assert all == [off];
    }
  }

  lemma DecodeCons(decode: Decoder, buf: seq<byte>, off: nat, offs: seq<nat>)
    requires off <= |buf| && decode.requires(buf[off..]) && DecodesAt(decode, buf, offs)
    ensures DecodesAt(decode, buf, [off] + offs)
    ensures DecodeAt(decode, buf, [off] + offs) == [decode(buf[off..])] + DecodeAt(decode, buf, offs)
  {
    var all := [off] + offs;
    assert forall k :: 0 <= k < |offs| ==> all[k + 1] == offs[k];
    assert all[1..] == offs;
  }

  /** At accepted offsets the entry decoder applies. */
  lemma AcceptedDecodes(buf: seq<byte>, offs: seq<nat>)
    requires AllAccepted(buf, offs)
    ensures DecodesAt(EntryAt, buf, offs)
  {
  }

  /** What the parser returns from `off` on: one symbol per offset the walk
      visits. */
  function ParseFrom(buf: seq<byte>, off: nat): (r: seq<Symbol>)
    ensures |r| == |EntryOffsets(buf, off)|
    ensures !Accepts(buf, off) ==> r == []
  {
    OffsetsAccepted(buf, off);
    AcceptedDecodes(buf, EntryOffsets(buf, off));
    DecodeAt(EntryAt, buf, EntryOffsets(buf, off))
  }

  /** The offset at which the walk stops. */
  ghost function StopOffset(buf: seq<byte>, off: nat): nat
    decreases |buf| - off
  {
    if Accepts(buf, off) then StopOffset(buf, off + ReadU32(buf, off)) else off
  }

  /** Every offset the walk visits is one it accepts. */
  lemma {:induction false} OffsetsAccepted(buf: seq<byte>, off: nat)
    ensures AllAccepted(buf, EntryOffsets(buf, off))
    decreases |buf| - off
  {
    if Accepts(buf, off) {
      var n := ReadU32(buf, off);
      OffsetsAccepted(buf, off + n);
      OffsetsUnfold(buf, off, n);
    } else {
      OffsetsStopped(buf, off);
    }
  }

  lemma OffsetsUnfold(buf: seq<byte>, off: nat, n: nat)
    requires Accepts(buf, off) && ReadU32(buf, off) == n
    ensures EntryOffsets(buf, off) == [off] + EntryOffsets(buf, off + n)
    ensures StopOffset(buf, off) == StopOffset(buf, off + n)
  {
  }

  lemma OffsetsStopped(buf: seq<byte>, off: nat)
    requires !Accepts(buf, off)
    ensures EntryOffsets(buf, off) == [] && StopOffset(buf, off) == off
  {
  }

  /** The first entry the walk visits starts at `off`, and each next one
      starts where the previous one's declared length ends. */
  lemma {:induction false} EntriesChained(buf: seq<byte>, off: nat)
    ensures |EntryOffsets(buf, off)| > 0 ==> EntryOffsets(buf, off)[0] == off
    ensures forall k :: 0 <= k < |EntryOffsets(buf, off)| - 1 ==>
              EntryOffsets(buf, off)[k] + 4 <= |buf| &&
              EntryOffsets(buf, off)[k + 1] == EntryOffsets(buf, off)[k] + ReadU32(buf, EntryOffsets(buf, off)[k])
    decreases |buf| - off
  {
    if Accepts(buf, off) {
      var n := ReadU32(buf, off);
      var next := off + n;
      EntriesChained(buf, next);
      OffsetsUnfold(buf, off, n);
      var offs := EntryOffsets(buf, off);
      var rest := EntryOffsets(buf, next);
      forall k | 0 <= k < |offs| - 1
        ensures offs[k] + 4 <= |buf| && offs[k + 1] == offs[k] + ReadU32(buf, offs[k])
      {
        if k > 0 {
          assert offs[k] == rest[k - 1] && offs[k + 1] == rest[k];
        }
      }
    } else {
      OffsetsStopped(buf, off);
    }
  }

  /** Every entry is at least 30 bytes, so from `off` at most
      (|buf| - off) / 30 symbols come out. */
  lemma {:induction false} ParseFromBound(buf: seq<byte>, off: nat)
    requires off <= |buf|
    ensures |ParseFrom(buf, off)| * ENTRY_MIN <= |buf| - off
    decreases |buf| - off
  {
    OffsetsBound(buf, off);
  }

  lemma {:induction false} OffsetsBound(buf: seq<byte>, off: nat)
    requires off <= |buf|
    ensures |EntryOffsets(buf, off)| * ENTRY_MIN <= |buf| - off
    decreases |buf| - off
  {
    if Accepts(buf, off) {
      var n := ReadU32(buf, off);
      OffsetsBound(buf, off + n);
      OffsetsUnfold(buf, off, n);
    } else {
      OffsetsStopped(buf, off);
    }
  }

  /** The walk stops inside the buffer, never before where it started. */
  lemma {:induction false} StopInside(buf: seq<byte>, off: nat)
    requires off <= |buf|
    ensures off <= StopOffset(buf, off) <= |buf|
    decreases |buf| - off
  {
    if Accepts(buf, off) {
      var n := ReadU32(buf, off);
      StopInside(buf, off + n);
      OffsetsUnfold(buf, off, n);
    } else {
      OffsetsStopped(buf, off);
    }
  }

  /** `parseSymbols`: walks the upload buffer and collects one symbol per
      accepted entry. */
  method ParseSymbols(buf: seq<byte>) returns (symbols: seq<Symbol>)
    ensures symbols == ParseFrom(buf, 0)
    ensures |symbols| * ENTRY_MIN <= |buf|
    ensures forall k :: 0 <= k < |symbols| ==>
              NoTrailingNull(symbols[k].name) && NoTrailingNull(symbols[k].typeName) &&
              NoTrailingNull(symbols[k].comment)
  {
    symbols := [];
    var offset: nat := 0;
    ghost var visited: seq<nat> := [];
    while offset + ENTRY_MIN <= |buf|
      invariant Walked(EntryAt, buf, offset, visited, symbols)
      decreases |buf| - offset
    {
      var entryLen := ReadU32(buf, offset);
      if entryLen < ENTRY_MIN || offset + entryLen > |buf| {
        break;
      }
      var entry := ParseEntry(buf, offset);
      WalkStep(EntryAt, buf, offset, visited, symbols);
      symbols := symbols + [entry];
      visited := visited + [offset];
      offset := offset + entryLen;
    }
    WalkEnd(buf, offset, visited, symbols);
  }

  /** The loop invariant of `ParseSymbols`: the offsets visited so far and
      what remains make up the whole walk, and `symbols` holds one decoded
      entry per visited offset. */
  ghost predicate Walked(decode: Decoder, buf: seq<byte>, offset: nat, visited: seq<nat>, symbols: seq<Symbol>)
  {
    && offset <= |buf|
    && visited + EntryOffsets(buf, offset) == EntryOffsets(buf, 0)
    && DecodesAt(decode, buf, visited)
    && symbols == DecodeAt(decode, buf, visited)
  }

  lemma WalkStep(decode: Decoder, buf: seq<byte>, offset: nat, visited: seq<nat>, symbols: seq<Symbol>)
    requires Walked(decode, buf, offset, visited, symbols) && Accepts(buf, offset)
    requires decode.requires(buf[offset..])
    ensures Walked(decode, buf, offset + ReadU32(buf, offset), visited + [offset], symbols + [decode(buf[offset..])])
  {
    var n := ReadU32(buf, offset);
    StepOffsets(buf, offset, n, visited);
    DecodeSnoc(decode, buf, visited, offset);
  }

  lemma StepOffsets(buf: seq<byte>, offset: nat, n: nat, visited: seq<nat>)
    requires Accepts(buf, offset) && ReadU32(buf, offset) == n
    ensures visited + EntryOffsets(buf, offset) == (visited + [offset]) + EntryOffsets(buf, offset + n)
  {
    OffsetsUnfold(buf, offset, n);
    AppendStep(visited, offset, EntryOffsets(buf, offset + n));
  }

  lemma WalkEnd(buf: seq<byte>, offset: nat, visited: seq<nat>, symbols: seq<Symbol>)
    requires Walked(EntryAt, buf, offset, visited, symbols) && !Accepts(buf, offset)
    ensures symbols == ParseFrom(buf, 0)
    ensures |symbols| * ENTRY_MIN <= |buf|
    ensures forall k :: 0 <= k < |symbols| ==>
              NoTrailingNull(symbols[k].name) && NoTrailingNull(symbols[k].typeName) &&
              NoTrailingNull(symbols[k].comment)
  {
    OffsetsStopped(buf, offset);
    assert visited == EntryOffsets(buf, 0);
    ParseFromBound(buf, 0);
    TextFieldsTrimmed(buf, 0);
  }

  lemma AppendStep(done: seq<nat>, x: nat, rest: seq<nat>)
    ensures done + ([x] + rest) == (done + [x]) + rest
  {
  }

  lemma TextsTrimmed(e: seq<byte>)
    requires ENTRY_MIN <= |e|
    ensures NoTrailingNull(EntryAt(e).name) && NoTrailingNull(EntryAt(e).typeName)
    ensures NoTrailingNull(EntryAt(e).comment)
  {
    var s := EntryAt(e);
    var typeText := SkipDelimiter(e, ENTRY_MIN + ReadU16(e, 24), ReadU16(e, 26));
    var commentText := SkipDelimiter(e, typeText.0 + typeText.1, ReadU16(e, 28));
    TextTrimmed(e, ENTRY_MIN, ReadU16(e, 24));
    TextTrimmed(e, typeText.0, typeText.1);
    TextTrimmed(e, commentText.0, commentText.1);
  }

  lemma TextTrimmed(buf: seq<byte>, start: nat, len: nat)
    ensures NoTrailingNull(TextAt(buf, start, len))
  {
    TrimmedNoTrailingNull(Slice(buf, start, start + len));
  }

  /** No decoded text field ends in a zero byte. */
  lemma TextFieldsTrimmed(buf: seq<byte>, off: nat)
    ensures forall k :: 0 <= k < |ParseFrom(buf, off)| ==>
              NoTrailingNull(ParseFrom(buf, off)[k].name) &&
              NoTrailingNull(ParseFrom(buf, off)[k].typeName) &&
              NoTrailingNull(ParseFrom(buf, off)[k].comment)
  {
    var offs := EntryOffsets(buf, off);
    OffsetsAccepted(buf, off);
    AcceptedDecodes(buf, offs);
    forall k | 0 <= k < |ParseFrom(buf, off)|
      ensures NoTrailingNull(ParseFrom(buf, off)[k].name) &&
              NoTrailingNull(ParseFrom(buf, off)[k].typeName) &&
              NoTrailingNull(ParseFrom(buf, off)[k].comment)
    {
      DecodeAtIndex(EntryAt, buf, offs, k);
      TextsTrimmed(buf[offs[k]..]);
    }
  }

  // ---------------------------------------------------------------------
  // The entry layout the parser reads back exactly

  /** An entry written as: the fixed part, the name, 0x00, the type name,
      0x00, the comment, then any trailing sub-fields. The type and comment
      lengths count the 0x00 that precedes each. */
  datatype EntryLayout = EntryLayout(sym: Symbol, trailer: seq<byte>)

  function EntryLength(e: EntryLayout): nat
  {
    ENTRY_MIN + |e.sym.name| + 1 + |e.sym.typeName| + 1 + |e.sym.comment| + |e.trailer|
  }

  predicate Encodable(e: EntryLayout)
  {
    && NoTrailingNull(e.sym.name) && NoTrailingNull(e.sym.typeName) && NoTrailingNull(e.sym.comment)
    && |e.sym.name| < 0x1_0000 && |e.sym.typeName| + 1 < 0x1_0000 && |e.sym.comment| + 1 < 0x1_0000
    && EntryLength(e) < 0x1_0000_0000
  }

  function EntryFixedPart(e: EntryLayout): (r: seq<byte>)
    requires Encodable(e)
    ensures |r| == ENTRY_MIN
  {
    U32LE(EntryLength(e)) + U32LE(e.sym.indexGroup) + U32LE(e.sym.indexOffset) + U32LE(e.sym.size)
    + U32LE(e.sym.dataType) + U32LE(e.sym.flags)
    + U16LE(|e.sym.name|) + U16LE(|e.sym.typeName| + 1) + U16LE(|e.sym.comment| + 1)
  }

  function EncodeEntry(e: EntryLayout): (r: seq<byte>)
    requires Encodable(e)
    ensures |r| == EntryLength(e)
  {
    EntryFixedPart(e) + e.sym.name + [0] + e.sym.typeName + [0] + e.sym.comment + e.trailer
  }

  lemma TrimNoop(s: seq<byte>)
    requires NoTrailingNull(s)
    ensures TrimTrailingNulls(s) == s
  {
    TrimIdempotentOn(s, 0);
    assert s + Zeros(0) == s;
  }

  /** The fixed part's fields, read where the parser reads them. */
  lemma FixedPartFields(e: EntryLayout, buf: seq<byte>)
    requires Encodable(e) && |buf| >= ENTRY_MIN && buf[..ENTRY_MIN] == EntryFixedPart(e)
    ensures ReadU32(buf, 0) == EntryLength(e)
    ensures ReadU32(buf, 4) == e.sym.indexGroup && ReadU32(buf, 8) == e.sym.indexOffset
    ensures ReadU32(buf, 12) == e.sym.size && ReadU32(buf, 16) == e.sym.dataType
    ensures ReadU32(buf, 20) == e.sym.flags
    ensures ReadU16(buf, 24) == |e.sym.name| && ReadU16(buf, 26) == |e.sym.typeName| + 1
    ensures ReadU16(buf, 28) == |e.sym.comment| + 1
  {
    var f := EntryFixedPart(e);
    assert buf[0..4] == f[0..4] == U32LE(EntryLength(e));
    assert buf[4..8] == f[4..8] == U32LE(e.sym.indexGroup);
    assert buf[8..12] == f[8..12] == U32LE(e.sym.indexOffset);
    assert buf[12..16] == f[12..16] == U32LE(e.sym.size);
    assert buf[16..20] == f[16..20] == U32LE(e.sym.dataType);
    assert buf[20..24] == f[20..24] == U32LE(e.sym.flags);
    assert buf[24..26] == f[24..26] == U16LE(|e.sym.name|);
    assert buf[26..28] == f[26..28] == U16LE(|e.sym.typeName| + 1);
    assert buf[28..30] == f[28..30] == U16LE(|e.sym.comment| + 1);
    ReadU32At(buf, 0, EntryLength(e));
    ReadU32At(buf, 4, e.sym.indexGroup);
    ReadU32At(buf, 8, e.sym.indexOffset);
    ReadU32At(buf, 12, e.sym.size);
    ReadU32At(buf, 16, e.sym.dataType);
    ReadU32At(buf, 20, e.sym.flags);
    ReadU16At(buf, 24, |e.sym.name|);
    ReadU16At(buf, 26, |e.sym.typeName| + 1);
    ReadU16At(buf, 28, |e.sym.comment| + 1);
  }

  /** An encoded entry, whatever follows it, decodes to its symbol. */
  lemma ParseEncodedEntry(e: EntryLayout, rest: seq<byte>)
    requires Encodable(e)
    ensures ParseEntry(EncodeEntry(e) + rest, 0) == e.sym
  {
    var buf := EncodeEntry(e) + rest;
    EncodedSections(e, rest);
    FixedPartFields(e, buf);
    EncodedTexts(e, buf);
    EntryFromSections(e, buf);
    assert buf[0..] == buf;
  }

  /** Where the encoder puts each part: the fixed part first, then each text
      with the 0x00 before the type name and before the comment. */
  lemma EncodedSections(e: EntryLayout, rest: seq<byte>)
    requires Encodable(e)
    ensures var buf := EncodeEntry(e) + rest;
      var s := e.sym;
      var typeDelim := ENTRY_MIN + |s.name|;
      var commentDelim := typeDelim + 1 + |s.typeName|;
      && commentDelim + 1 + |s.comment| <= |buf|
      && buf[..ENTRY_MIN] == EntryFixedPart(e)
      && buf[ENTRY_MIN..typeDelim] == s.name
      && buf[typeDelim] == 0
      && buf[typeDelim + 1..commentDelim] == s.typeName
      && buf[commentDelim] == 0
      && buf[commentDelim + 1..commentDelim + 1 + |s.comment|] == s.comment
  {
    var s := e.sym;
    var f := EntryFixedPart(e);
    var tail := e.trailer + rest;
    assert EncodeEntry(e) + rest == f + s.name + [0] + s.typeName + [0] + s.comment + tail;
    SectionsAt(f, s.name, s.typeName, s.comment, tail);
  }

  /** The same for any fixed part and texts. */
  lemma SectionsAt(f: seq<byte>, name: Text, typeName: Text, comment: Text, tail: seq<byte>)
    requires |f| == ENTRY_MIN
    ensures var buf := f + name + [0] + typeName + [0] + comment + tail;
      var typeDelim := ENTRY_MIN + |name|;
      var commentDelim := typeDelim + 1 + |typeName|;
      && commentDelim + 1 + |comment| <= |buf|
      && buf[..ENTRY_MIN] == f
      && buf[ENTRY_MIN..typeDelim] == name
      && buf[typeDelim] == 0
      && buf[typeDelim + 1..commentDelim] == typeName
      && buf[commentDelim] == 0
      && buf[commentDelim + 1..commentDelim + 1 + |comment|] == comment
  {
    var buf := f + name + [0] + typeName + [0] + comment + tail;
    var typeDelim := ENTRY_MIN + |name|;
    var commentDelim := typeDelim + 1 + |typeName|;
    var after := comment + tail;
    assert buf == f + name + [0] + typeName + [0] + after;
    assert buf[..ENTRY_MIN] == f;
    assert buf[ENTRY_MIN..typeDelim] == name;
    assert buf[typeDelim + 1..commentDelim] == typeName;
    assert buf[commentDelim + 1..] == after;
    assert after[..|comment|] == comment;
  }

  /** The fixed part of `buf` carries the symbol's numeric fields and the
      three text lengths the encoder writes. */
  predicate FixedFieldsHold(e: EntryLayout, buf: seq<byte>)
  {
    && ENTRY_MIN <= |buf|
    && ReadU32(buf, 4) == e.sym.indexGroup && ReadU32(buf, 8) == e.sym.indexOffset
    && ReadU32(buf, 12) == e.sym.size && ReadU32(buf, 16) == e.sym.dataType
    && ReadU32(buf, 20) == e.sym.flags
    && ReadU16(buf, 24) == |e.sym.name| && ReadU16(buf, 26) == |e.sym.typeName| + 1
    && ReadU16(buf, 28) == |e.sym.comment| + 1
  }

  /** A buffer whose fixed part and texts read back as an entry's decodes to
      that entry's symbol. */
  lemma EntryFromSections(e: EntryLayout, buf: seq<byte>)
    requires FixedFieldsHold(e, buf)
    requires var s := e.sym;
      var typeDelim := ENTRY_MIN + |s.name|;
      var commentDelim := typeDelim + 1 + |s.typeName|;
      && TextAt(buf, ENTRY_MIN, |s.name|) == s.name
      && SkipDelimiter(buf, typeDelim, |s.typeName| + 1) == (typeDelim + 1, |s.typeName|)
      && TextAt(buf, typeDelim + 1, |s.typeName|) == s.typeName
      && SkipDelimiter(buf, commentDelim, |s.comment| + 1) == (commentDelim + 1, |s.comment|)
      && TextAt(buf, commentDelim + 1, |s.comment|) == s.comment
    ensures EntryAt(buf) == e.sym
  {
    var s := e.sym;
    EntryAtFields(buf, |s.name|, |s.typeName| + 1, |s.comment| + 1);
  }

  /** The texts of an encoded entry, where the parser reads them. */
  lemma EncodedTexts(e: EntryLayout, buf: seq<byte>)
    requires NoTrailingNull(e.sym.name) && NoTrailingNull(e.sym.typeName) && NoTrailingNull(e.sym.comment)
    requires var s := e.sym;
      var typeDelim := ENTRY_MIN + |s.name|;
      var commentDelim := typeDelim + 1 + |s.typeName|;
      && commentDelim + 1 + |s.comment| <= |buf|
      && buf[ENTRY_MIN..typeDelim] == s.name
      && buf[typeDelim] == 0
      && buf[typeDelim + 1..commentDelim] == s.typeName
      && buf[commentDelim] == 0
      && buf[commentDelim + 1..commentDelim + 1 + |s.comment|] == s.comment
    ensures var s := e.sym;
      var typeDelim := ENTRY_MIN + |s.name|;
      var commentDelim := typeDelim + 1 + |s.typeName|;
      && TextAt(buf, ENTRY_MIN, |s.name|) == s.name
      && SkipDelimiter(buf, typeDelim, |s.typeName| + 1) == (typeDelim + 1, |s.typeName|)
      && TextAt(buf, typeDelim + 1, |s.typeName|) == s.typeName
      && SkipDelimiter(buf, commentDelim, |s.comment| + 1) == (commentDelim + 1, |s.comment|)
      && TextAt(buf, commentDelim + 1, |s.comment|) == s.comment
  {
    var s := e.sym;
    var typeDelim := ENTRY_MIN + |s.name|;
    var commentDelim := typeDelim + 1 + |s.typeName|;
    TextSection(buf, ENTRY_MIN, s.name);
    DelimitedSection(buf, typeDelim, s.typeName);
    DelimitedSection(buf, commentDelim, s.comment);
  }

  /** The entry at the start of `buf`, once its three declared lengths are
      known. */
  lemma EntryAtFields(buf: seq<byte>, nameLength: nat, typeLength: nat, commentLength: nat)
    requires ENTRY_MIN <= |buf|
    requires ReadU16(buf, 24) == nameLength && ReadU16(buf, 26) == typeLength && ReadU16(buf, 28) == commentLength
    ensures var typeText := SkipDelimiter(buf, ENTRY_MIN + nameLength, typeLength);
      var commentText := SkipDelimiter(buf, typeText.0 + typeText.1, commentLength);
      EntryAt(buf) == Symbol(
        TextAt(buf, ENTRY_MIN, nameLength),
        ReadU32(buf, 4), ReadU32(buf, 8), ReadU32(buf, 12),
        TextAt(buf, typeText.0, typeText.1),
        TextAt(buf, commentText.0, commentText.1),
        ReadU32(buf, 16), ReadU32(buf, 20))
  {
  }

  /** A text field that lies inside the buffer with no trailing zero byte is
      read back as it is. */
  lemma TextSection(buf: seq<byte>, start: nat, t: Text)
    requires start + |t| <= |buf| && buf[start..start + |t|] == t && NoTrailingNull(t)
    ensures TextAt(buf, start, |t|) == t
  {
    SliceWithin(buf, start, start + |t|);
    TrimNoop(t);
  }

  /** A 0x00 then a text: the delimiter is skipped and the text read back. */
  lemma DelimitedSection(buf: seq<byte>, at: nat, t: Text)
    requires at + 1 + |t| <= |buf| && buf[at] == 0 && buf[at + 1..at + 1 + |t|] == t && NoTrailingNull(t)
    ensures SkipDelimiter(buf, at, |t| + 1) == (at + 1, |t|)
    ensures TextAt(buf, at + 1, |t|) == t
  {
    TextSection(buf, at + 1, t);
  }

  lemma ReadAfterPrefix(p: seq<byte>, b: seq<byte>, off: nat)
    requires off + 4 <= |b|
    ensures ReadU32(p + b, |p| + off) == ReadU32(b, off)
  {
  }

  /** Every offset moved up by `d`. */
  function Shifted(offs: seq<nat>, d: nat): (r: seq<nat>)
    ensures |r| == |offs| && forall k :: 0 <= k < |offs| ==> r[k] == d + offs[k]
  {
    seq(|offs|, k requires 0 <= k < |offs| => d + offs[k])
  }

  lemma ShiftedCons(off: nat, rest: seq<nat>, d: nat)
    ensures Shifted([off] + rest, d) == [d + off] + Shifted(rest, d)
  {
    var all := [off] + rest;
    assert forall k :: 0 <= k < |rest| ==> all[k + 1] == rest[k];
  }

  /** One step of the walk, on offsets alone: a visited offset in front of
      the moved rest is the moved offset in front of the rest. */
  lemma ShiftStep(x: seq<nat>, y: seq<nat>, rest: seq<nat>, movedRest: seq<nat>, off: nat, d: nat)
    requires movedRest == Shifted(rest, d) && x == [d + off] + movedRest && y == [off] + rest
    ensures x == Shifted(y, d)
  {
    ShiftedCons(off, rest, d);
  }

  /** Behind a prefix the walk visits the same entries, moved up by the
      prefix length. */
  lemma {:induction false} OffsetsAfterPrefix(p: seq<byte>, b: seq<byte>, off: nat)
    ensures EntryOffsets(p + b, |p| + off) == Shifted(EntryOffsets(b, off), |p|)
    decreases |b| - off
  {
    var pb := p + b;
    var o := |p| + off;
    AcceptsAfterPrefix(p, b, off);
    if Accepts(b, off) {
      var n := ReadU32(b, off);
      ReadAfterPrefix(p, b, off);
      var next := off + n;
      OffsetsAfterPrefix(p, b, next);
      assert o + n == |p| + next;
      OffsetsUnfold(pb, o, n);
      OffsetsUnfold(b, off, n);
      ShiftStep(EntryOffsets(pb, o), EntryOffsets(b, off), EntryOffsets(b, next), EntryOffsets(pb, o + n), off, |p|);
    } else {
      OffsetsStopped(pb, o);
      OffsetsStopped(b, off);
    }
  }

  /** Decoding the moved offsets behind a prefix gives the same symbols,
      whatever the decoder: it sees the same bytes. */
  lemma {:induction false} DecodeAfterPrefix(decode: Decoder, p: seq<byte>, b: seq<byte>, offs: seq<nat>)
    requires DecodesAt(decode, b, offs)
    ensures DecodesAt(decode, p + b, Shifted(offs, |p|))
    ensures DecodeAt(decode, p + b, Shifted(offs, |p|)) == DecodeAt(decode, b, offs)
  {
    var moved := Shifted(offs, |p|);
    forall k | 0 <= k < |offs|
      ensures moved[k] <= |p + b| && (p + b)[moved[k]..] == b[offs[k]..]
    {
      assert (p + b)[|p| + offs[k]..] == b[offs[k]..];
    }
    if offs != [] {
      assert moved[1..] == Shifted(offs[1..], |p|);
      DecodeAfterPrefix(decode, p, b, offs[1..]);
    }
  }

  /** The walk over `p + b` from `|p| + off` stops `|p|` further on than the
      walk over `b` from `off`. */
  lemma {:induction false} StopAfterPrefix(p: seq<byte>, b: seq<byte>, off: nat)
    ensures StopOffset(p + b, |p| + off) == |p| + StopOffset(b, off)
    decreases |b| - off
  {
    var pb := p + b;
    var o := |p| + off;
    AcceptsAfterPrefix(p, b, off);
    if Accepts(b, off) {
      var n := ReadU32(b, off);
      ReadAfterPrefix(p, b, off);
      var next := off + n;
      StopAfterPrefix(p, b, next);
      OffsetsUnfold(pb, o, n);
      assert o + n == |p| + next;
    } else {
      OffsetsStopped(pb, o);
      OffsetsStopped(b, off);
    }
  }

  lemma AcceptsAfterPrefix(p: seq<byte>, b: seq<byte>, off: nat)
    ensures Accepts(p + b, |p| + off) == Accepts(b, off)
  {
    if off + 4 <= |b| {
      ReadAfterPrefix(p, b, off);
    }
  }

  function EncodeTable(es: seq<EntryLayout>): seq<byte>
    requires forall k :: 0 <= k < |es| ==> Encodable(es[k])
  {
    if es == [] then [] else EncodeEntry(es[0]) + EncodeTable(es[1..])
  }

  function SymbolsOf(es: seq<EntryLayout>): (r: seq<Symbol>)
    ensures |r| == |es| && forall k :: 0 <= k < |es| ==> r[k] == es[k].sym
  {
    seq(|es|, k requires 0 <= k < |es| => es[k].sym)
  }

  lemma SymbolsOfCons(es: seq<EntryLayout>)
    requires es != []
    ensures SymbolsOf(es) == [es[0].sym] + SymbolsOf(es[1..])
  {
    var r := [es[0].sym] + SymbolsOf(es[1..]);
    assert forall k :: 0 <= k < |es| ==> r[k] == es[k].sym by {
      forall k | 0 <= k < |es| ensures r[k] == es[k].sym {
        if k > 0 {
          assert r[k] == SymbolsOf(es[1..])[k - 1] == es[1..][k - 1].sym;
        }
      }
    }
  }

  /** A table of N well-formed entries parses to exactly those N symbols. */
  lemma {:induction false} ParseEncodedTable(es: seq<EntryLayout>)
    requires forall k :: 0 <= k < |es| ==> Encodable(es[k])
    ensures ParseFrom(EncodeTable(es), 0) == SymbolsOf(es)
  {
    if es == [] {
      OffsetsStopped(EncodeTable(es), 0);
    } else {
      var head := EncodeEntry(es[0]);
      var tail := EncodeTable(es[1..]);
      var buf := head + tail;
      assert EncodeTable(es) == buf;
      ParseEncodedTable(es[1..]);
      ParseEncodedEntry(es[0], tail);
      HeadAccepted(es[0], tail);
      ParseOnConcat(head, tail);
      SymbolsOfCons(es);
    }
  }

  /** The walk over a table of well-formed entries ends exactly at the end
      of the table: the declared lengths add up to the whole buffer. */
  lemma {:induction false} EncodedTableStop(es: seq<EntryLayout>)
    requires forall k :: 0 <= k < |es| ==> Encodable(es[k])
    ensures StopOffset(EncodeTable(es), 0) == |EncodeTable(es)|
  {
    if es == [] {
      OffsetsStopped(EncodeTable(es), 0);
    } else {
      var head := EncodeEntry(es[0]);
      var tail := EncodeTable(es[1..]);
      var buf := head + tail;
      assert EncodeTable(es) == buf;
      EncodedTableStop(es[1..]);
      HeadAccepted(es[0], tail);
      StopOnConcat(head, tail);
    }
  }

  /** An accepted entry spanning exactly `head`: the walk goes on with `tail`. */
  lemma ParseOnConcat(head: seq<byte>, tail: seq<byte>)
    requires Accepts(head + tail, 0) && ReadU32(head + tail, 0) == |head|
    ensures ParseFrom(head + tail, 0) == [ParseEntry(head + tail, 0)] + ParseFrom(tail, 0)
  {
    var buf := head + tail;
    var offs := EntryOffsets(tail, 0);
    OffsetsOnConcat(head, tail);
    OffsetsAccepted(tail, 0);
    AcceptedDecodes(tail, offs);
    DecodeOnConcat(EntryAt, head, tail, offs);
    assert buf[0..] == buf;
  }

  /** The walk over `head + tail` visits 0, then the walk over `tail` moved
      past `head`. */
  lemma OffsetsOnConcat(head: seq<byte>, tail: seq<byte>)
    requires Accepts(head + tail, 0) && ReadU32(head + tail, 0) == |head|
    ensures EntryOffsets(head + tail, 0) == [0] + Shifted(EntryOffsets(tail, 0), |head|)
  {
    OffsetsUnfold(head + tail, 0, |head|);
    OffsetsAfterPrefix(head, tail, 0);
    assert 0 + |head| == |head| + 0;
  }

  lemma DecodeOnConcat(decode: Decoder, head: seq<byte>, tail: seq<byte>, offs: seq<nat>)
    requires decode.requires(head + tail) && DecodesAt(decode, tail, offs)
    ensures DecodesAt(decode, head + tail, [0] + Shifted(offs, |head|))
    ensures DecodeAt(decode, head + tail, [0] + Shifted(offs, |head|))
      == [decode(head + tail)] + DecodeAt(decode, tail, offs)
  {
    var buf := head + tail;
    DecodeAfterPrefix(decode, head, tail, offs);
    assert buf[0..] == buf;
    DecodeCons(decode, buf, 0, Shifted(offs, |head|));
  }

  lemma StopOnConcat(head: seq<byte>, tail: seq<byte>)
    requires Accepts(head + tail, 0) && ReadU32(head + tail, 0) == |head|
    ensures StopOffset(head + tail, 0) == |head| + StopOffset(tail, 0)
  {
    OffsetsUnfold(head + tail, 0, |head|);
    StopAfterPrefix(head, tail, 0);
    assert 0 + |head| == |head| + 0;
  }

  /** The walk accepts an encoded entry and advances by its whole length. */
  lemma HeadAccepted(e: EntryLayout, rest: seq<byte>)
    requires Encodable(e)
    ensures Accepts(EncodeEntry(e) + rest, 0)
    ensures ReadU32(EncodeEntry(e) + rest, 0) == |EncodeEntry(e)|
  {
    EncodedSections(e, rest);
    FixedPartFields(e, EncodeEntry(e) + rest);
  }

  // ---------------------------------------------------------------------
  // The name-to-address map of the global context

  datatype Address = Address(ig: u32, io: u32, size: u32, dataType: u32)

  function AddressOf(s: Symbol): Address
  {
    Address(s.indexGroup, s.indexOffset, s.size, s.dataType)
  }

  /** The map after assigning each symbol in order: later entries with the
      same name overwrite earlier ones. */
  function AddressMap(syms: seq<Symbol>): (m: map<Text, Address>)
    ensures |m| <= |syms|
  {
    if syms == [] then map[]
    else AddressMap(syms[..|syms| - 1])[syms[|syms| - 1].name := AddressOf(syms[|syms| - 1])]
  }

  /** The keys are exactly the names, and each name maps to the address of
      its last occurrence. */
  lemma AddressMapLastWins(syms: seq<Symbol>)
    ensures forall n :: n in AddressMap(syms) <==> exists k :: 0 <= k < |syms| && syms[k].name == n
    ensures forall i :: 0 <= i < |syms| && (forall j :: i < j < |syms| ==> syms[j].name != syms[i].name) ==>
              AddressMap(syms)[syms[i].name] == AddressOf(syms[i])
  {
    forall n ensures n in AddressMap(syms) <==> exists k :: 0 <= k < |syms| && syms[k].name == n {
      AddressMapKey(syms, n);
    }
    forall i | 0 <= i < |syms| && (forall j :: i < j < |syms| ==> syms[j].name != syms[i].name)
      ensures AddressMap(syms)[syms[i].name] == AddressOf(syms[i])
    {
      AddressMapAt(syms, i);
    }
  }

  lemma {:induction false} AddressMapKey(syms: seq<Symbol>, n: Text)
    ensures n in AddressMap(syms) <==> exists k :: 0 <= k < |syms| && syms[k].name == n
  {
    if syms != [] {
      var init := syms[..|syms| - 1];
      var last := |syms| - 1;
      AddressMapKey(init, n);
      if syms[last].name == n {
        assert syms[last].name == n;
      } else if exists k :: 0 <= k < |syms| && syms[k].name == n {
        var k :| 0 <= k < |syms| && syms[k].name == n;
        assert init[k].name == n;
      }
    }
  }

  lemma {:induction false} AddressMapAt(syms: seq<Symbol>, i: nat)
    requires i < |syms| && forall j :: i < j < |syms| ==> syms[j].name != syms[i].name
    ensures syms[i].name in AddressMap(syms) && AddressMap(syms)[syms[i].name] == AddressOf(syms[i])
  {
    var last := |syms| - 1;
    if i < last {
      var init := syms[..last];
      assert forall j :: i < j < |init| ==> init[j].name != init[i].name by {
        forall j | i < j < |init| ensures init[j].name != init[i].name {
          assert init[j] == syms[j] && init[i] == syms[i];
        }
      }
      AddressMapAt(init, i);
      assert syms[last].name != syms[i].name;
    }
  }

  /** The `symbols.forEach(...)` loop that fills the map. */
  method BuildAddressMap(syms: seq<Symbol>) returns (target: map<Text, Address>)
    ensures target == AddressMap(syms)
    ensures forall n :: n in target <==> exists k :: 0 <= k < |syms| && syms[k].name == n
    ensures forall i :: 0 <= i < |syms| && (forall j :: i < j < |syms| ==> syms[j].name != syms[i].name) ==>
              target[syms[i].name] == AddressOf(syms[i])
  {
    target := map[];
    for i := 0 to |syms|
      invariant target == AddressMap(syms[..i])
    {
      assert syms[..i + 1][..i] == syms[..i];
      target := target[syms[i].name := AddressOf(syms[i])];
    }
    assert syms[..|syms|] == syms;
    AddressMapLastWins(syms);
  }

  // ---------------------------------------------------------------------
  // The cache

  /** The flow context's "symbols" object (key `namespace/target` to the
      parsed list) and the global context's "symbols" object (connection id
      to target to name map). */
  class SymbolCache {
    var flow: map<string, seq<Symbol>>
    var global: map<string, map<string, map<Text, Address>>>

    constructor ()
      ensures flow == map[] && global == map[]
    {
      flow := map[];
      global := map[];
    }

    /** `symbolsMap[key] || []`. */
    function Table(key: string): (r: seq<Symbol>)
      reads this
      ensures key in flow ==> r == flow[key]
      ensures key !in flow ==> r == []
    {
      if key in flow then flow[key] else []
    }

    function GlobalFor(connId: string): map<string, map<Text, Address>>
      reads this
    {
      if connId in global then global[connId] else map[]
    }

    /** A reload replaces the flow entry for `key` wholesale, and the global
        entry for (connection, target); nothing else changes. */
    method Replace(key: string, connId: string, target: string, symbols: seq<Symbol>)
      modifies this
      ensures flow == old(flow)[key := symbols]
      ensures global == old(global)[connId := old(GlobalFor(connId))[target := AddressMap(symbols)]]
    {
      flow := flow[key := symbols];
      var names := BuildAddressMap(symbols);
      global := global[connId := GlobalFor(connId)[target := names]];
    }
  }
}
