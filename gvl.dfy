/** The gvl node: reads every cached symbol under the configured prefixes
    in two ADS sum commands. Round one asks for a handle per symbol name
    (index group 0xF082 wrapping 0xF003 sub-requests); symbols whose handle
    request failed are dropped; round two reads the values by handle (index
    group 0xF080 wrapping 0xF005 sub-requests) and watches for the
    "symbol version invalid" code 0x711. */
module Gvl {
  import opened Bytes
  import opened Wrappers
  import opened Codec
  import opened SymbolTable
  import opened Prefixes

  const IG_SUM_RW: u32 := 0xF082
  const IG_SUM_READ: u32 := 0xF080
  const ADSIGRP_SYM_HNDBYNAME: u32 := 0xF003
  const ADSIGRP_SYM_VALBYHND: u32 := 0xF005
  /** ADS error "symbol version invalid". */
  const SYMBOL_VERSION_INVALID: u32 := 0x711
  const DOT: byte := 0x2E

  // ---------------------------------------------------------------------
  // Selecting the symbols

  /** `name.startsWith(prefix + ".")`. */
  predicate StartsWithPrefix(name: Text, prefix: Text)
  {
    |prefix| + 1 <= |name| && name[..|prefix| + 1] == prefix + [DOT]
  }

  /** `prefixes.some(p => name.startsWith(p + "."))`. */
  predicate MatchesSome(name: Text, prefixes: seq<Text>)
  {
    exists i :: 0 <= i < |prefixes| && StartsWithPrefix(name, prefixes[i])
  }

  /** `allSymbols.filter(...)`: never more symbols than are cached. */
  function Select(all: seq<Symbol>, prefixes: seq<Text>): (r: seq<Symbol>)
    ensures |r| <= |all|
  {
    if all == [] then []
    else (if MatchesSome(all[0].name, prefixes) then [all[0]] else []) + Select(all[1..], prefixes)
  }

  /** A symbol is selected exactly when it is cached and its name starts
      with one of the prefixes and a dot. */
  lemma {:induction false} SelectMembers(all: seq<Symbol>, prefixes: seq<Text>)
    ensures forall s :: s in Select(all, prefixes) <==> s in all && MatchesSome(s.name, prefixes)
  {
    if all != [] {
      SelectMembers(all[1..], prefixes);
      assert all == [all[0]] + all[1..];
    }
  }

  /** The selection keeps the cache order: selecting from two runs of the
      cache is selecting from each in turn. */
  lemma {:induction false} SelectAppend(a: seq<Symbol>, b: seq<Symbol>, prefixes: seq<Text>)
    ensures Select(a + b, prefixes) == Select(a, prefixes) + Select(b, prefixes)
  {
    if a == [] {
      assert a + b == b;
    } else {
      var head := if MatchesSome(a[0].name, prefixes) then [a[0]] else [];
      assert (a + b)[0] == a[0];
      assert (a + b)[1..] == a[1..] + b;
      assert Select(a + b, prefixes) == head + Select(a[1..] + b, prefixes);
      SelectAppend(a[1..], b, prefixes);
      assert Select(a, prefixes) == head + Select(a[1..], prefixes);
    }
  }

  // ---------------------------------------------------------------------
  // Sum-command sub-requests

  /** One entry of a sum command's table: index group, index offset, read
      length, write length. */
  datatype SubRequest = SubRequest(indexGroup: u32, indexOffset: u32, readLength: u32, writeLength: u32)

  function EncodeSubRequest(r: SubRequest): (b: seq<byte>)
    ensures |b| == 16
  {
    U32LE(r.indexGroup) + U32LE(r.indexOffset) + U32LE(r.readLength) + U32LE(r.writeLength)
  }

  function EncodeSubRequests(rs: seq<SubRequest>): (b: seq<byte>)
    ensures |b| == 16 * |rs|
  {
    if rs == [] then [] else EncodeSubRequests(rs[..|rs| - 1]) + EncodeSubRequest(rs[|rs| - 1])
  }

  /** Encoding one more sub-request appends its 16 bytes. */
  lemma EncodeSubRequestsSnoc(rs: seq<SubRequest>, i: nat)
    requires i < |rs|
    ensures EncodeSubRequests(rs[..i + 1]) == EncodeSubRequests(rs[..i]) + EncodeSubRequest(rs[i])
  {
    assert rs[..i + 1][..i] == rs[..i];
  }

  /** The table read back: `n` sub-requests of 16 bytes each. */
  function DecodeSubRequests(b: seq<byte>, n: nat): (rs: seq<SubRequest>)
    requires 16 * n <= |b|
    ensures |rs| == n
  {
    seq(n, i requires 0 <= i < n =>
      SubRequest(ReadU32(b, 16 * i), ReadU32(b, 16 * i + 4), ReadU32(b, 16 * i + 8), ReadU32(b, 16 * i + 12)))
  }

  /** Sub-request `i` occupies bytes `16 i` to `16 i + 16`. */
  lemma {:induction false} SubRequestAt(rs: seq<SubRequest>, i: nat)
    requires i < |rs|
    ensures EncodeSubRequests(rs)[16 * i..16 * i + 16] == EncodeSubRequest(rs[i])
  {
    var init := rs[..|rs| - 1];
    if i < |rs| - 1 {
      SubRequestAt(init, i);
      assert init[i] == rs[i];
    }
  }

  lemma SubRequestFields(b: seq<byte>, off: nat, r: SubRequest)
    requires off + 16 <= |b| && b[off..off + 16] == EncodeSubRequest(r)
    ensures ReadU32(b, off) == r.indexGroup && ReadU32(b, off + 4) == r.indexOffset
    ensures ReadU32(b, off + 8) == r.readLength && ReadU32(b, off + 12) == r.writeLength
  {
    var s := b[off..off + 16];
    assert s[0..4] == U32LE(r.indexGroup) && s[4..8] == U32LE(r.indexOffset);
    assert s[8..12] == U32LE(r.readLength) && s[12..16] == U32LE(r.writeLength);
    SliceOfSlice(b, off, 16, 0, 4);
    SliceOfSlice(b, off, 16, 4, 8);
    SliceOfSlice(b, off, 16, 8, 12);
    SliceOfSlice(b, off, 16, 12, 16);
    ReadU32At(b, off, r.indexGroup);
    ReadU32At(b, off + 4, r.indexOffset);
    ReadU32At(b, off + 8, r.readLength);
    ReadU32At(b, off + 12, r.writeLength);
  }

  /** Reading back an encoded table, whatever follows it, gives the
      sub-requests in order. */
  lemma SubRequestsRoundTrip(rs: seq<SubRequest>, rest: seq<byte>)
    ensures DecodeSubRequests(EncodeSubRequests(rs) + rest, |rs|) == rs
  {
    var b := EncodeSubRequests(rs) + rest;
    forall i | 0 <= i < |rs| ensures DecodeSubRequests(b, |rs|)[i] == rs[i] {
      SubRequestDecodedAt(rs, rest, i);
    }
  }

  lemma SubRequestDecodedAt(rs: seq<SubRequest>, rest: seq<byte>, i: nat)
    requires i < |rs|
    ensures DecodeSubRequests(EncodeSubRequests(rs) + rest, |rs|)[i] == rs[i]
  {
    var e := EncodeSubRequests(rs);
    var b := e + rest;
    var off := 16 * i;
    SubRequestAt(rs, i);
    SliceOfConcat(e, rest, off, off + 16);
    SubRequestFields(b, off, rs[i]);
  }

  /** The four writeUInt32LE calls that fill one sub-request in place. */
  method WriteSubRequest(a: array<byte>, off: nat, r: SubRequest)
    requires off + 16 <= a.Length
    modifies a
    ensures a[..off + 16] == old(a[..off]) + EncodeSubRequest(r)
    ensures a[off + 16..] == old(a[off + 16..])
  {
    var enc := EncodeSubRequest(r);
    forall k | 0 <= k < 16 {
      a[off + k] := enc[k];
    }
    assert a[off..off + 16] == enc;
    assert a[..off + 16] == a[..off] + a[off..off + 16];
  }

  /** Fill entry `i` of a table of `rs`, the entries before it written. */
  method WriteEntry(a: array<byte>, rs: seq<SubRequest>, i: nat)
    requires i < |rs| && a.Length == 16 * |rs| && a[..16 * i] == EncodeSubRequests(rs[..i])
    modifies a
    ensures a[..16 * (i + 1)] == EncodeSubRequests(rs[..i + 1])
  {
    WriteSubRequest(a, 16 * i, rs[i]);
    EncodeSubRequestsSnoc(rs, i);
  }

  // ---------------------------------------------------------------------
  // Round one: handles by name

  /** `Buffer.from(name + "\0")`. */
  function NameBuffer(s: Symbol): Text
  {
    s.name + [0]
  }

  function NameBuffers(syms: seq<Symbol>): (b: Text)
  {
    if syms == [] then [] else NameBuffers(syms[..|syms| - 1]) + NameBuffer(syms[|syms| - 1])
  }

  /** Every length field of the handle request fits in 32 bits (otherwise
      the Buffer writes throw): each name's length, and the payload length
      that the header carries. The frame is bare, so no field holds the
      header's own 32 bytes on top. */
  predicate HandleRequestFits(syms: seq<Symbol>)
  {
    && (forall i :: 0 <= i < |syms| ==> |syms[i].name| + 1 < 0x1_0000_0000)
    && 16 + 16 * |syms| + |NameBuffers(syms)| < 0x1_0000_0000
  }

  function HandleSubRequests(syms: seq<Symbol>): (rs: seq<SubRequest>)
    requires HandleRequestFits(syms)
    ensures |rs| == |syms|
    ensures forall i :: 0 <= i < |syms| ==>
              rs[i] == SubRequest(ADSIGRP_SYM_HNDBYNAME, 0, 4, |syms[i].name| + 1)
  {
    seq(|syms|, i requires 0 <= i < |syms| => SubRequest(ADSIGRP_SYM_HNDBYNAME, 0, 4, |syms[i].name| + 1))
  }

  /** The handle request: a sum ReadWrite of `n` sub-requests, reading 8
      bytes per symbol (result code and handle), writing the table and then
      the null-terminated names. */
  function HandleRequestArgs(syms: seq<Symbol>): (a: ReadWriteArgs)
    requires HandleRequestFits(syms)
    ensures |a.writeData| == 16 * |syms| + |NameBuffers(syms)|
  {
    ReadWriteArgs(IG_SUM_RW, |syms|, 8 * |syms|, EncodeSubRequests(HandleSubRequests(syms)) + NameBuffers(syms))
  }

  /** The loop at the heart of `performRead`: fills the sub-request table
      in place and collects the name buffers. */
  method BuildHandleTable(syms: seq<Symbol>) returns (subReqs: array<byte>, nameBuffers: seq<Text>)
    requires HandleRequestFits(syms)
    ensures fresh(subReqs)
    ensures subReqs[..] == EncodeSubRequests(HandleSubRequests(syms))
    ensures |nameBuffers| == |syms| && forall i :: 0 <= i < |syms| ==> nameBuffers[i] == NameBuffer(syms[i])
  {
    var n := |syms|;
    var rs := HandleSubRequests(syms);
    subReqs := new byte[n * 16](_ => 0);
    nameBuffers := [];
    for i := 0 to n
      invariant subReqs.Length == 16 * |rs|
      invariant subReqs[..16 * i] == EncodeSubRequests(rs[..i])
      invariant |nameBuffers| == i && forall j :: 0 <= j < i ==> nameBuffers[j] == NameBuffer(syms[j])
    {
      var nameBuf := syms[i].name + [0];
      WriteEntry(subReqs, rs, i);
      nameBuffers := nameBuffers + [nameBuf];
    }
    assert rs[..n] == rs;
    assert subReqs[..] == subReqs[..16 * n];
  }

  lemma {:induction false} NameBuffersAppend(a: seq<Symbol>, b: seq<Symbol>)
    ensures NameBuffers(a + b) == NameBuffers(a) + NameBuffers(b)
    decreases |b|
  {
    if b == [] {
      assert a + b == a;
    } else {
      var ab, init, last := a + b, b[..|b| - 1], b[|b| - 1];
      assert ab[..|ab| - 1] == a + init;
      assert NameBuffers(ab) == NameBuffers(a + init) + NameBuffer(last);
      assert NameBuffers(b) == NameBuffers(init) + NameBuffer(last);
      NameBuffersAppend(a, init);
    }
  }

  /** The names follow the table in the order of the symbols: name `i`,
      null-terminated, comes right after the first `i` names. */
  lemma NameAt(syms: seq<Symbol>, i: nat)
    requires i < |syms|
    ensures NameBuffers(syms) == NameBuffers(syms[..i]) + NameBuffer(syms[i]) + NameBuffers(syms[i + 1..])
  {
    var a, b := syms[..i + 1], syms[i + 1..];
    assert syms == a + b;
    NameBuffersAppend(a, b);
    assert a[..i] == syms[..i];
    assert NameBuffers(a) == NameBuffers(syms[..i]) + NameBuffer(syms[i]);
  }

  /** What the device reads out of the handle request: the sum header, one
      (0xF003, 0, 4, |name| + 1) sub-request per symbol in order, then the
      names. */
  lemma HandleRequestLayout(syms: seq<Symbol>)
    requires HandleRequestFits(syms)
    ensures var p := ReadWriteRequest(HandleRequestArgs(syms));
      && DecodeReadWriteRequest(p) == Some(HandleRequestArgs(syms))
      && ReadU32(p, 0) == IG_SUM_RW && ReadU32(p, 4) == |syms| && ReadU32(p, 8) == 8 * |syms|
      && ReadU32(p, 12) == 16 * |syms| + |NameBuffers(syms)|
      && DecodeSubRequests(p[16..], |syms|) == HandleSubRequests(syms)
      && p[16 + 16 * |syms|..] == NameBuffers(syms)
  {
    var a := HandleRequestArgs(syms);
    var p := ReadWriteRequest(a);
    ReadWriteRequestRoundTrip(a);
    SubRequestsRoundTrip(HandleSubRequests(syms), NameBuffers(syms));
    assert p[16..] == a.writeData;
  }

  // ---------------------------------------------------------------------
  // The handle response

  /** The result codes at `4 i`. */
  function ResultCodes(data: seq<byte>, n: nat): (codes: seq<u32>)
    requires 4 * n <= |data|
    ensures |codes| == n && forall i :: 0 <= i < n ==> codes[i] == ReadU32(data, 4 * i)
  {
    if n == 0 then [] else ResultCodes(data, n - 1) + [ReadU32(data, 4 * (n - 1))]
  }

  /** The positions whose code is 0, in increasing order. */
  function KeptIndices(codes: seq<u32>): (idx: seq<nat>)
  {
    if codes == [] then []
    else KeptIndices(codes[..|codes| - 1]) + (if codes[|codes| - 1] == 0 then [|codes| - 1] else [])
  }

  /** The kept positions are exactly the positions of the zero codes, each
      once and in increasing order. */
  lemma {:induction false} KeptIndicesSpec(codes: seq<u32>)
    ensures forall j :: 0 <= j < |KeptIndices(codes)| ==>
              KeptIndices(codes)[j] < |codes| && codes[KeptIndices(codes)[j]] == 0
    ensures forall j, k :: 0 <= j < k < |KeptIndices(codes)| ==> KeptIndices(codes)[j] < KeptIndices(codes)[k]
    ensures forall i :: 0 <= i < |codes| && codes[i] == 0 ==> i in KeptIndices(codes)
  {
    if codes != [] {
      var init := codes[..|codes| - 1];
      KeptIndicesSpec(init);
      forall i | 0 <= i < |init| ensures init[i] == codes[i] { }
    }
  }

  /** Every handle the second loop reads, at `base + 4 i` for each zero
      code `i`, lies inside the data. */
  predicate HandlesWithin(data: seq<byte>, base: nat, codes: seq<u32>)
  {
    forall i :: 0 <= i < |codes| && codes[i] == 0 ==> base + 4 * i + 4 <= |data|
  }

  /** The handles of the zero codes, in order. */
  function KeptHandles(data: seq<byte>, base: nat, codes: seq<u32>): seq<u32>
    requires HandlesWithin(data, base, codes)
  {
    if codes == [] then []
    else
      var k := |codes| - 1;
      assert HandlesWithin(data, base, codes[..k]) by {
        forall i | 0 <= i < k ensures codes[..k][i] == codes[i] { }
      }
      KeptHandles(data, base, codes[..k]) + (if codes[k] == 0 then [ReadU32(data, base + 4 * k)] else [])
  }

  /** The symbols of the zero codes, in order. */
  function KeptSymbols(codes: seq<u32>, syms: seq<Symbol>): seq<Symbol>
    requires |codes| <= |syms|
  {
    if codes == [] then []
    else
      var k := |codes| - 1;
      KeptSymbols(codes[..k], syms) + (if codes[k] == 0 then [syms[k]] else [])
  }

  /** Every prefix of a code list whose handles lie within the data has
      its handles within the data too. */
  lemma HandlesWithinPrefix(data: seq<byte>, base: nat, codes: seq<u32>, k: nat)
    requires k <= |codes| && HandlesWithin(data, base, codes)
    ensures HandlesWithin(data, base, codes[..k])
  {
    forall i | 0 <= i < k ensures codes[..k][i] == codes[i] { }
  }

  /** Appending a position and the word read there keeps handles aligned. */
  lemma HandlesAlignedSnoc(idx: seq<nat>, data: seq<byte>, base: nat, handles: seq<u32>, k: nat, w: u32)
    requires HandlesAligned(idx, data, base, handles)
    requires base + 4 * k + 4 <= |data| && w == ReadU32(data, base + 4 * k)
    ensures HandlesAligned(idx + [k], data, base, handles + [w])
  {
    var idx', hs := idx + [k], handles + [w];
    forall j | 0 <= j < |idx'|
      ensures base + 4 * idx'[j] + 4 <= |data| && hs[j] == ReadU32(data, base + 4 * idx'[j])
    {
      if j < |idx| {
        assert idx'[j] == idx[j] && hs[j] == handles[j];
      }
    }
  }

  /** The kept handles are, position by position, the words at `base + 4 i`
      for the kept positions `i`. */
  lemma {:induction false} KeptHandlesAt(data: seq<byte>, base: nat, codes: seq<u32>)
    requires HandlesWithin(data, base, codes)
    ensures HandlesAligned(KeptIndices(codes), data, base, KeptHandles(data, base, codes))
  {
    if codes != [] {
      var k := |codes| - 1;
      var init := codes[..k];
      HandlesWithinPrefix(data, base, codes, k);
      KeptHandlesAt(data, base, init);
      if codes[k] == 0 {
        HandlesAlignedSnoc(KeptIndices(init), data, base, KeptHandles(data, base, init),
                           k, ReadU32(data, base + 4 * k));
      }
    }
  }

  /** The kept symbols are, position by position, the symbols at the kept
      positions. */
  lemma {:induction false} KeptSymbolsAt(codes: seq<u32>, syms: seq<Symbol>)
    requires |codes| <= |syms|
    ensures SymbolsAligned(KeptIndices(codes), KeptSymbols(codes, syms), syms)
  {
    if codes != [] {
      var k := |codes| - 1;
      var init := codes[..k];
      KeptSymbolsAt(init, syms);
      var a := KeptIndices(init);
      var s := KeptSymbols(init, syms);
      if codes[k] == 0 {
        var idx := a + [k];
        var ss := s + [syms[k]];
        assert KeptIndices(codes) == idx;
        assert KeptSymbols(codes, syms) == ss;
        forall j | 0 <= j < |idx| ensures idx[j] < |syms| && ss[j] == syms[idx[j]] {
          if j < |a| {
            assert idx[j] == a[j] && ss[j] == s[j];
          }
        }
      } else {
        assert KeptIndices(codes) == a;
        assert KeptSymbols(codes, syms) == s;
      }
    }
  }

  /** What round one's response leads to. */
  datatype HandleOutcome =
    | HandleFailure(code: u32)                    // the sum command failed
    | HandleThrew                                 // a read past the data throws
    | NoneKept                                    // every handle request failed
    | Kept(handles: seq<u32>, symbols: seq<Symbol>)

  /** Round one's verdict: a failed sum command reports its own code; when
      symbols are kept, each kept handle comes with exactly one symbol. */
  function AnalyseHandles(resp: Response, syms: seq<Symbol>): (k: HandleOutcome)
    ensures k.HandleFailure? <==> resp.result != 0
    ensures k.HandleFailure? ==> k.code == resp.result
    ensures k.Kept? ==> 1 <= |k.handles| == |k.symbols|
  {
    var n := |syms|;
    if resp.result != 0 then HandleFailure(resp.result)
    else if |resp.data| < 4 * n then HandleThrew
    else
      var codes := ResultCodes(resp.data, n);
      if !HandlesWithin(resp.data, 4 * n, codes) then HandleThrew
      else
        SurvivorsOfCodes(resp.data, codes, syms);
        var handles := KeptHandles(resp.data, 4 * n, codes);
        if handles == [] then NoneKept
        else Kept(handles, KeptSymbols(codes, syms))
  }

  /** `idx` lists, in increasing order, exactly the positions `i < n` whose
      result code (the word at `4 i`) is 0. */
  predicate ZeroCodesAt(idx: seq<nat>, data: seq<byte>, n: nat)
  {
    && 4 * n <= |data|
    && (forall j, l :: 0 <= j < l < |idx| ==> idx[j] < idx[l])
    && (forall j :: 0 <= j < |idx| ==> idx[j] < n && ReadU32(data, 4 * idx[j]) == 0)
    && (forall i :: 0 <= i < n && ReadU32(data, 4 * i) == 0 ==> i in idx)
  }

  /** `handles` holds, position by position, the word at `base + 4 idx[j]`. */
  predicate HandlesAligned(idx: seq<nat>, data: seq<byte>, base: nat, handles: seq<u32>)
  {
    && |handles| == |idx|
    && forall j :: 0 <= j < |idx| ==>
         base + 4 * idx[j] + 4 <= |data| && handles[j] == ReadU32(data, base + 4 * idx[j])
  }

  /** `symbols` holds, position by position, the symbol at `idx[j]`. */
  predicate SymbolsAligned(idx: seq<nat>, symbols: seq<Symbol>, syms: seq<Symbol>)
  {
    && |symbols| == |idx|
    && forall j :: 0 <= j < |idx| ==> idx[j] < |syms| && symbols[j] == syms[idx[j]]
  }

  /** The survivors of round one: the zero-code positions `idx` of the `n`
      symbols, their symbols and their handles (the words at `4 n + 4 i`). */
  predicate SurvivorsAt(idx: seq<nat>, data: seq<byte>, n: nat, handles: seq<u32>, symbols: seq<Symbol>,
                        syms: seq<Symbol>)
  {
    n == |syms| && ZeroCodesAt(idx, data, n) && HandlesAligned(idx, data, 4 * n, handles)
    && SymbolsAligned(idx, symbols, syms)
  }

  lemma ZeroCodesOfCodes(data: seq<byte>, codes: seq<u32>, n: nat)
    requires 4 * n <= |data| && codes == ResultCodes(data, n)
    ensures ZeroCodesAt(KeptIndices(codes), data, n)
  {
    var idx := KeptIndices(codes);
    KeptIndicesSpec(codes);
    forall j | 0 <= j < |idx| ensures idx[j] < n && ReadU32(data, 4 * idx[j]) == 0 {
      assert codes[idx[j]] == ReadU32(data, 4 * idx[j]);
    }
    forall i | 0 <= i < n && ReadU32(data, 4 * i) == 0 ensures i in idx {
      assert codes[i] == 0;
    }
  }

  lemma SurvivorsOfCodes(data: seq<byte>, codes: seq<u32>, syms: seq<Symbol>)
    requires 4 * |syms| <= |data| && codes == ResultCodes(data, |syms|)
    requires HandlesWithin(data, 4 * |syms|, codes)
    ensures SurvivorsAt(KeptIndices(codes), data, |syms|, KeptHandles(data, 4 * |syms|, codes),
                        KeptSymbols(codes, syms), syms)
  {
    ZeroCodesOfCodes(data, codes, |syms|);
    KeptHandlesAt(data, 4 * |syms|, codes);
    KeptSymbolsAt(codes, syms);
  }

  /** Symbol `i` survives round one exactly when its result code (at
      `4 i`) is 0, and then its handle is the word at `4 n + 4 i`; the
      survivors and their handles stay aligned and in order. */
  lemma KeptAligned(resp: Response, syms: seq<Symbol>)
    requires AnalyseHandles(resp, syms).Kept?
    ensures var k := AnalyseHandles(resp, syms);
      && |k.handles| >= 1
      && exists idx :: SurvivorsAt(idx, resp.data, |syms|, k.handles, k.symbols, syms)
  {
    var codes := ResultCodes(resp.data, |syms|);
    SurvivorsOfCodes(resp.data, codes, syms);
    var idx := KeptIndices(codes);
    assert SurvivorsAt(idx, resp.data, |syms|, KeptHandles(resp.data, 4 * |syms|, codes),
                       KeptSymbols(codes, syms), syms);
  }

  /** The first loop of the handle phase: the result codes, or a throw when
      the data is too short to hold them. */
  method ReadCodes(data: seq<byte>, n: nat) returns (codes: Option<seq<u32>>)
    ensures codes.Some? <==> 4 * n <= |data|
    ensures codes.Some? ==> codes.value == ResultCodes(data, n)
  {
    var read: seq<u32> := [];
    for i := 0 to n
      invariant 4 * i <= |data| && read == ResultCodes(data, i)
    {
      if 4 * i + 4 > |data| {
        return None;
      }
      read := read + [ReadU32(data, 4 * i)];
    }
    return Some(read);
  }

  /** The second loop: keeps the symbols whose code is 0 together with
      their handles, or throws at the first handle outside the data. */
  method CollectHandles(data: seq<byte>, codes: seq<u32>, syms: seq<Symbol>)
    returns (r: Option<(seq<u32>, seq<Symbol>)>)
    requires |codes| == |syms|
    ensures r.Some? <==> HandlesWithin(data, 4 * |codes|, codes)
    ensures r.Some? ==> r.value == (KeptHandles(data, 4 * |codes|, codes), KeptSymbols(codes, syms))
  {
    var n := |codes|;
    var handles: seq<u32> := [];
    var symbols: seq<Symbol> := [];
    var offset := n * 4;
    for i := 0 to n
      invariant offset == 4 * n + 4 * i
      invariant HandlesWithin(data, 4 * n, codes[..i])
      invariant handles == KeptHandles(data, 4 * n, codes[..i])
      invariant symbols == KeptSymbols(codes[..i], syms)
    {
      var next := codes[..i + 1];
      assert next[..i] == codes[..i];
      if codes[i] == 0 {
        if offset + 4 > |data| {
          assert !HandlesWithin(data, 4 * n, codes) by {
            assert codes[i] == 0 && 4 * n + 4 * i + 4 > |data|;
          }
          return None;
        }
        handles := handles + [ReadU32(data, offset)];
        symbols := symbols + [syms[i]];
      }
      assert HandlesWithin(data, 4 * n, next) by {
        forall l | 0 <= l < i + 1 && next[l] == 0 ensures 4 * n + 4 * l + 4 <= |data| {
          if l < i {
            assert codes[..i][l] == next[l];
          }
        }
      }
      offset := offset + 4;
    }
    assert codes[..n] == codes;
    return Some((handles, symbols));
  }

  /** Round one's response analysed by the two loops: the outcome the
      handle phase acts on. */
  method CollectOutcome(resp: Response, syms: seq<Symbol>) returns (k: HandleOutcome)
    ensures k == AnalyseHandles(resp, syms)
  {
    if resp.result != 0 {
      return HandleFailure(resp.result);
    }
    var codes := ReadCodes(resp.data, |syms|);
    if codes.None? {
      return HandleThrew;
    }
    var collected := CollectHandles(resp.data, codes.value, syms);
    if collected.None? {
      return HandleThrew;
    }
    var (handles, kept) := collected.value;
    if |handles| == 0 {
      return NoneKept;
    }
    return Kept(handles, kept);
  }

  // ---------------------------------------------------------------------
  // Round two: values by handle

  function SizeSum(syms: seq<Symbol>): nat
  {
    if syms == [] then 0 else SizeSum(syms[..|syms| - 1]) + syms[|syms| - 1].size
  }

  /** Every length field of the sum-read request fits in 32 bits: the read
      length and the payload length that the header carries. */
  predicate SumReadFits(syms: seq<Symbol>)
  {
    4 * |syms| + SizeSum(syms) < 0x1_0000_0000 && 16 + 16 * |syms| < 0x1_0000_0000
  }

  function SumSubRequests(handles: seq<u32>, syms: seq<Symbol>): (rs: seq<SubRequest>)
    requires |handles| == |syms|
    ensures |rs| == |syms|
    ensures forall i :: 0 <= i < |syms| ==> rs[i] == SubRequest(ADSIGRP_SYM_VALBYHND, handles[i], syms[i].size, 0)
  {
    seq(|syms|, i requires 0 <= i < |syms| => SubRequest(ADSIGRP_SYM_VALBYHND, handles[i], syms[i].size, 0))
  }

  /** The sum-read request: `m` sub-requests, reading a 4-byte result code
      per symbol plus every symbol's size. */
  function SumReadArgs(handles: seq<u32>, syms: seq<Symbol>): (a: ReadWriteArgs)
    requires |handles| == |syms| && SumReadFits(syms)
    ensures |a.writeData| == 16 * |syms|
  {
    ReadWriteArgs(IG_SUM_READ, |syms|, 4 * |syms| + SizeSum(syms), EncodeSubRequests(SumSubRequests(handles, syms)))
  }

  /** The loop that fills the sum-read table in place and totals the sizes. */
  method BuildSumReadTable(handles: seq<u32>, syms: seq<Symbol>) returns (subReqs: array<byte>, totalRead: nat)
    requires |handles| == |syms|
    ensures fresh(subReqs)
    ensures subReqs[..] == EncodeSubRequests(SumSubRequests(handles, syms))
    ensures totalRead == SizeSum(syms)
  {
    var m := |syms|;
    var rs := SumSubRequests(handles, syms);
    subReqs := new byte[m * 16](_ => 0);
    totalRead := 0;
    for i := 0 to m
      invariant subReqs[..16 * i] == EncodeSubRequests(rs[..i])
      invariant totalRead == SizeSum(syms[..i])
    {
      var sym := syms[i];
      WriteEntry(subReqs, rs, i);
      assert syms[..i + 1][..i] == syms[..i];
      totalRead := totalRead + sym.size;
    }
    assert rs[..m] == rs && syms[..m] == syms;
    assert subReqs[..] == subReqs[..16 * m];
  }

  /** What the device reads out of the sum-read request: the sum header and
      one (0xF005, handle, size, 0) sub-request per kept symbol, in order. */
  lemma SumReadLayout(handles: seq<u32>, syms: seq<Symbol>)
    requires |handles| == |syms| && SumReadFits(syms)
    ensures var p := ReadWriteRequest(SumReadArgs(handles, syms));
      && DecodeReadWriteRequest(p) == Some(SumReadArgs(handles, syms))
      && ReadU32(p, 0) == IG_SUM_READ && ReadU32(p, 4) == |syms|
      && ReadU32(p, 8) == 4 * |syms| + SizeSum(syms) && ReadU32(p, 12) == 16 * |syms|
      && DecodeSubRequests(p[16..], |syms|) == SumSubRequests(handles, syms)
  {
    var a := SumReadArgs(handles, syms);
    ReadWriteFields(a);
    SubRequestsRoundTrip(SumSubRequests(handles, syms), []);
    assert a.writeData + [] == a.writeData;
  }

  // ---------------------------------------------------------------------
  // The read response

  predicate HasInvalidCode(data: seq<byte>, n: nat)
    requires 4 * n <= |data|
  {
    exists i :: 0 <= i < n && ReadU32(data, 4 * i) == SYMBOL_VERSION_INVALID
  }

  /** The scan over the per-symbol codes: whether one is 0x711, or a throw
      when the data is too short to hold them. */
  method ScanCodes(data: seq<byte>, n: nat) returns (found: Option<bool>)
    ensures found.Some? <==> 4 * n <= |data|
    ensures found.Some? ==> (found.value <==> HasInvalidCode(data, n))
  {
    var invalid := false;
    for i := 0 to n
      invariant 4 * i <= |data|
      invariant invalid <==> exists l :: 0 <= l < i && ReadU32(data, 4 * l) == SYMBOL_VERSION_INVALID
    {
      if 4 * i + 4 > |data| {
        return None;
      }
      if ReadU32(data, 4 * i) == SYMBOL_VERSION_INVALID {
        invalid := true;
      }
    }
    return Some(invalid);
  }

  /** Whether the read response flags an invalid symbol version: `None`
      when the scan throws. */
  /** Whether round two reports an invalid symbol version: when the sum
      result is 0x711, or when the response announces the `n` codes and one
      of them is 0x711. It throws (None) only when the announced codes are
      missing from the data. */
  function ReadVerdict(resp: Response, n: nat): (r: Option<bool>)
    ensures r.None? <==> resp.result != SYMBOL_VERSION_INVALID && 4 * n <= resp.length && |resp.data| < 4 * n
    ensures r == Some(true) <==>
              resp.result == SYMBOL_VERSION_INVALID ||
              (4 * n <= resp.length && 4 * n <= |resp.data| && HasInvalidCode(resp.data, n))
  {
    if resp.result == SYMBOL_VERSION_INVALID then Some(true)
    else if resp.length < 4 * n then Some(false)
    else if |resp.data| < 4 * n then None
    else Some(HasInvalidCode(resp.data, n))
  }

  // ---------------------------------------------------------------------
  // The node

  datatype Phase = HandlePhase | ReadPhase

  /** A pending entry: the phase, the symbols of the request, and whether a
      `done` callback was supplied (an input message) or not (the timer). */
  datatype Pending = Pending(phase: Phase, symbols: seq<Symbol>, hasDone: bool)

  datatype Failure = NoMatchingSymbols | AdsError(code: u32) | InvalidResponseFrame

  datatype Event =
    | Published(topic: string, frame: seq<byte>)
    | Done(error: Option<Failure>)
    | Logged(failure: Failure)
    | Forwarded(frame: seq<byte>)              // first output: the raw read response
    | InvalidSymbolVersion                     // second output
    | Thrown                                   // a Buffer read or write raised a RangeError

  /** `done(err)` when there is a `done`, a log line otherwise. */
  function Report(hasDone: bool, f: Failure): Event
  {
    if hasDone then Done(Some(f)) else Logged(f)
  }

  function Finish(hasDone: bool): seq<Event>
  {
    if hasDone then [Done(None)] else []
  }

  /** A request of this node: bare frame, ReadWrite command, the
      connection's source port. */
  function RequestFrame(conn: Connection, invokeId: u32, a: ReadWriteArgs): (f: seq<byte>)
    requires 16 + |a.writeData| < 0x1_0000_0000
  {
    var payload := ReadWriteRequest(a);
    Frame(Bare, RequestHeader(conn, conn.sourcePort, CMD_READ_WRITE, |payload|, invokeId), payload)
  }

  /** The cycle interval: `interval` (0 standing for a missing or zero
      setting, which becomes 1) in minutes, seconds, or taken as
      milliseconds for any other unit; the unit defaults to seconds. */
  function IntervalMs(interval: int, unit: string): (ms: int)
    ensures ms != 0
  {
    var n := if interval == 0 then 1 else interval;
    var u := if unit == "" then "s" else unit;
    if u == "min" then n * 60000 else if u == "s" then n * 1000 else n
  }

  class GvlNode {
    const conn: Connection
    const prefixes: seq<Text>
    var pending: map<u32, Pending>
    var nextId: nat

    /** Every pending entry is keyed by an id issued earlier. */
    predicate Valid()
      reads this
    {
      forall id :: id in pending ==> id < nextId
    }

    constructor (conn: Connection, gvlPrefixes: Text, gvls: Option<seq<Text>>)
      ensures this.conn == conn && prefixes == ParsePrefixes(PrefixSource(gvlPrefixes, gvls))
      ensures pending == map[] && nextId == 1 && Valid()
    {
      this.conn := conn;
      prefixes := ParsePrefixes(PrefixSource(gvlPrefixes, gvls));
      pending := map[];
      nextId := 1;
    }

    function CacheKey(): string
      reads this
    {
      conn.namespace + "/" + conn.targetText
    }

    /** `buildAmsHeader`'s `node._invokeId++`. */
    method IssueId() returns (id: u32)
      requires Valid()
      modifies this
      ensures id == WireInvokeId(old(nextId)) && nextId == old(nextId) + 1
      ensures pending == old(pending) && Valid()
      ensures old(nextId) < 0x1_0000_0000 ==> id !in pending
    {
      id := WireInvokeId(nextId);
      nextId := nextId + 1;
    }

    /** `performRead`: select the cached symbols under the prefixes and ask
        for their handles. */
    method PerformRead(cache: SymbolCache, hasDone: bool) returns (events: seq<Event>)
      requires Valid()
      modifies this
      ensures Valid()
      ensures var syms := Select(cache.Table(CacheKey()), prefixes);
        if syms == [] then
          events == [Report(hasDone, NoMatchingSymbols)] && pending == old(pending) && nextId == old(nextId)
        else if !HandleRequestFits(syms) then
          events == [Thrown] && pending == old(pending) && nextId == old(nextId)
        else
          var id := WireInvokeId(old(nextId));
          && nextId == old(nextId) + 1
          && (old(nextId) < 0x1_0000_0000 ==> id !in old(pending))
          && pending == old(pending)[id := Pending(HandlePhase, syms, hasDone)]
          && events == [Published(RequestTopic(conn.namespace, conn.targetText),
                                  RequestFrame(conn, id, HandleRequestArgs(syms)))]
    {
      var all := cache.Table(CacheKey());
      var syms := Select(all, prefixes);
      if |syms| == 0 {
        return [Report(hasDone, NoMatchingSymbols)];
      }
      if !HandleRequestFits(syms) {
        return [Thrown];
      }
      var subReqs, nameBuffers := BuildHandleTable(syms);
      ConcatNameBuffers(syms, nameBuffers);
      var writeData := subReqs[..] + Concat(nameBuffers);
      var n := |syms|;
      var args := ReadWriteArgs(IG_SUM_RW, n, n * 8, writeData);
      assert args == HandleRequestArgs(syms);
      var id := IssueId();
      var frame := RequestFrame(conn, id, args);
      pending := pending[id := Pending(HandlePhase, syms, hasDone)];
      events := [Published(RequestTopic(conn.namespace, conn.targetText), frame)];
    }

    /** The response handler. */
    method OnMessage(topic: string, message: seq<byte>) returns (events: seq<Event>)
      requires Valid()
      modifies this
      ensures Valid()
      ensures topic != ResponseTopic(conn.namespace, conn.amsNetIdText) ==>
                events == [] && pending == old(pending) && nextId == old(nextId)
      ensures topic == ResponseTopic(conn.namespace, conn.amsNetIdText) && |message| < RESPONSE_MIN ==>
                events == [Logged(InvalidResponseFrame)] && pending == old(pending) && nextId == old(nextId)
      ensures topic == ResponseTopic(conn.namespace, conn.amsNetIdText) && |message| >= RESPONSE_MIN ==>
                var resp := ParseResponse(Bare, message).value;
                if resp.invokeId !in old(pending) then
                  events == [] && pending == old(pending) && nextId == old(nextId)
                else
                  var e := old(pending)[resp.invokeId];
                  var rest := old(pending) - {resp.invokeId};
                  if e.phase == HandlePhase then HandlesStep(old(nextId), rest, e, resp, events)
                  else ReadStep(old(nextId), rest, e, resp, message, events)
    {
      if topic != ResponseTopic(conn.namespace, conn.amsNetIdText) {
        return [];
      }
      if |message| < RESPONSE_MIN {
        return [Logged(InvalidResponseFrame)];
      }
      var resp := ParseResponse(Bare, message).value;
      if resp.invokeId !in pending {
        return [];
      }
      var e := pending[resp.invokeId];
      pending := pending - {resp.invokeId};
      if e.phase == HandlePhase {
        events := OnHandles(e, resp);
      } else {
        events := OnRead(e, resp, message);
      }
    }

    /** Round one answered: the new state and events. At most one new
        request is sent, and it is the only entry added. */
    predicate HandlesStep(n0: nat, rest: map<u32, Pending>, e: Pending, resp: Response, events: seq<Event>)
      reads this
      ensures HandlesStep(n0, rest, e, resp, events) ==>
                nextId <= n0 + 1 && pending.Keys <= rest.Keys + {WireInvokeId(n0)}
    {
      match AnalyseHandles(resp, e.symbols)
      case HandleFailure(code) =>
        events == [Report(e.hasDone, AdsError(code))] && pending == rest && nextId == n0
      case HandleThrew =>
        events == [Thrown] && pending == rest && nextId == n0
      case NoneKept =>
        events == Finish(e.hasDone) && pending == rest && nextId == n0
      case Kept(handles, syms) =>
        if !SumReadFits(syms) then events == [Thrown] && pending == rest && nextId == n0
        else
          var id := WireInvokeId(n0);
          && |handles| == |syms|
          && nextId == n0 + 1
          && (n0 < 0x1_0000_0000 ==> id !in rest)
          && pending == rest[id := Pending(ReadPhase, syms, e.hasDone)]
          && events == [Published(RequestTopic(conn.namespace, conn.targetText),
                                  RequestFrame(conn, id, SumReadArgs(handles, syms)))]
    }

    /** Round two answered: the raw frame is forwarded, then an invalid
        symbol version is reported, then `done`, unless the scan throws. */
    predicate ReadStep(n0: nat, rest: map<u32, Pending>, e: Pending, resp: Response, message: seq<byte>,
                       events: seq<Event>)
      reads this
      ensures ReadStep(n0, rest, e, resp, message, events) ==>
                pending == rest && nextId == n0 && |events| >= 1 && events[0] == Forwarded(message)
    {
      && pending == rest && nextId == n0
      && events == [Forwarded(message)] +
           match ReadVerdict(resp, |e.symbols|)
           case None => [Thrown]
           case Some(invalid) => (if invalid then [InvalidSymbolVersion] else []) + Finish(e.hasDone)
    }

    method OnHandles(e: Pending, resp: Response) returns (events: seq<Event>)
      requires Valid()
      modifies this
      ensures Valid()
      ensures HandlesStep(old(nextId), old(pending), e, resp, events)
    {
      var k := CollectOutcome(resp, e.symbols);
      match k
      case HandleFailure(code) =>
        events := [Report(e.hasDone, AdsError(code))];
      case HandleThrew =>
        events := [Thrown];
      case NoneKept =>
        events := Finish(e.hasDone);
      case Kept(handles, syms) =>
        KeptAligned(resp, e.symbols);
        if !SumReadFits(syms) {
          events := [Thrown];
        } else {
          events := SendSumRead(e, handles, syms);
        }
    }

    /** Round two's request: one value read per kept handle. */
    method SendSumRead(e: Pending, handles: seq<u32>, syms: seq<Symbol>) returns (events: seq<Event>)
      requires Valid()
      requires |handles| == |syms| && SumReadFits(syms)
      modifies this
      ensures Valid()
      ensures var id := WireInvokeId(old(nextId));
        && nextId == old(nextId) + 1
        && (old(nextId) < 0x1_0000_0000 ==> id !in old(pending))
        && pending == old(pending)[id := Pending(ReadPhase, syms, e.hasDone)]
        && events == [Published(RequestTopic(conn.namespace, conn.targetText),
                                RequestFrame(conn, id, SumReadArgs(handles, syms)))]
    {
      var subReqs, totalRead := BuildSumReadTable(handles, syms);
      var m := |handles|;
      var args := ReadWriteArgs(IG_SUM_READ, m, m * 4 + totalRead, subReqs[..]);
      assert args == SumReadArgs(handles, syms);
      var id := IssueId();
      var frame := RequestFrame(conn, id, args);
      pending := pending[id := Pending(ReadPhase, syms, e.hasDone)];
      events := [Published(RequestTopic(conn.namespace, conn.targetText), frame)];
    }

    method OnRead(e: Pending, resp: Response, message: seq<byte>) returns (events: seq<Event>)
      requires forall id :: id in pending ==> id < nextId
      ensures ReadStep(nextId, pending, e, resp, message, events)
    {
      events := [Forwarded(message)];
      var invalid := resp.result == SYMBOL_VERSION_INVALID;
      var n := |e.symbols|;
      if !invalid && resp.length >= n * 4 {
        var found := ScanCodes(resp.data, n);
        if found.None? {
          return events + [Thrown];
        }
        invalid := found.value;
      }
      if invalid {
        events := events + [InvalidSymbolVersion];
      }
      events := events + Finish(e.hasDone);
    }
  }

  function Concat(bs: seq<Text>): Text
  {
    if bs == [] then [] else Concat(bs[..|bs| - 1]) + bs[|bs| - 1]
  }

  /** `Buffer.concat(nameBuffers)` is the names region of the request. */
  lemma {:induction false} ConcatNameBuffers(syms: seq<Symbol>, bufs: seq<Text>)
    requires |bufs| == |syms| && forall i :: 0 <= i < |syms| ==> bufs[i] == NameBuffer(syms[i])
    ensures Concat(bufs) == NameBuffers(syms)
  {
    if syms != [] {
      var k := |syms| - 1;
      ConcatNameBuffers(syms[..k], bufs[..k]);
    }
  }
}
