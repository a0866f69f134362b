/**
 * The format-4 'cmap' subtable ("segment mapping to delta values" of the
 * OpenType and TrueType 'cmap' table): its decoder and its code point to
 * glyph id lookup.
 */
module CMapFormat4 {
  import opened Primitives
  import opened BigEndian

  /** The (platform, encoding) registration one decoded subtable serves. */
  datatype EncodingRecord = EncodingRecord(platformId: u16, encodingId: u16)

  /** One segment: the code points `start..end` share one way of deriving a glyph id. */
  datatype Segment = Segment(index: u16, end: u16, start: u16, delta: i16, offset: u16) {

    /** The segment's range holds `cp`. */
    predicate Contains(cp: int) {
      end >= cp && start <= cp
    }

    /**
     * Builds segment `i` from position `i` of the four parallel arrays, in
     * stored order. The loop counter is 16 bits wide, so the loop ends only
     * when there are fewer than 65536 segments.
     */
    static method Create(endCounts: seq<u16>, startCode: seq<u16>, idDelta: seq<i16>, idRangeOffset: seq<u16>)
      returns (segments: seq<Segment>)
      requires |endCounts| < 0x1_0000
      requires |startCode| >= |endCounts| && |idDelta| >= |endCounts| && |idRangeOffset| >= |endCounts|
      ensures |segments| == |endCounts|
      ensures forall i :: 0 <= i < |segments| ==>
                segments[i] == Segment(i, endCounts[i], startCode[i], idDelta[i], idRangeOffset[i])
    {
      var count := |endCounts|;
      var a := new Segment[count];
      for i := 0 to count
        invariant forall k :: 0 <= k < i ==>
                    a[k] == Segment(k, endCounts[k], startCode[k], idDelta[k], idRangeOffset[k])
      {
        var start := startCode[i];
        var end := endCounts[i];
        var delta := idDelta[i];
        var offset := idRangeOffset[i];
        a[i] := Segment(i, end, start, delta, offset);
      }
      segments := a[..];
    }
  }

  /** The answer of a lookup: whether a segment covered the code point, and the glyph id. */
  datatype Lookup = Lookup(found: bool, glyphId: u16)

  /**
   * One decoded subtable. Every subtable loaded from the same bytes holds the
   * same `segments` and `glyphIds`; nothing changes them after loading.
   */
  datatype Format4SubTable = Format4SubTable(
    language: u16, platform: u16, encoding: u16, segments: seq<Segment>, glyphIds: seq<u16>)
  {
    /**
     * Scans the segments in stored order; the first one containing `cp`
     * decides. An indirect index outside the glyph-id array is an error.
     */
    method TryGetGlyphId(cp: nat) returns (r: Result<Lookup>)
      ensures r == Resolve(this, cp)
    {
      for i := 0 to |segments|
        invariant FirstMatch(segments, cp, 0) == FirstMatch(segments, cp, i)
      {
        var seg := segments[i];
        if seg.end >= cp && seg.start <= cp {
          if seg.offset == 0 {
            return Ok(Lookup(true, (cp + seg.delta) % 0x1_0000));
          } else {
            var offset := seg.offset / 2 + (cp - seg.start);
            var index := offset - |segments| + seg.index;
            if 0 <= index < |glyphIds| {
              return Ok(Lookup(true, glyphIds[index]));
            }
            return Err(GlyphIndexOutOfRange(index));
          }
        }
      }
      return Ok(Lookup(false, 0));
    }
  }

  /** The position of the first segment at or after `from` that contains `cp`. */
  function FirstMatch(segments: seq<Segment>, cp: int, from: nat): (r: Option<nat>)
    requires from <= |segments|
    ensures r.Some? ==> from <= r.value < |segments| && segments[r.value].Contains(cp)
                        && forall j :: from <= j < r.value ==> !segments[j].Contains(cp)
    ensures r.None? ==> forall j :: from <= j < |segments| ==> !segments[j].Contains(cp)
    decreases |segments| - from
  {
    if from == |segments| then None
    else if segments[from].Contains(cp) then Some(from)
    else FirstMatch(segments, cp, from + 1)
  }

  /** The position in the glyph-id array an indirect segment designates for `cp`. */
  function IndirectIndex(t: Format4SubTable, seg: Segment, cp: int): int {
    seg.offset / 2 + (cp - seg.start) - |t.segments| + seg.index
  }

  /** The glyph id segment `seg` of `t` gives to `cp`, once `seg` has been selected. */
  function SegmentGlyph(t: Format4SubTable, seg: Segment, cp: int): Result<Lookup> {
    if seg.offset == 0 then
      Ok(Lookup(true, (cp + seg.delta) % 0x1_0000))
    else
      var index := IndirectIndex(t, seg, cp);
      if 0 <= index < |t.glyphIds| then Ok(Lookup(true, t.glyphIds[index]))
      else Err(GlyphIndexOutOfRange(index))
  }

  /** The lookup as a function: first matching segment, then its rule. */
  function Resolve(t: Format4SubTable, cp: int): Result<Lookup> {
    match FirstMatch(t.segments, cp, 0)
    case None => Ok(Lookup(false, 0))
    case Some(i) => SegmentGlyph(t, t.segments[i], cp)
  }

  /** A code point outside every segment, and only such a one, is not found and gets glyph 0. */
  lemma ResolveNotFound(t: Format4SubTable, cp: int)
    ensures Resolve(t, cp) == Ok(Lookup(false, 0))
            <==> forall i :: 0 <= i < |t.segments| ==> !t.segments[i].Contains(cp)
  {
  }

  /** The first segment containing `cp` decides the result. */
  lemma {:induction false} ResolveFirstMatch(t: Format4SubTable, cp: int, k: nat)
    requires k < |t.segments| && t.segments[k].Contains(cp)
    requires forall j :: 0 <= j < k ==> !t.segments[j].Contains(cp)
    ensures Resolve(t, cp) == SegmentGlyph(t, t.segments[k], cp)
  {
    FirstMatchIs(t.segments, cp, 0, k);
  }

  lemma {:induction false} FirstMatchIs(segments: seq<Segment>, cp: int, from: nat, k: nat)
    requires from <= k < |segments| && segments[k].Contains(cp)
    requires forall j :: from <= j < k ==> !segments[j].Contains(cp)
    ensures FirstMatch(segments, cp, from) == Some(k)
    decreases k - from
  {
    if from < k {
      FirstMatchIs(segments, cp, from + 1, k);
    }
  }

  /**
   * Segments after the first match are never consulted: replacing them (with
   * as many others) does not change the result. Their number does matter, as
   * the indirect index subtracts the segment count.
   */
  lemma LaterSegmentsIgnored(t: Format4SubTable, u: Format4SubTable, cp: int, k: nat)
    requires k < |t.segments| && t.segments[k].Contains(cp)
    requires forall j :: 0 <= j < k ==> !t.segments[j].Contains(cp)
    requires |u.segments| == |t.segments| && u.segments[..k + 1] == t.segments[..k + 1]
    requires u.glyphIds == t.glyphIds
    ensures Resolve(u, cp) == Resolve(t, cp)
  {
    assert u.segments[k] == u.segments[..k + 1][k];
    forall j | 0 <= j < k ensures !u.segments[j].Contains(cp) {
      assert u.segments[j] == u.segments[..k + 1][j] == t.segments[..k + 1][j];
    }
    ResolveFirstMatch(t, cp, k);
    ResolveFirstMatch(u, cp, k);
  }

  /** A delta segment maps `cp` to `cp + delta` with 16-bit wrap-around, `delta` being signed. */
  lemma ResolveDelta(t: Format4SubTable, cp: int, k: nat)
    requires k < |t.segments| && t.segments[k].Contains(cp) && t.segments[k].offset == 0
    requires forall j :: 0 <= j < k ==> !t.segments[j].Contains(cp)
    ensures Resolve(t, cp) == Ok(Lookup(true, (cp + t.segments[k].delta) % 0x1_0000))
  {
    ResolveFirstMatch(t, cp, k);
  }

  /** The wrap-around case: start 0xFFF0, delta 2, code point 0xFFFF gives glyph 1. */
  lemma DeltaWrapsAround()
    ensures Resolve(Format4SubTable(0, 3, 1, [Segment(0, 0xFFFF, 0xFFF0, 2, 0)], []), 0xFFFF)
            == Ok(Lookup(true, 1))
  {
    ResolveDelta(Format4SubTable(0, 3, 1, [Segment(0, 0xFFFF, 0xFFF0, 2, 0)], []), 0xFFFF, 0);
  }

  /**
   * An indirect segment returns the glyph-id array entry at
   * `offset/2 + (cp - start) - segCount + index` as it is (no delta, no
   * check for 0), or fails when that position lies outside the array.
   */
  lemma ResolveIndirect(t: Format4SubTable, cp: int, k: nat)
    requires k < |t.segments| && t.segments[k].Contains(cp) && t.segments[k].offset != 0
    requires forall j :: 0 <= j < k ==> !t.segments[j].Contains(cp)
    ensures var index := t.segments[k].offset / 2 + (cp - t.segments[k].start)
                         - |t.segments| + t.segments[k].index;
            Resolve(t, cp) == if 0 <= index < |t.glyphIds| then Ok(Lookup(true, t.glyphIds[index]))
                              else Err(GlyphIndexOutOfRange(index))
  {
    ResolveFirstMatch(t, cp, k);
  }

  /** Within an indirect segment the glyph-id array position advances by one per code point. */
  lemma IndirectIndexLinear(t: Format4SubTable, seg: Segment, cp: int)
    requires seg.Contains(cp) && seg.Contains(cp + 1)
    ensures IndirectIndex(t, seg, cp + 1) == IndirectIndex(t, seg, cp) + 1
  {
  }

  /** The table with the single segment {start 0, end 0xFFFF, delta 0, offset 0} is the identity on 16-bit code points. */
  lemma IdentityTable(cp: nat)
    ensures var t := Format4SubTable(0, 3, 1, [Segment(0, 0xFFFF, 0, 0, 0)], []);
            Resolve(t, cp) == if cp <= 0xFFFF then Ok(Lookup(true, cp)) else Ok(Lookup(false, 0))
  {
    var t := Format4SubTable(0, 3, 1, [Segment(0, 0xFFFF, 0, 0, 0)], []);
    if cp <= 0xFFFF {
      ResolveDelta(t, cp, 0);
    }
  }

  // ---------------------------------------------------------------------
  // Decoding

  /** The size of the fixed part of the subtable, format tag included. */
  function HeaderLength(segCount: nat): nat {
    16 + 8 * segCount
  }

  /** Integer division by 2 rounding toward zero, as C# `/` does on `int`. */
  function HalfTowardZero(a: int): (r: int)
    ensures a >= 0 ==> 2 * r <= a <= 2 * r + 1
    ensures a < 0 ==> 2 * r - 1 <= a <= 2 * r
  {
    if a >= 0 then a / 2 else -((-a) / 2)
  }

  /** The decoded content of one subtable and the cursor just past it. */
  datatype Decoded = Decoded(language: u16, segments: seq<Segment>, glyphIds: seq<u16>, next: nat)

  /**
   * The segments stored from `ends` on: `segCount` end codes, a reserved
   * word, then the start codes, the deltas and the range offsets, each array
   * `segCount` words long; the cursor ends after the range offsets.
   */
  function SegmentsAt(data: seq<byte>, ends: nat, segCount: u16): (r: Result<Read<seq<Segment>>>)
    ensures r.Ok? <==> ends + 8 * segCount + 2 <= |data|
    ensures r.Err? ==> r.error == EndOfStream
    ensures r.Ok? ==> |r.value.value| == segCount && forall i :: 0 <= i < segCount ==> r.value.value[i].index == i
    ensures r.Ok? ==> r.value.next == ends + 8 * segCount + 2
  {
    var starts := ends + 2 * segCount + 2;
    var deltas := starts + 2 * segCount;
    var offsets := deltas + 2 * segCount;
    if offsets + 2 * segCount > |data| then Err(EndOfStream)
    else
      Ok(Read(seq(segCount, i requires 0 <= i < segCount =>
                Segment(i, U16At(data, ends + 2 * i), U16At(data, starts + 2 * i),
                        I16At(data, deltas + 2 * i), U16At(data, offsets + 2 * i))),
              offsets + 2 * segCount))
  }

  /**
   * The format-4 layout stated by absolute byte positions, `pos` being the
   * cursor just after the format tag: six `u16` header fields, then
   * `endCount`, a reserved `u16`, `startCount`, `idDelta` (signed) and
   * `idRangeOffset`, each `segCount` entries long, then the glyph-id array.
   */
  function DecodeLayout(data: seq<byte>, pos: nat): (r: Result<Decoded>)
    ensures r.Ok? ==> pos + 12 <= |data| && |r.value.segments| == U16At(data, pos + 4) / 2
    ensures r.Ok? ==> r.value.next + 2 == pos + HeaderLength(|r.value.segments|) + 2 * |r.value.glyphIds|
    ensures r.Ok? ==> r.value.next <= |data|
    ensures r.Ok? ==> forall i :: 0 <= i < |r.value.segments| ==> r.value.segments[i].index == i
  {
    if pos + 12 > |data| then Err(EndOfStream)
    else
      var length := U16At(data, pos);
      var language := U16At(data, pos + 2);
      var segCount := U16At(data, pos + 4) / 2;
      var segments :- SegmentsAt(data, pos + 12, segCount);
      var glyphs := pos + HeaderLength(segCount) - 2;
      var count := HalfTowardZero(length - HeaderLength(segCount));
      if count < 0 then Err(NegativeArrayLength(count))
      else if glyphs + 2 * count > |data| then Err(EndOfStream)
      else Ok(Decoded(language, segments.value, seq(count, j requires 0 <= j < count => U16At(data, glyphs + 2 * j)),
                      glyphs + 2 * count))
  }

  /**
   * A successful decode reads `(length - headerLength) / 2` glyph ids
   * (rounded toward zero), so it consumes exactly the declared `length`
   * bytes, format tag included, when that difference is even and not negative.
   */
  lemma DecodeConsumesLength(data: seq<byte>, pos: nat)
    requires DecodeLayout(data, pos).Ok?
    ensures var d := DecodeLayout(data, pos).value;
            var length := U16At(data, pos);
            var header := HeaderLength(|d.segments|);
            && |d.glyphIds| == HalfTowardZero(length - header)
            && (length >= header && (length - header) % 2 == 0 ==> d.next + 2 == pos + length)
  {
  }

  /**
   * Once the header and the four segment arrays are present, decoding fails
   * with a negative array length exactly when `length` is at least two bytes
   * short of the header; one byte short still decodes, with no glyph ids.
   */
  lemma DecodeNegativeGlyphIdCount(data: seq<byte>, pos: nat)
    requires pos + 12 <= |data|
    requires pos + HeaderLength(U16At(data, pos + 4) / 2) - 2 <= |data|
    ensures var r := DecodeLayout(data, pos);
            var header := HeaderLength(U16At(data, pos + 4) / 2);
            && (r.Err? && r.error.NegativeArrayLength? <==> U16At(data, pos) + 2 <= header)
            && (U16At(data, pos) + 1 == header ==> r.Ok? && r.value.glyphIds == [])
  {
  }

  /** The bytes of the identity subtable: one segment {end 0xFFFF, start 0, delta 0, offset 0}, no glyph ids, `length` 24. */
  function IdentityBytes(): (b: seq<byte>)
    ensures |b| == 22
  {
    [0x00, 0x18, 0x00, 0x00, 0x00, 0x02, 0x00, 0x02, 0x00, 0x00, 0x00, 0x00,
     0xFF, 0xFF, 0x00, 0x00, 0x00, 0x00, 0x00, 0x00, 0x00, 0x00]
  }

  /** The identity bytes decode to one segment {end 0xFFFF, start 0, delta 0, offset 0}, no glyph ids, 22 bytes consumed. */
  lemma IdentityBytesLayout()
    ensures DecodeLayout(IdentityBytes(), 0) == Ok(Decoded(0, [Segment(0, 0xFFFF, 0, 0, 0)], [], 22))
  {
    var data := IdentityBytes();
    assert U16At(data, 0) == 24 && U16At(data, 4) == 2;
    var segments := SegmentsAt(data, 12, 1);
    assert segments.Ok?;
    assert segments.value.value == [Segment(0, 0xFFFF, 0, 0, 0)];
  }

  /** Decoding the identity bytes for two encoding records yields two subtables that each map every 16-bit code point to itself. */
  lemma IdentityBytesDecode(cp: nat)
    ensures var r := DecodeSubTables([EncodingRecord(3, 1), EncodingRecord(0, 3)], IdentityBytes(), 0);
            && r.Ok? && |r.value.tables| == 2 && r.value.next == 22
            && r.value.tables[0].platform == 3 && r.value.tables[1].platform == 0
            && forall k :: 0 <= k < 2 ==>
                 Resolve(r.value.tables[k], cp) == if cp <= 0xFFFF then Ok(Lookup(true, cp)) else Ok(Lookup(false, 0))
  {
    IdentityBytesLayout();
    var r := DecodeSubTables([EncodingRecord(3, 1), EncodingRecord(0, 3)], IdentityBytes(), 0);
    forall k | 0 <= k < 2
      ensures Resolve(r.value.tables[k], cp) == if cp <= 0xFFFF then Ok(Lookup(true, cp)) else Ok(Lookup(false, 0))
    {
      IdentityTable(cp);
    }
  }

  /** What loading yields: the subtables, one per encoding record, and the cursor after the bytes read. */
  datatype Loaded = Loaded(tables: seq<Format4SubTable>, next: nat)

  /** The subtables loaded from `data` at `pos` for `encodings`: one per record, in record order, all sharing one decoding. */
  function DecodeSubTables(encodings: seq<EncodingRecord>, data: seq<byte>, pos: nat): Result<Loaded> {
    match DecodeLayout(data, pos)
    case Err(e) => Err(e)
    case Ok(d) =>
      Ok(Loaded(seq(|encodings|, k requires 0 <= k < |encodings| =>
                    Format4SubTable(d.language, encodings[k].platformId, encodings[k].encodingId,
                                    d.segments, d.glyphIds)),
                d.next))
  }

  /**
   * Loading fails exactly when the layout does not decode. Otherwise the
   * subtables follow the encoding records one for one and in order, differ
   * only in platform and encoding, and so resolve every code point alike.
   */
  lemma SubTablesShareLookup(encodings: seq<EncodingRecord>, data: seq<byte>, pos: nat)
    ensures DecodeSubTables(encodings, data, pos).Err? <==> DecodeLayout(data, pos).Err?
    ensures DecodeSubTables(encodings, data, pos).Ok? ==>
              var tables := DecodeSubTables(encodings, data, pos).value.tables;
              && |tables| == |encodings|
              && (forall k :: 0 <= k < |tables| ==>
                    tables[k].platform == encodings[k].platformId && tables[k].encoding == encodings[k].encodingId)
              && (forall j, k :: 0 <= j < |tables| && 0 <= k < |tables| ==>
                    && tables[j].language == tables[k].language
                    && tables[j].segments == tables[k].segments
                    && tables[j].glyphIds == tables[k].glyphIds)
              && (forall j, k, cp :: 0 <= j < |tables| && 0 <= k < |tables| ==> Resolve(tables[j], cp) == Resolve(tables[k], cp))
  {
    if DecodeSubTables(encodings, data, pos).Ok? {
      var tables := DecodeSubTables(encodings, data, pos).value.tables;
      forall j, k, cp | 0 <= j < |tables| && 0 <= k < |tables|
        ensures Resolve(tables[j], cp) == Resolve(tables[k], cp)
      {
        ResolveIgnoresRecord(tables[j], tables[k], cp);
      }
    }
  }

  /** The lookup reads only the segments and the glyph ids, not the language, platform or encoding. */
  lemma ResolveIgnoresRecord(t: Format4SubTable, u: Format4SubTable, cp: int)
    requires t.segments == u.segments && t.glyphIds == u.glyphIds
    ensures Resolve(t, cp) == Resolve(u, cp)
  {
  }

  /**
   * Reads the four segment arrays and the reserved word between the first
   * two, starting at `ends`, and builds the segments from them.
   */
  method ReadSegments(data: seq<byte>, ends: nat, segCount: u16) returns (r: Result<Read<seq<Segment>>>)
    ensures r == SegmentsAt(data, ends, segCount)
  {
    var endCounts :- ReadUInt16Array(data, ends, segCount);
    var reserved :- ReadUInt16(data, endCounts.next);
    var startCounts :- ReadUInt16Array(data, reserved.next, segCount);
    var idDelta :- ReadInt16Array(data, startCounts.next, segCount);
    var idRangeOffset :- ReadUInt16Array(data, idDelta.next, segCount);
    var segments := Segment.Create(endCounts.value, startCounts.value, idDelta.value, idRangeOffset.value);
    r := Ok(Read(segments, idRangeOffset.next));
    assert SegmentsAt(data, ends, segCount).Ok?;
    assert segments == SegmentsAt(data, ends, segCount).value.value;
  }

  /**
   * Reads the fields of the subtable at the cursor `pos` (the format tag
   * already read) in their stored order and builds the segments.
   */
  method ReadLayout(data: seq<byte>, pos: nat) returns (r: Result<Decoded>)
    ensures r == DecodeLayout(data, pos)
  {
    var length :- ReadUInt16(data, pos);
    var language :- ReadUInt16(data, length.next);
    var segCountX2 :- ReadUInt16(data, language.next);
    var searchRange :- ReadUInt16(data, segCountX2.next);
    var entrySelector :- ReadUInt16(data, searchRange.next);
    var rangeShift :- ReadUInt16(data, entrySelector.next);
    assert rangeShift.next == pos + 12;
    var segCount: int := segCountX2.value / 2;
    var segments :- ReadSegments(data, rangeShift.next, segCount);

    // the fixed part of the subtable, format tag included
    var headerLength: int := 16 + segCount * 8;
    var glyphIdCount := HalfTowardZero(length.value - headerLength);

    var glyphIds :- ReadUInt16Array(data, segments.next, glyphIdCount);
    r := Ok(Decoded(language.value, segments.value, glyphIds.value, glyphIds.next));
  }

  /** Loads the subtable at the cursor `pos` once and yields one subtable per encoding record, in record order. */
  method Load(encodings: seq<EncodingRecord>, data: seq<byte>, pos: nat) returns (r: Result<Loaded>)
    ensures r == DecodeSubTables(encodings, data, pos)
  {
    var d :- ReadLayout(data, pos);
    var tables: seq<Format4SubTable> := [];
    for k := 0 to |encodings|
      invariant |tables| == k
      invariant forall j :: 0 <= j < k ==>
                  tables[j] == Format4SubTable(d.language, encodings[j].platformId, encodings[j].encodingId,
                                               d.segments, d.glyphIds)
    {
      tables := tables + [Format4SubTable(d.language, encodings[k].platformId, encodings[k].encodingId,
                                          d.segments, d.glyphIds)];
    }
    ghost var expected := DecodeSubTables(encodings, data, pos).value.tables;
    assert |tables| == |expected| && forall j :: 0 <= j < |tables| ==> tables[j] == expected[j];
    assert tables == expected;
    r := Ok(Loaded(tables, d.next));
  }
}
