# Format-4 character map and glyph outline assembly

This project models two parts of the path a font engine takes from a character to its glyph outline.

- **The format-4 'cmap' subtable** ("segment mapping to delta values", OpenType 'cmap' table, format 4).
  - `CMapFormat4.Load` decodes the subtable from big-endian bytes. The layout is a header, four parallel segment arrays and a trailing glyph-id array.
  - It yields one subtable per encoding record.
  - `TryGetGlyphId` resolves a code point in two steps. A first-match scan over the segments picks a segment. The segment then gives either a 16-bit wrap-around delta or an indirect index into the glyph-id array.
- **The glyph outline** (`GlyphVector`). It holds four co-indexed pieces of state: control points, on-curve flags, contour end points and bounds.
  - Composite glyphs are built with its in-place operations: deep clone, translate (`TtfOffsetXy`), append (`TtfAppendGlyph`) and linear transform (`TtfTransformWithMatrix`).

Modules:

- `Primitives`: byte, `u16` and `i16` ranges; `Result` and `Option`.
- `BigEndian`: the reader as functions over a byte sequence and a cursor.
- `CMapFormat4`:
  - `Segment` and `Segment.Create`.
  - The subtable and its lookup method.
  - The lookup specification `Resolve`.
  - The byte layout specification `DecodeLayout` / `DecodeSubTables`.
  - The methods `ReadSegments`, `ReadLayout` and `Load`, which thread the cursor.
- `Outlines`: the outline as a value (`Outline`) and each operation as a function of that value, with the lemmas about them.
- `Glyphs`: the class `GlyphVector`.
  - Its array fields are updated in place.
  - Every mutating method proves its new `Model()` equals the matching `Outlines` function of the old one.

The code disagrees with the intended design in one place.

- The append operation is meant to extend the flags and the contour ends along with the points.
- The code resizes only the point array.
- The model follows the code in `TtfAppendGlyph` and proves the resulting breakage, as reported under "## Findings".
- It also provides the consistent append beside it.

## Model

| member | source | states |
|---|---|---|
| CMapFormat4.Segment.Create | src/SixLabors.Fonts/Tables/General/CMap/Format4SubTable.cs:121-135 | one segment per end code, in stored order, segment `i` having index `i` and end, start, delta and offset from position `i` of the four arrays |
| CMapFormat4.Format4SubTable.TryGetGlyphId | src/SixLabors.Fonts/Tables/General/CMap/Format4SubTable.cs:26-52 | the scan returns exactly `Resolve`: the first containing segment decides, not found gives (false, 0), an out-of-range indirect index is an error |
| CMapFormat4.FirstMatch | src/SixLabors.Fonts/Tables/General/CMap/Format4SubTable.cs:30-34 | the position found contains the code point and no earlier one does; no position means no segment contains it |
| CMapFormat4.ResolveNotFound | src/SixLabors.Fonts/Tables/General/CMap/Format4SubTable.cs:30-51 | the lookup yields (false, 0) if and only if no segment has `start <= cp <= end` |
| CMapFormat4.ResolveFirstMatch | src/SixLabors.Fonts/Tables/General/CMap/Format4SubTable.cs:30-47 | the first segment containing the code point decides the result |
| CMapFormat4.LaterSegmentsIgnored | src/SixLabors.Fonts/Tables/General/CMap/Format4SubTable.cs:30-47 | replacing the segments after the first match by any others of the same number leaves the result unchanged |
| CMapFormat4.ResolveDelta | src/SixLabors.Fonts/Tables/General/CMap/Format4SubTable.cs:36-39 | a matched segment with offset 0 gives (true, (cp + delta) mod 65536), with the delta signed |
| CMapFormat4.DeltaWrapsAround | src/SixLabors.Fonts/Tables/General/CMap/Format4SubTable.cs:38 | start 0xFFF0, delta 2, code point 0xFFFF gives glyph 1 |
| CMapFormat4.ResolveIndirect | src/SixLabors.Fonts/Tables/General/CMap/Format4SubTable.cs:42-45 | a matched segment with a non-zero offset returns the glyph-id entry at `offset/2 + (cp - start) - segCount + index` unchanged, or fails when that index is outside the array |
| CMapFormat4.IndirectIndexLinear | src/SixLabors.Fonts/Tables/General/CMap/Format4SubTable.cs:43-44 | within a segment the indirect index grows by one per code point |
| CMapFormat4.IdentityTable | src/SixLabors.Fonts/Tables/General/CMap/Format4SubTable.cs:26-52 | the single segment 0..0xFFFF with delta 0 maps every 16-bit code point to itself and finds nothing beyond |
| CMapFormat4.HalfTowardZero | src/SixLabors.Fonts/Tables/General/CMap/Format4SubTable.cs:89 | the glyph-id count is the half of `length - headerLength` rounded toward zero, bracketed from both sides for either sign |
| CMapFormat4.SegmentsAt | src/SixLabors.Fonts/Tables/General/CMap/Format4SubTable.cs:80-85 | the four segment arrays and the reserved word decode if and only if `8*segCount + 2` bytes remain, otherwise end of stream; `segCount` segments with index `i` at position `i`, and the cursor ends `8*segCount + 2` bytes on |
| CMapFormat4.DecodeLayout | src/SixLabors.Fonts/Tables/General/CMap/Format4SubTable.cs:73-93 | a successful decode has `segCountX2 / 2` segments numbered in order and ends at `pos + headerLength - 2 + 2*glyphIdCount` within the data |
| CMapFormat4.ReadSegments | src/SixLabors.Fonts/Tables/General/CMap/Format4SubTable.cs:80-93 | reading the arrays in stored order, each from the cursor the previous read left, and building the segments gives exactly `SegmentsAt`, final cursor and error cases included |
| CMapFormat4.ReadLayout | src/SixLabors.Fonts/Tables/General/CMap/Format4SubTable.cs:73-93 | reading the header words, the segment arrays and then the glyph ids from the cursor the segment reads left gives exactly `DecodeLayout`, which places the glyph ids at `headerLength - 2` bytes after `pos`; error cases included |
| CMapFormat4.DecodeConsumesLength | src/SixLabors.Fonts/Tables/General/CMap/Format4SubTable.cs:87-91 | the glyph-id count is `(length - headerLength) / 2` toward zero, and an even, non-negative difference consumes exactly `length` bytes counting the format tag |
| CMapFormat4.DecodeNegativeGlyphIdCount | src/SixLabors.Fonts/Tables/General/CMap/Format4SubTable.cs:88-91 | decoding fails with a negative array length if and only if `length` is at least two bytes short of the header; one byte short gives no glyph ids |
| CMapFormat4.IdentityBytesLayout | src/SixLabors.Fonts/Tables/General/CMap/Format4SubTable.cs:73-93 | a concrete 22-byte subtable decodes to the one identity segment with no glyph ids |
| CMapFormat4.IdentityBytesDecode | src/SixLabors.Fonts/Tables/General/CMap/Format4SubTable.cs:54-98 | loading those bytes for two records yields two subtables with those records' platforms, each the identity map |
| CMapFormat4.Load | src/SixLabors.Fonts/Tables/General/CMap/Format4SubTable.cs:54-98 | decoding once and building one subtable per record gives exactly `DecodeSubTables` |
| CMapFormat4.SubTablesShareLookup | src/SixLabors.Fonts/Tables/General/CMap/Format4SubTable.cs:93-97 | loading fails exactly when the layout does not decode; otherwise one subtable per encoding record in record order, carrying that record's platform and encoding, all with the same language, segments and glyph ids, so all resolving every code point alike |
| CMapFormat4.ResolveIgnoresRecord | src/SixLabors.Fonts/Tables/General/CMap/Format4SubTable.cs:26-52 | the lookup depends only on the segments and the glyph ids |
| BigEndian.ReadUInt16ArrayIsRepeatedRead | src/SixLabors.Fonts/Tables/General/CMap/Format4SubTable.cs:80-91 | an array read of `count + 1` words is one word read followed by an array read of `count` words from the cursor it leaves: same values, same final cursor, same error |
| BigEndian.ReadInt16ArrayMatchesUnsigned | src/SixLabors.Fonts/Tables/General/CMap/Format4SubTable.cs:84 | the signed array read succeeds exactly when the unsigned one does, fails with the same error, ends at the same cursor, and each element is the unsigned one modulo 65536, negative exactly when it is at least 0x8000 |
| BigEndian.I16AtIsTwosComplement | src/SixLabors.Fonts/Tables/General/CMap/Format4SubTable.cs:84 | the signed word agrees with the unsigned one modulo 65536 and is negative exactly when the top bit is set |
| Glyphs.GlyphVector.constructor | src/SixLabors.Fonts/Tables/General/Glyphs/GlyphVector.cs:13-19 | the outline wraps the given buffers themselves |
| Glyphs.GlyphVector.Copy | src/SixLabors.Fonts/Tables/General/Glyphs/GlyphVector.cs:21-31 | fresh buffers holding an equal outline |
| Glyphs.GlyphVector.DeepClone | src/SixLabors.Fonts/Tables/General/Glyphs/GlyphVector.cs:44 | a fresh object with fresh buffers and the same points, flags, contour ends and bounds |
| Glyphs.GlyphVector.PointCount | src/SixLabors.Fonts/Tables/General/Glyphs/GlyphVector.cs:33 | the point count is the length of the outline's point list |
| Glyphs.PlaceComponent | src/SixLabors.Fonts/Tables/General/Glyphs/GlyphVector.cs:21-66 | translating a clone moves the clone and leaves the original's whole outline as it was |
| Glyphs.GlyphVector.TtfOffsetXy | src/SixLabors.Fonts/Tables/General/Glyphs/GlyphVector.cs:52-122 | the same buffer and point count, every point moved by (dx, dy), both bound corners moved by (dx, dy), flags and contours kept |
| Outlines.OffsetIsTranslation | src/SixLabors.Fonts/Tables/General/Glyphs/GlyphVector.cs:122 | `Offset` is a translation: the opposite move undoes it, two moves add up, and two points moved alike keep their difference |
| Outlines.OffsetXyKeepsShape | src/SixLabors.Fonts/Tables/General/Glyphs/GlyphVector.cs:52-58 | translation keeps the point count, flags and contour ends, and well-formedness in both directions |
| Outlines.OffsetXyRoundTrip | src/SixLabors.Fonts/Tables/General/Glyphs/GlyphVector.cs:60-65 | translating by (-dx, -dy) after (dx, dy) restores points and bounds exactly |
| Outlines.OffsetXyCompose | src/SixLabors.Fonts/Tables/General/Glyphs/GlyphVector.cs:52-66 | two translations equal one translation by their sum |
| Glyphs.GlyphVector.TtfAppendGlyph | src/SixLabors.Fonts/Tables/General/Glyphs/GlyphVector.cs:72-78 | the points become the old ones followed by `src`'s; the same buffer when `src` is empty and a new one otherwise; flags, contours and bounds untouched |
| Outlines.AppendAsWrittenContents | src/SixLabors.Fonts/Tables/General/Glyphs/GlyphVector.cs:72-78 | point count is old plus `src`'s, the first old points unchanged, the rest `src`'s in order, flags, contours and bounds unchanged |
| Outlines.AppendAsWrittenBreaksFlags | src/SixLabors.Fonts/Tables/General/Glyphs/GlyphVector.cs:72-78 | appending a non-empty outline to a well-formed one leaves fewer flags than points, so never a well-formed outline |
| Outlines.AppendAsWrittenCounterexample | src/SixLabors.Fonts/Tables/General/Glyphs/GlyphVector.cs:72-78 | one point appended to itself: two points, one flag, one contour ending at point 0 |
| Outlines.ShiftEndPoints | src/SixLabors.Fonts/Tables/General/Glyphs/GlyphVector.cs:72-78 | the shifted contour ends are as many as before, all at least the point count they are moved past, strictly ascending when the originals are, the last one moved by exactly that count |
| Outlines.AppendConsistentContents | src/SixLabors.Fonts/Tables/General/Glyphs/GlyphVector.cs:72-78 | the corrected append keeps the old points, flags and contour ends first, then `src`'s, its ends shifted by the old point count |
| Outlines.AppendConsistentWellFormed | src/SixLabors.Fonts/Tables/General/Glyphs/GlyphVector.cs:72-78 | the corrected append of two well-formed outlines is well formed, provided the shifted contour ends fit 16 bits and `src` has at least one contour whenever it has points |
| Outlines.AppendAscending | src/SixLabors.Fonts/Tables/General/Glyphs/GlyphVector.cs:72-78 | two strictly ascending runs, the first below the second, join into a strictly ascending run |
| Glyphs.GlyphVector.AppendGlyphConsistent | src/SixLabors.Fonts/Tables/General/Glyphs/GlyphVector.cs:72-78 | the corrected append in place: fresh buffers holding `AppendConsistent` of the old outlines |
| Glyphs.GlyphVector.TtfTransformWithMatrix | src/SixLabors.Fonts/Tables/General/Glyphs/GlyphVector.cs:80-120 | the same buffer and point count, each point replaced by its unrounded image, bounds the origin-seeded extremes of the rounded images |
| Glyphs.TransformAndMeasure | src/SixLabors.Fonts/Tables/General/Glyphs/GlyphVector.cs:85-117 | the in-place loop maps every point and returns the origin-seeded running extremes of the rounded image coordinates |
| Outlines.RoundHalfEven | src/SixLabors.Fonts/Tables/General/Glyphs/GlyphVector.cs:95-96 | the result is within 0.5 of the value, and a tie goes to the even integer |
| Outlines.RoundHalfEvenOfInt | src/SixLabors.Fonts/Tables/General/Glyphs/GlyphVector.cs:95-96 | an integer rounds to itself |
| Outlines.SeededExtremes | src/SixLabors.Fonts/Tables/General/Glyphs/GlyphVector.cs:85-116 | the running minimum started at 0 is at most 0 and the maximum at least 0; both bound every value; each is 0 or one of the values |
| Outlines.SeededStep | src/SixLabors.Fonts/Tables/General/Glyphs/GlyphVector.cs:98-116 | one more value updates each running extreme by one comparison |
| Outlines.SeededFitI16 | src/SixLabors.Fonts/Tables/General/Glyphs/GlyphVector.cs:119 | the extremes of 16-bit values fit 16 bits |
| Outlines.TransformBounds | src/SixLabors.Fonts/Tables/General/Glyphs/GlyphVector.cs:85-119 | after the transform the bounds contain the origin and every rounded image coordinate, each bound being 0 or one of them |
| Outlines.TransformBoundsFitI16 | src/SixLabors.Fonts/Tables/General/Glyphs/GlyphVector.cs:119 | when every rounded image fits 16 bits, so do the four bounds, so the 16-bit store loses nothing |
| Outlines.TransformAllIdentity | src/SixLabors.Fonts/Tables/General/Glyphs/GlyphVector.cs:89-97 | the identity matrix maps every point list to itself |
| Outlines.TransformAllCompose | src/SixLabors.Fonts/Tables/General/Glyphs/GlyphVector.cs:89-97 | transforming by `m` and then by `n` equals one transform by the product matrix `Then(m, n)` |
| Outlines.TransformKeepsShape | src/SixLabors.Fonts/Tables/General/Glyphs/GlyphVector.cs:89-97 | the transform keeps the point count, flags and contour ends, and well-formedness in both directions |
| Outlines.TransformIdentity | src/SixLabors.Fonts/Tables/General/Glyphs/GlyphVector.cs:80-120 | the identity matrix leaves integer points unchanged, and the bounds contain every point |
| Outlines.TransformBoundsSeededAtOrigin | src/SixLabors.Fonts/Tables/General/Glyphs/GlyphVector.cs:85-116 | points at x 5 and 7 under the identity give the x range 0..7, not 5..7 |

## Left out

- Floating point:
  - Coordinates and matrix entries are exact reals, not IEEE `float`.
  - `Vector2.TransformNormal` is exact real arithmetic.
  - `Math.Round` is modelled by its midpoint rule (ties to even) on the exact value, without the float-to-double widening.
  - The `(float)` casts are not modelled.
- Glyphs.GlyphVector.TtfTransformWithMatrix: requires every rounded image coordinate to fit 16 bits instead of modelling the `(short)` cast of an out-of-range value, whose result .NET leaves unspecified.
- CMapFormat4.Segment.Create: requires fewer than 65536 segments. The 16-bit loop counter would never reach a larger count. `Load` can pass at most 32767 segments. It also requires the other three arrays to be at least as long as the end codes; for shorter arrays the code throws an `IndexOutOfRangeException` at lines 127-130, and that exception is not modelled.
- The byte reader:
  - `BigEndianBinaryReader` is not part of this model; it is replaced by functions over a byte sequence and a cursor.
  - A read past the end is the error `EndOfStream`.
  - A negative array length is `NegativeArrayLength`, the exception `new ushort[n]` throws.
- An indirect index outside the glyph-id array, an `IndexOutOfRangeException` in the code, is the error `GlyphIndexOutOfRange`.
- `searchRange`, `entrySelector`, `rangeShift` and the reserved word are read and then discarded, as in the code; they are not checked against `segCount`.
- CMapFormat4.Load: returns the whole sequence of subtables at once instead of the lazy `yield return` enumeration, and does not model the enumerator running the decode again on each enumeration.
- Array sharing:
  - The subtables share one segment array and one glyph-id array. This is modelled as equal immutable values, since nothing mutates them after loading.
  - The `CMapSubTable` base class, its format number and the `PlatformIDs` enumeration are not part of this model. The platform is a plain `u16`.
- `CodePoint` is reduced to its non-negative integer value.
- `GlyphVector` is a C# struct, copied implicitly on assignment and on argument passing. The model is a class, so such copies are not made. For example, `src` in `TtfAppendGlyph` is a copy in the code but may be the receiver itself in the model. Two objects built by the wrapping constructor over the same arrays do behave like two struct copies: they share point mutation, and each has its own bounds and its own resize.
- `DeepClone` is modelled as the `Copy` constructor. Boxing into `IDeepCloneable` is not modelled.
- The `Bounds` type is reduced to two corners of reals; its own constructor and members are not part of this model.
- The build-time Unicode trie generator is not part of this model: it is file and regex processing with no effect on this core. Nor are the end-to-end layout tests, which measure float text sizes through the full renderer.

## Findings

| source | as written | input that shows it | evidently intended | confidence | as-written member | corrected member |
|---|---|---|---|---|---|---|
| src/SixLabors.Fonts/Tables/General/Glyphs/GlyphVector.cs:72-78 | `TtfAppendGlyph` resizes only the control-point array; on-curve flags and contour end points keep their old lengths | an outline with one point, one flag and contour ends `[0]`, appended to itself: two points, one flag, contour ends `[0]` | flags extended with `src`'s flags and `src`'s contour ends appended, shifted by the old point count, so the outline stays well formed | not executed | Outlines.AppendAsWrittenCounterexample | Outlines.AppendConsistentWellFormed |
