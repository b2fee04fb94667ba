# hyperMILL NC-tools inventory exporter: the polyline decoder and its helpers, in Dafny

The exporter reads a hyperMILL tool database. Tool and holder geometry is
stored there as an undocumented "polyline" blob. This project models how that
blob is decoded and the small sequence and string helpers around it:

- **Blob layout** (`GeometryPolyline`). A blob is a header of `header_len`
  bytes followed by records of `record_len` bytes.
  - Each record starts with a little-endian u16 type tag.
  - The rest of the record is its payload. The payload is read four ways:
    binary64 little-endian, binary64 big-endian, binary32 little-endian and
    int32 little-endian two's complement.
  - `parse_polyline` checks the layout and splits the blob.
  - `guess_polyline_format` tries candidate layouts and keeps the first one
    with the strictly highest tag-based score.
- **Record statistics and dumps.** `summarize_record_types` builds a tag
  histogram (`RecordTypes`). `hexdump` renders the blob as text (`Hexdump`).
- **Point extraction** (`PointExtraction`).
  - The CLI inspector and the PNG exporter select records by tag and by
    big-endian view.
  - They stop at an optional (0, 0, 0) sentinel and cap the number of points.
- **Section geometry** (`Profiles`).
  - Mirroring a one-sided (R, Z) profile into a closed outline.
  - The swap/flip transform.
  - The rectangular outline of a cylindrical tool.
  - The "largest positive value" rule for a tool diameter.
- **The minimal mirror-fill script** (`MirrorFill`). It has its own, more
  lenient record walker (`iter_records`), a point reader and
  `mirror_and_close_polygon`.
- **Excel sheet names** (`SheetNames`): sanitising, de-duplicating against
  the workbook's set of used names, and choosing the reach column.
- **File names** (`Filenames`): the GUI's and the PNG exporter's
  `sanitize_filename`.
- **The folder tree** (`Folders`): grouping folder rows into a node table and
  child lists, and the preorder walk that produces the joined folder paths
  and their depths.

How the source is represented:

- **Floats** are kept as their interchange encodings
  (section 3.4 of IEEE 754-2008), in module `Ieee754`.
  - A little-endian read is the big-endian read of the reversed bytes, so no
    value is approximated.
  - Python's `==` on floats is modelled exactly: neither operand is a NaN,
    and the bits are equal or both values are zeros.
  - Unary minus flips the sign bit.
  - The guesser's score and the tool dimensions are computed over exact
    reals instead.
- **Python builtins** are modelled in `PyBuiltins`: slicing with negative
  indices, `str.replace`, `strip`, `join`, and the `x`, `02d` and `<w`
  format codes.
- **Mutable state.**
  - The `used` set of the sheet-name de-duplicator is a field of a class,
    updated in place.
  - So is the `records` list of the folder walk.
  - Loops become methods with loop invariants, each proved against a
    function that states the result without the loop.

## Model

| member | source | states |
|---|---|---|
| GeometryPolyline.U16Le | src/hypermill_nctools_inventory_exporter/geometry_polyline.py:73-74 | fails (`struct.error`) exactly when fewer than 2 bytes are given; otherwise the 2-byte little-endian encoding of the result is the first two bytes |
| Bytes.UIntLe2 | src/hypermill_nctools_inventory_exporter/geometry_polyline.py:73-74 | a u16 read little-endian is the low byte plus 256 times the high byte |
| Bytes.DecodeEncodeUIntLe | src/hypermill_nctools_inventory_exporter/geometry_polyline.py:73-74 | encoding a value in n little-endian bytes and reading it back gives the value |
| Bytes.EncodeDecodeUIntLe | src/hypermill_nctools_inventory_exporter/geometry_polyline.py:73-74 | reading bytes and re-encoding them gives the bytes back: the encoding is unique |
| GeometryPolyline.I32Le | src/hypermill_nctools_inventory_exporter/geometry_polyline.py:102-110 | the `<i` value of 4 bytes lies in the int32 range and re-encodes to those 4 bytes |
| GeometryPolyline.I32LeRoundTrip | src/hypermill_nctools_inventory_exporter/geometry_polyline.py:102-110 | every int32 survives encoding and decoding |
| GeometryPolyline.UnpackF64 | src/hypermill_nctools_inventory_exporter/geometry_polyline.py:77-88 | one binary64 per whole 8 bytes of payload (len // 8 values), so a payload shorter than 8 bytes gives an empty view, not an error |
| GeometryPolyline.UnpackF64At | src/hypermill_nctools_inventory_exporter/geometry_polyline.py:81-86 | value j is bytes 8j..8j+8, read big-endian as they are or little-endian reversed |
| GeometryPolyline.UnpackF32Le | src/hypermill_nctools_inventory_exporter/geometry_polyline.py:91-99 | one binary32 per whole 4 bytes of payload (len//4 values); which value sits where is stated by UnpackF32LeAt |
| GeometryPolyline.UnpackF32LeAt | src/hypermill_nctools_inventory_exporter/geometry_polyline.py:91-99 | value j of the binary32 view is bytes 4j..4j+4 read little-endian |
| GeometryPolyline.UnpackI32Le | src/hypermill_nctools_inventory_exporter/geometry_polyline.py:102-110 | one int32 per whole 4 bytes of payload |
| GeometryPolyline.UnpackI32LeAt | src/hypermill_nctools_inventory_exporter/geometry_polyline.py:103-108 | value j is the two's-complement little-endian reading of bytes 4j..4j+4 |
| GeometryPolyline.PayloadViews | src/hypermill_nctools_inventory_exporter/geometry_polyline.py:145-148 | the binary64 views have len//8 values and the binary32 and int32 views len//4; each big-endian binary64 is the little-endian one byte-reversed; each binary32 is encoded by its 4 payload bytes reversed; each int32 re-encodes to its 4 payload bytes |
| GeometryPolyline.DecodeRecord | src/hypermill_nctools_inventory_exporter/geometry_polyline.py:134-149 | a chunk decodes exactly when it has at least 2 bytes; the record keeps its index and offset, and its tag bytes followed by its payload are the chunk |
| GeometryPolyline.RecordsIndex | src/hypermill_nctools_inventory_exporter/geometry_polyline.py:129-150 | there are len(body)/record_len records; record i is the chunk at offset header_len + i*record_len decoded, with index i |
| GeometryPolyline.RecordBytes | src/hypermill_nctools_inventory_exporter/geometry_polyline.py:133-137 | record i written back is exactly the i-th record_len-byte window of the body |
| GeometryPolyline.ParsePolyline | src/hypermill_nctools_inventory_exporter/geometry_polyline.py:113-153 | the loop that appends one record per window returns what the reference `Parse` returns, errors included |
| GeometryPolyline.ParseAccepted | src/hypermill_nctools_inventory_exporter/geometry_polyline.py:119-153 | an accepted layout whose records are long enough for a tag parses to the header blob[:header_len] and the decoded records |
| GeometryPolyline.ParseFailsExactly | src/hypermill_nctools_inventory_exporter/geometry_polyline.py:119-136 | parsing raises exactly when header_len < 0, record_len <= 0, the blob is shorter than the header, the body is not a whole number of records, or record_len is 1 with at least one record |
| GeometryPolyline.ParseLayout | src/hypermill_nctools_inventory_exporter/geometry_polyline.py:125-152 | on success the header is blob[:header_len], there are len(body)/record_len records, and record i has index i, offset header_len + i*record_len, record_len - 2 payload bytes, and its tag bytes and payload at that offset |
| GeometryPolyline.ParseReassembles | src/hypermill_nctools_inventory_exporter/geometry_polyline.py:125-152 | round trip: the header followed by the records' bytes is the parsed blob |
| GeometryPolyline.ParseOfEncoded | src/hypermill_nctools_inventory_exporter/geometry_polyline.py:129-150 | round trip the other way: equal-length records written after a header parse back with the same header, count, tags, payloads and offsets |
| GeometryPolyline.EncodeRecordInjective | src/hypermill_nctools_inventory_exporter/geometry_polyline.py:136-137 | a record's bytes determine its tag and payload |
| GeometryPolyline.Tags | src/hypermill_nctools_inventory_exporter/geometry_polyline.py:186 | one tag per record, in record order |
| GeometryPolyline.SmallCount | src/hypermill_nctools_inventory_exporter/geometry_polyline.py:187 | at most the number of tags, and equal to it exactly when every tag is at most 1024 |
| GeometryPolyline.DistinctBounds | src/hypermill_nctools_inventory_exporter/geometry_polyline.py:188-189 | a non-empty tag list has between 1 and len(types) distinct tags |
| GeometryPolyline.MaxOccurrences | src/hypermill_nctools_inventory_exporter/geometry_polyline.py:194 | the result is at least the count of every candidate value and equals the count of one of them |
| GeometryPolyline.MostCommonBounds | src/hypermill_nctools_inventory_exporter/geometry_polyline.py:192-195 | the most common count of a non-empty head is between 1 and its length, and no value of the head occurs more often |
| GeometryPolyline.ScoreBounds | src/hypermill_nctools_inventory_exporter/geometry_polyline.py:186-197 | every candidate's score lies strictly between 0 and 1.8 |
| GeometryPolyline.Score | src/hypermill_nctools_inventory_exporter/geometry_polyline.py:186-197 | the candidate score itself; no contract of its own: its range (above 0, below 1.8) is stated by ScoreBounds, and that a filtered candidate's records give its score by ParsedScore |
| GeometryPolyline.ViableParses | src/hypermill_nctools_inventory_exporter/geometry_polyline.py:168-184 | a candidate that passes the guesser's filter always parses with at least one record, so the `except` and empty-list branches never reject it |
| GeometryPolyline.GuessPolylineFormat | src/hypermill_nctools_inventory_exporter/geometry_polyline.py:156-203 | None exactly when no pair has 0 <= h < len(blob), r > 2 and (len(blob) - h) % r == 0; otherwise the pair comes from the candidates, passes the filter, no viable pair scores higher, and every viable pair tried earlier (header outer, record length inner) scores strictly lower |
| GeometryPolyline.ScanRecordLens | src/hypermill_nctools_inventory_exporter/geometry_polyline.py:172-201 | the inner loop over record lengths keeps the running best: still none exactly when nothing viable has been seen, otherwise the first strictly best candidate so far with its score |
| GeometryPolyline.ParsedScore | src/hypermill_nctools_inventory_exporter/geometry_polyline.py:178-197 | parsing a candidate that passes the filter succeeds with records, and their score is the candidate's score |
| GeometryPolyline.NoneSoFarNoneViable | src/hypermill_nctools_inventory_exporter/geometry_polyline.py:166-203 | when the scan ends with no best, no candidate pair passes the filter |
| RecordTypes.CountTags | src/hypermill_nctools_inventory_exporter/geometry_polyline.py:207-209 | the counting loop maps exactly the tags that occur, each to its number of occurrences, and remembers them in first-seen order |
| RecordTypes.Sort | src/hypermill_nctools_inventory_exporter/geometry_polyline.py:210 | sorting keeps the items (a permutation) |
| RecordTypes.SortOrdered | src/hypermill_nctools_inventory_exporter/geometry_polyline.py:210 | sorted items with distinct tags are ordered by count descending, then tag ascending, with the same total |
| RecordTypes.SummarizeRecordTypes | src/hypermill_nctools_inventory_exporter/geometry_polyline.py:206-210 | ordered by (-count, tag); every entry is a tag that occurs with its exact count; every tag that occurs has an entry; the counts sum to len(records) |
| RecordTypes.SortedItemsSound | src/hypermill_nctools_inventory_exporter/geometry_polyline.py:206-210 | every summary entry is an occurring tag with its exact count |
| RecordTypes.SortedItemsComplete | src/hypermill_nctools_inventory_exporter/geometry_polyline.py:206-210 | every occurring tag has a summary entry |
| RecordTypes.CountPositive | src/hypermill_nctools_inventory_exporter/geometry_polyline.py:209 | a tag has a positive count exactly when it occurs |
| Hexdump.HexdumpText | src/hypermill_nctools_inventory_exporter/geometry_polyline.py:213-226 | fails exactly when width is 0 (`range` step 0); otherwise it is the kept rows and, when bytes were dropped, the trailer, joined with newlines |
| Hexdump.CollectRows | src/hypermill_nctools_inventory_exporter/geometry_polyline.py:218-223 | the loop appends one row per offset of range(0, n, width), in order |
| Hexdump.KeptBytes | src/hypermill_nctools_inventory_exporter/geometry_polyline.py:217 | the kept bytes are all of data when it fits in max_bytes, else its first max_bytes |
| Hexdump.RowsCount | src/hypermill_nctools_inventory_exporter/geometry_polyline.py:219 | the number of rows c satisfies (c-1)*width < n <= c*width, i.e. ceil(n / width) rows |
| Hexdump.RowsEmpty | src/hypermill_nctools_inventory_exporter/geometry_polyline.py:219 | there are no rows exactly when no bytes are kept |
| Hexdump.RowAt | src/hypermill_nctools_inventory_exporter/geometry_polyline.py:219-223 | row k is the row for offset k*width, which lies inside the kept bytes |
| Hexdump.Chunk | src/hypermill_nctools_inventory_exporter/geometry_polyline.py:220 | a row holds at most width bytes, and at least one when it starts inside the data |
| Hexdump.ChunkIsSlice | src/hypermill_nctools_inventory_exporter/geometry_polyline.py:220 | the row's bytes are b[i:i+width] |
| Hexdump.HexBytes | src/hypermill_nctools_inventory_exporter/geometry_polyline.py:221 | one two-digit zero-padded hex field per byte |
| Hexdump.ByteHex | src/hypermill_nctools_inventory_exporter/geometry_polyline.py:221 | each byte is written in exactly two hex digits that read back as the byte |
| Hexdump.HexColumnLength | src/hypermill_nctools_inventory_exporter/geometry_polyline.py:221 | the hex column of k bytes is 3k - 1 characters, so it fits the 3*width field |
| Hexdump.Printable | src/hypermill_nctools_inventory_exporter/geometry_polyline.py:222 | bytes 32..126 show as themselves, every other byte as '.' |
| Hexdump.AsciiColumn | src/hypermill_nctools_inventory_exporter/geometry_polyline.py:222 | one printable character per byte, in order |
| Hexdump.OffsetField | src/hypermill_nctools_inventory_exporter/geometry_polyline.py:223 | the offset field has at least 8 hex digits, exactly 8 below 16^8, and reads back as the offset |
| Hexdump.RowLayout | src/hypermill_nctools_inventory_exporter/geometry_polyline.py:223 | a row is the offset field, two spaces, the hex column padded to 3*width, two spaces and the ASCII column, at these exact positions |
| Hexdump.Trailer | src/hypermill_nctools_inventory_exporter/geometry_polyline.py:224-225 | the "... (N bytes total)" line appears exactly when len(data) > max_bytes |
| PyBuiltins.PaddedReadsBack | src/hypermill_nctools_inventory_exporter/geometry_polyline.py:221-223 | a zero-padded hex or decimal number reads back as the number |
| PyBuiltins.DigitsWidth | src/hypermill_nctools_inventory_exporter/geometry_polyline.py:223 | a number below base^w is written in at most w digits |
| PointExtraction.ExtractPoints | scripts/inspect_polyline.py:136-159 | the loop with its two breaks returns exactly the reference `Extracted`: the selected points in record order, cut before the first sentinel when asked, then capped |
| PointExtraction.Visit | scripts/inspect_polyline.py:143-158 | one iteration: either the loop ends with the final result, or the state invariant holds for the next record |
| PointExtraction.SelectedPoints | scripts/inspect_polyline.py:143-151 | at most one point per record |
| PointExtraction.SelectedPointsCount | scripts/inspect_polyline.py:143-147 | one point per selected record and none for the others, so skipped records never count toward the limit |
| PointExtraction.SelectedPointsConcat | scripts/inspect_polyline.py:143-156 | selection works record by record: selecting from a concatenation selects from each part |
| PointExtraction.UntilOriginSpec | scripts/inspect_polyline.py:153-154 | the sentinel cut is the longest prefix with no point at the origin: a prefix, none of its points at the origin, and the next point (if any) at the origin |
| PointExtraction.ExtractedPrefix | scripts/inspect_polyline.py:143-158 | the output is a prefix of the sentinel-cut points, which are a prefix of the selected points; with a limit its length is min(kept, cap), without one it is all kept points |
| PointExtraction.ExtractedAvoidsOrigin | scripts/inspect_polyline.py:153-154 | with stop_at_zero, no output point has all three coordinates equal to 0.0 (either sign) |
| PointExtraction.ExtractedLimit | scripts/inspect_polyline.py:156-158 | with a limit m the output has at most m points when m >= 1, and at most 1 when m < 1 because the check follows the append |
| Ieee754.EqualPosZeroIffZero | scripts/inspect_polyline.py:153 | `x == 0.0` holds exactly for +0.0 and -0.0 |
| PointExtraction.UntilOriginKeeps | src/hypermill_nctools_inventory_exporter/nctool_plot.py:99-102 | points before the sentinel are kept, and the cut continues into what follows |
| PointExtraction.UntilOriginStops | src/hypermill_nctools_inventory_exporter/nctool_plot.py:99-100 | a sentinel right after kept points ends the output there |
| PointExtraction.BreakAtLimit | src/hypermill_nctools_inventory_exporter/nctool_plot.py:102-104 | reaching the limit right after an append ends the walk with the final result |
| PointExtraction.EndOfRecords | src/hypermill_nctools_inventory_exporter/nctool_plot.py:86-105 | a walk over every record with neither break taken has produced the final result |
| Profiles.MirrorProfile | scripts/inspect_polyline.py:221-228 | both lists of the mirrored profile have length 2n; position k of the first halves is point k's z and r; position k of the second halves is point 2n-1-k, z as is and r negated; the copy at src/hypermill_nctools_inventory_exporter/nctool_plot.py:76-83 is the same |
| Profiles.MirrorProfileSymmetric | scripts/inspect_polyline.py:221-228 | the mirrored z list is a palindrome and the mirrored r list is antisymmetric: position 2n-1-k holds -r[k] |
| Profiles.MirrorNegated | scripts/inspect_polyline.py:227 | `xs + [-v for v in xs[::-1]]` has length 2n, starts with xs, and holds -xs[2n-1-k] at position k of its second half |
| Profiles.MirrorSame | scripts/inspect_polyline.py:226 | `xs + xs[::-1]` has length 2n, starts with xs, and holds xs[2n-1-k] at position k of its second half |
| Profiles.BuildMirrorPolygon | scripts/inspect_polyline.py:273-279 | both polygon lists have length 2n |
| Profiles.BuildMirrorPolygonHalves | scripts/inspect_polyline.py:273-279 | point k of the polygon is the section's point k; point 2n-1-k is its mirror image (R negated, Z kept) |
| Profiles.ApplyRZMagnitudes | scripts/inspect_polyline.py:281-289 | the swap and flips only move and reflect the coordinates: the magnitudes of the new R and Z are those of x and y in some order, and without a swap each magnitude stays in place |
| Profiles.ApplyRZInverse | scripts/inspect_polyline.py:281-289 | the transform is undone by itself without a swap (an involution), and by the swap with the two flips exchanged otherwise |
| Profiles.ApplyRZ | scripts/inspect_polyline.py:281-289 | `apply_rz_transforms` itself; no contract of its own: ApplyRZMagnitudes states that it keeps the magnitudes of the two coordinates, ApplyRZInverse that it is undone by the same swap with the flips exchanged, and PolylineToSectionRZ applies it point by point |
| Ieee754.NegInvolutive | scripts/inspect_polyline.py:286-288 | negating a coordinate twice gives it back |
| Profiles.PolylineToSectionRZ | src/hypermill_nctools_inventory_exporter/nctool_plot.py:108-134 | both lists are as long as the input, and entry i is point i's (R = x, Z = y) after the swap and flips; z and the filtering options play no part |
| Profiles.ToolCylinderProfile | scripts/inspect_polyline.py:201-218 | four points forming a rectangle: it starts and ends on the axis, both long sides sit at radius dia/2 (0 for a negative diameter), and it runs from tip_z - length (tip_z for a negative length) to tip_z; the copy at src/hypermill_nctools_inventory_exporter/nctool_plot.py:62-73 is the same |
| Profiles.ToolOutlineMirrored | scripts/inspect_polyline.py:303-321 | the mirrored tool outline has eight points: the rectangle, then the same points backwards with r negated |
| Profiles.SafeMaxPos | src/hypermill_nctools_inventory_exporter/nctool_plot.py:25-36 | the result is at least 0; it is 0.0 exactly when no value is a positive number; otherwise it is one of the values and no positive value exceeds it |
| Profiles.MaxOf | src/hypermill_nctools_inventory_exporter/nctool_plot.py:36 | `max` of a non-empty list is one of its elements and no element exceeds it |
| Filenames.PlotFilenameValid | src/hypermill_nctools_inventory_exporter/nctool_plot.py:137-139 | each backslash becomes "__" and each of `<>:"/|?*` becomes "_"; the result has none of these characters and is longer by the number of backslashes |
| Filenames.PlotFilenameCharwise | src/hypermill_nctools_inventory_exporter/nctool_plot.py:138-139 | replacing backslashes first and then rewriting is the same as rewriting each character on its own |
| Filenames.PlotFilename | src/hypermill_nctools_inventory_exporter/nctool_plot.py:137-139 | `sanitize_filename` of the plotter itself; no contract of its own: what it leaves and how long it gets are stated by PlotFilenameValid, and its equality with a character-wise rewrite by PlotFilenameCharwise |
| Filenames.CharwiseShape | src/hypermill_nctools_inventory_exporter/nctool_plot.py:139 | the character-wise rewrite grows the text by one per backslash and leaves no rewritten character |
| PyBuiltins.ReplaceLength | src/hypermill_nctools_inventory_exporter/nctool_plot.py:138 | `replace` of one character by w characters changes the length by (w - 1) per occurrence |
| MirrorFill.F64BeXY | scripts/plot_mirror_fill_min.py:73-77 | fails exactly when the payload is shorter than 16 bytes; otherwise x is payload[0:8] and y is payload[8:16], read big-endian |
| MirrorFill.IterRecords | scripts/plot_mirror_fill_min.py:80-92 | the while loop over `off` and `idx` returns exactly the reference walk, errors included, for every header and record length (negative ones too) |
| MirrorFill.WalkingStep | scripts/plot_mirror_fill_min.py:86-92 | a loop step keeps the walk invariant; with record_len <= 0 a step can only happen from a start at or after 0 that ends before 0 |
| MirrorFill.IteratedRecords | scripts/plot_mirror_fill_min.py:84-92 | for record_len >= 2 and a header inside the blob the walk succeeds with floor((len - header_len) / record_len) whole records, ignoring a trailing partial record |
| MirrorFill.WholeCount | scripts/plot_mirror_fill_min.py:86-92 | there are floor((len(blob) - off) / record_len) whole records from offset off |
| MirrorFill.WholeAt | scripts/plot_mirror_fill_min.py:87-91 | record k has idx k, the u16 little-endian tag of its first two bytes, and the rest of its bytes as payload |
| MirrorFill.WalkIsWhole | scripts/plot_mirror_fill_min.py:86-92 | from a non-negative offset with records of two bytes or more the walk never raises |
| MirrorFill.WalkOfOne | scripts/plot_mirror_fill_min.py:86-88 | a record length of 1 raises `struct.error` as soon as one step is taken |
| MirrorFill.IteratedNumbered | scripts/plot_mirror_fill_min.py:85-91 | whatever the lengths, the yielded records are numbered 0, 1, 2, ... |
| MirrorFill.ExtractPointsXY | scripts/plot_mirror_fill_min.py:95-102 | the walk's error, or the points of the records of the target type read by `f64_be_xy` |
| MirrorFill.TypedPoints | scripts/plot_mirror_fill_min.py:96-102 | at most one point per record |
| MirrorFill.TypedPointsSucceeds | scripts/plot_mirror_fill_min.py:97-100 | reading succeeds exactly when every record of the target type has at least 16 payload bytes |
| MirrorFill.TypedPointsFailurePersists | scripts/plot_mirror_fill_min.py:97-100 | a failure on a prefix of the records is the failure of the whole read |
| MirrorFill.TypedPointsSound | scripts/plot_mirror_fill_min.py:98-101 | every point comes from a record of the target type: its idx, and x and y from the payload's first 16 bytes |
| MirrorFill.TypedPointsComplete | scripts/plot_mirror_fill_min.py:98-101 | every record of the target type gives a point |
| MirrorFill.TypedPointsIncreasing | scripts/plot_mirror_fill_min.py:95-102 | the points' idx values strictly increase and stay below the number of records |
| MirrorFill.Right | scripts/plot_mirror_fill_min.py:116 | one (x, y) per point, in order |
| MirrorFill.Left | scripts/plot_mirror_fill_min.py:119 | the points in reverse order with x negated |
| MirrorFill.Mirrored | scripts/plot_mirror_fill_min.py:121 | right + left has 2n points |
| MirrorFill.MirroredHalves | scripts/plot_mirror_fill_min.py:116-121 | the first half is the points as they are; position k of the second half is point 2n-1-k with x negated |
| MirrorFill.MirrorAndCloseShape | scripts/plot_mirror_fill_min.py:108-127 | [] for fewer than 2 points; otherwise right + left, plus a copy of the first point exactly when x0 is not a zero (so length 2n or 2n+1) |
| MirrorFill.MirrorAndClose | scripts/plot_mirror_fill_min.py:108-127 | `mirror_and_close_polygon` itself; no contract of its own: its shape (empty below two points, the 2n mirrored points, the closing copy of the first point exactly when x0 is not a zero) is stated by MirrorAndCloseShape |
| Ieee754.EqualNegIffZero | scripts/plot_mirror_fill_min.py:124 | `x == -x` holds exactly for +0.0 and -0.0, so the closing test fails only for a zero x0 |
| SheetNames.SanitizeSheetName | src/hypermill_nctools_inventory_exporter/export.py:29-40 | the replacement loop, the strips and the cut return the reference sanitised name |
| SheetNames.SheetNameValid | src/hypermill_nctools_inventory_exporter/export.py:36-40 | the result is 1 to 31 characters long with none of `[]:*?/\`; it is "Sheet" when stripping leaves nothing, else the first 31 characters of the stripped name, not starting with an apostrophe |
| SheetNames.StrippedClean | src/hypermill_nctools_inventory_exporter/export.py:36-39 | the stripped name has no forbidden character and does not start with an apostrophe |
| CharReplace.ReplacedClean | src/hypermill_nctools_inventory_exporter/export.py:36-38 | after the replacement loop none of the replaced characters is left |
| CharReplace.ReplacedAllPointwise | apps/gui.py:64-66 | the replacement loop turns exactly the listed characters into '_' and keeps every other character in place |
| SheetNames.SheetNameCanEndInApostrophe | src/hypermill_nctools_inventory_exporter/export.py:39-40 | as written: a clean name longer than 31 characters with an apostrophe at position 31 comes out ending in that apostrophe |
| SheetNames.SheetNameTrimmedValid | src/hypermill_nctools_inventory_exporter/export.py:39-40 | corrected: with an apostrophe strip after the cut the result is still 1 to 31 clean characters, a prefix of the original result, and neither starts nor ends with an apostrophe |
| SheetNames.Suffix | src/hypermill_nctools_inventory_exporter/export.py:54 | `f"_{i:02d}"` is '_' and two digits below 100, '_' and three digits from 100 to 999 |
| SheetNames.Candidate | src/hypermill_nctools_inventory_exporter/export.py:55-56 | every candidate fits in 31 characters |
| SheetNames.CandidateReadsBack | src/hypermill_nctools_inventory_exporter/export.py:54-56 | the number can be read back from the candidate's last characters |
| SheetNames.CandidatesDistinct | src/hypermill_nctools_inventory_exporter/export.py:53-56 | different numbers give different candidates, whatever the base |
| SheetNames.SheetNameSet.Dedupe | src/hypermill_nctools_inventory_exporter/export.py:43-61 | returns the reference result, adds it to `used` on success and changes nothing else |
| SheetNames.DedupedSpec | src/hypermill_nctools_inventory_exporter/export.py:48-61 | an unused name comes back unchanged; a result was never in `used`; otherwise it is the candidate with the smallest free number, at most 31 characters; it fails exactly when the name and all 999 candidates are taken |
| SheetNames.FirstNotInSpec | src/hypermill_nctools_inventory_exporter/export.py:53-59 | the search finds nothing exactly when every number's name is used; otherwise it finds the smallest free number |
| SheetNames.ExhaustedNeedsManyNames | src/hypermill_nctools_inventory_exporter/export.py:53-61 | the de-duplicator raises only when `used` holds at least 999 names |
| SheetNames.DetectReachColumn | src/hypermill_nctools_inventory_exporter/export.py:64-91 | the first priority candidate that is a column; the error, carrying the column names, exactly when none is |
| Folders.FetchFolders | src/hypermill_nctools_inventory_exporter/folders.py:26-43 | the grouping loop builds the reference node table and child lists |
| Folders.NodesKeyedById | src/hypermill_nctools_inventory_exporter/folders.py:40 | the node table has exactly the row ids as keys, each with the last row carrying that id |
| Folders.ChildrenInRowOrder | src/hypermill_nctools_inventory_exporter/folders.py:41 | each parent's child list is the ids of the rows naming that parent, in row order |
| Folders.ChildKeys | src/hypermill_nctools_inventory_exporter/folders.py:41 | a parent has a child list exactly when some row names it |
| Folders.PathCollector.Walk | src/hypermill_nctools_inventory_exporter/folders.py:61-75 | appends the subtree's records to `records`, or reports the error that stops the walk |
| Folders.PathCollector.WalkEach | src/hypermill_nctools_inventory_exporter/folders.py:74-75 | appends the children's subtrees one after another, stopping at the first error |
| Folders.CollectSubtreePaths | src/hypermill_nctools_inventory_exporter/folders.py:53-79 | the records left in the shared list are those of the reference walk of the root's children |
| Folders.CollectedOnePerVisit | src/hypermill_nctools_inventory_exporter/folders.py:53-79 | one record per node visited below the root (the root excluded), in preorder, each with that node's name |
| Folders.SubtreeOnePerVisit | src/hypermill_nctools_inventory_exporter/folders.py:61-75 | record k of a walk describes the k-th node it visits in preorder |
| Folders.SubtreeHead | src/hypermill_nctools_inventory_exporter/folders.py:62-73 | a walk's first record is its node's: the path joins the stack and the node's name with sep, the depth is one more than the stack's |
| Folders.SubtreeBelow | src/hypermill_nctools_inventory_exporter/folders.py:61-75 | every record of a walk is deeper than the stack, and its path extends the stack's path and a separator |
| Folders.CollectedDepths | src/hypermill_nctools_inventory_exporter/folders.py:63-69 | every record has depth at least 1 |
| Folders.ChildAfterParent | src/hypermill_nctools_inventory_exporter/folders.py:63-75 | each child's record comes after its parent's, one level deeper, with path = parent path + sep + child name |
| Folders.ChildrenInListOrder | src/hypermill_nctools_inventory_exporter/folders.py:74-75 | the records of a later child start strictly after those of an earlier one |
| Folders.MissingChildFails | src/hypermill_nctools_inventory_exporter/folders.py:62 | a child id missing from the node table makes the walk fail (KeyError), unless the recursion limit is hit first |
| Folders.SubtreeMoreFuel | src/hypermill_nctools_inventory_exporter/folders.py:61-75 | a larger recursion budget does not change a walk that already succeeds |
| Filenames.SanitizeFilename | apps/gui.py:63-68 | the loop and trims return the reference sanitised name |
| Filenames.FilenameValid | apps/gui.py:63-68 | the result is non-empty, has none of `<>:"/\|?*`, is "output" when trimming leaves nothing, and otherwise neither starts nor ends with whitespace |
| Filenames.FilenameReplacesInPlace | apps/gui.py:64-66 | before trimming, each invalid character becomes exactly one '_' and every other character stays in place |
| Filenames.FilenameIsPiece | apps/gui.py:67 | the trimmed name is a contiguous piece of the replaced name |
| Filenames.FilenameCanEndInDot | apps/gui.py:67 | as written: a clean stem followed by '.' and a whitespace character other than ' ' comes out ending in '.' |
| Filenames.FilenameCorrectedValid | apps/gui.py:67-68 | corrected: with whitespace also in the end trim, the result keeps every guarantee above and never ends in '.' or ' ' |

## Left out

- Database access is left out. This covers reading the blob and tool rows
  from SQLite, the `Folders` query, `get_nctools_folder_paths`,
  `_find_root_folder_id`, `resolve_folder_id_by_nctools_path` (a recursive
  SQL query), the `PRAGMA` call and the pandas/openpyxl report writers. The
  models take the rows, column names and blobs they would return as
  parameters.
- Plotting, argument parsing, file saving and the tkinter GUI with its
  worker thread are I/O and concurrency, and are left out.
- `_uuid_from_blob` and `_fmt_preview` depend on `uuid` and on float
  formatting. A folder row's GUID is taken as already-rendered text.
- Float values are kept as their bit patterns rather than decoded to
  numbers, so nothing depends on their numeric value. The exception is the
  guesser's score, which uses exact rationals, so ties that binary64
  rounding would break are not modelled. Tool dimensions are reals, with no
  `float()` conversion.
- The `int()`/`str()` conversions of the folder rows are left out. Rows
  arrive already converted.
- Folders.CollectSubtreePaths: Python's recursion limit is a `fuel` budget.
  The walk fails with `TooDeep` when the budget is exhausted, and the exact
  depth at which CPython raises is not modelled.
- The duplicated helpers are modelled once each:
  - `mirror_profile` appears three times: scripts/inspect_polyline.py:221,
    the `mirror_profile_zr` nested in `cmd_plot`, and nctool_plot.py:76.
  - `tool_cylinder_profile` appears in both files, plus
    `tool_cylinder_profile_zr`.
  - The extractor appears in both files. The nctool_plot version also skips a
    record with no `f64_be` at all; in the model every record has the view,
    and an empty view is already skipped by the length test.
- `_safe_max_pos` in scripts/inspect_polyline.py:173-175 keeps only `int`
  and `float` values rather than whatever `float()` accepts. Both versions
  are the same `SafeMaxPos` once a value is either a number or not.
- The guesser's candidates are finite sequences (DefaultHeaderLens,
  DefaultRecordLens) rather than arbitrary iterables.
- Hexdump.HexdumpText: `width == 0` raises `ValueError` from `range`, and
  the model keeps that error. A negative width gives no rows.

## Findings

| source | as written | input that shows it | evidently intended | confidence | as-written member | corrected member |
|---|---|---|---|---|---|---|
| src/hypermill_nctools_inventory_exporter/export.py:39-40 | strips apostrophes, then cuts to 31 characters, so the cut can leave a trailing apostrophe | a name of 30 letters followed by `'b` gives the 30 letters and `'` | the docstring asks that the name neither start nor end with `'` | medium, not executed | SheetNames.SheetNameCanEndInApostrophe | SheetNames.SheetNameTrimmedValid |
| apps/gui.py:67 | `rstrip(". ")` runs before `strip()`, so a trailing dot hidden behind a tab or newline survives | `"report.\t"` gives `"report."` | trailing dots and spaces, which Windows drops from file names, are removed | medium, not executed | Filenames.FilenameCanEndInDot | Filenames.FilenameCorrectedValid |
