/**
 * The polyline blob decoder: a blob is `header ++ record_0 ++ record_1 ++ ...`
 * where every record has the same length and starts with a little-endian u16
 * type tag; the rest of a record is its payload, read four ways at once
 * (binary64 little- and big-endian, binary32 little-endian, two's-complement
 * int32 little-endian) because the format is undocumented.
 */
module GeometryPolyline {
  import opened Wrappers
  import opened Bytes
  import opened Ieee754
  import opened PyBuiltins
  import opened Arith
  import opened Seqs

  /** An unsigned 16-bit value, as `struct` format `H` yields. */
  type U16 = x: int | 0 <= x < 0x1_0000

  datatype PolylineFormat = PolylineFormat(headerLen: int, recordLen: int)

  datatype PolylineRecord = PolylineRecord(
    index: nat,
    offset: nat,
    recType: U16,
    payload: seq<Byte>,
    f64Le: seq<F64>,
    f64Be: seq<F64>,
    f32Le: seq<F32>,
    i32Le: seq<int>)

  /** The exceptions `parse_polyline` raises. */
  datatype ParseError =
    | InvalidFormat          // header_len < 0 or record_len <= 0
    | BlobShorterThanHeader  // len(blob) < header_len
    | BodyNotDivisible       // the body is not a whole number of records
    | TruncatedTypeTag       // struct.error in _u16_le: a record shorter than 2 bytes

  /** What `parse_polyline` returns: the header bytes and the records. */
  datatype Decoded = Decoded(header: seq<Byte>, records: seq<PolylineRecord>)

  // ------------------------------------------------------------ fixed-width decoders

  /** `_u16_le(b)`: the little-endian u16 in the first two bytes; `struct.error` when there are fewer. */
  function U16Le(b: seq<Byte>): (r: Result<U16, ParseError>)
    ensures r.Success? <==> |b| >= 2
    ensures r.Success? ==> EncodeUIntLe(r.value, 2) == b[..2]
  {
    if |b| < 2 then Failure(TruncatedTypeTag)
    else
      EncodeDecodeUIntLe(b[..2]);
      Success(UIntLe(b[..2]))
  }

  /** The `i` format code of `struct` with `<`: little-endian two's complement. */
  function I32Le(chunk: seq<Byte>): (v: int)
    requires |chunk| == 4
    ensures -0x8000_0000 <= v < 0x8000_0000
    ensures EncodeI32Le(v) == chunk
  {
    EncodeDecodeUIntLe(chunk);
    var u := UIntLe(chunk);
    if u >= 0x8000_0000 then u - 0x1_0000_0000 else u
  }

  /** The 4-byte little-endian two's-complement encoding of `v`. */
  function EncodeI32Le(v: int): (s: seq<Byte>)
    requires -0x8000_0000 <= v < 0x8000_0000
    ensures |s| == 4
  {
    EncodeUIntLe(if v < 0 then v + 0x1_0000_0000 else v, 4)
  }

  /** Every int32 survives encoding and decoding. */
  lemma I32LeRoundTrip(v: int)
    requires -0x8000_0000 <= v < 0x8000_0000
    ensures I32Le(EncodeI32Le(v)) == v
  {
    DecodeEncodeUIntLe(if v < 0 then v + 0x1_0000_0000 else v, 4);
  }

  /** `_try_unpack_f64(payload, '<' or '>')`: one binary64 per whole 8 bytes, read from offset 0. */
  function UnpackF64(payload: seq<Byte>, bigEndian: bool): (vs: seq<F64>)
    ensures 8 * |vs| <= |payload| < 8 * |vs| + 8
  {
    Unpack8(payload, if bigEndian then FromBigEndian else FromLittleEndian)
  }

  /** One value per whole 8 bytes, each read by `decode`. */
  function Unpack8<T>(payload: seq<Byte>, decode: Octets8 -> T): (vs: seq<T>)
    ensures 8 * |vs| <= |payload| < 8 * |vs| + 8
  {
    if |payload| < 8 then [] else [decode(payload[..8])] + Unpack8(payload[8..], decode)
  }

  /** `_try_unpack_f32_le(payload)`: one binary32 per whole 4 bytes. */
  function UnpackF32Le(payload: seq<Byte>): (vs: seq<F32>)
    ensures 4 * |vs| <= |payload| < 4 * |vs| + 4
  {
    Unpack4(payload, FromLittleEndian32)
  }

  /** One value per whole 4 bytes, each read by `decode`. */
  function Unpack4<T>(payload: seq<Byte>, decode: Octets4 -> T): (vs: seq<T>)
    ensures 4 * |vs| <= |payload| < 4 * |vs| + 4
  {
    if |payload| < 4 then [] else [decode(payload[..4])] + Unpack4(payload[4..], decode)
  }

  /** `_try_unpack_i32_le(payload)`: one int32 per whole 4 bytes. */
  function UnpackI32Le(payload: seq<Byte>): (vs: seq<int>)
    ensures 4 * |vs| <= |payload| < 4 * |vs| + 4
  {
    if |payload| < 4 then [] else [I32Le(payload[..4])] + UnpackI32Le(payload[4..])
  }

  /** Value `j` of the binary64 views is read from bytes `8 * j` to `8 * j + 8`. */
  lemma UnpackF64At(payload: seq<Byte>, bigEndian: bool, j: nat)
    requires 8 * j + 8 <= |payload|
    ensures var chunk := payload[8 * j..8 * j + 8];
      UnpackF64(payload, bigEndian)[j] == if bigEndian then FromBigEndian(chunk) else FromLittleEndian(chunk)
  {
    Unpack8At(payload, if bigEndian then FromBigEndian else FromLittleEndian, j);
  }

  lemma {:induction false} Unpack8At<T>(payload: seq<Byte>, decode: Octets8 -> T, j: nat)
    requires 8 * j + 8 <= |payload|
    ensures Unpack8(payload, decode)[j] == decode(payload[8 * j..8 * j + 8])
  {
    if j > 0 {
      var rest := payload[8..];
      Unpack8At(rest, decode, j - 1);
      assert rest[8 * (j - 1)..8 * (j - 1) + 8] == payload[8 * j..8 * j + 8];
    }
  }

  /** Value `j` of the int32 view is read from bytes `4 * j` to `4 * j + 4`. */
  lemma {:induction false} UnpackI32LeAt(payload: seq<Byte>, j: nat)
    requires 4 * j + 4 <= |payload|
    ensures UnpackI32Le(payload)[j] == I32Le(payload[4 * j..4 * j + 4])
  {
    if j > 0 {
      var rest := payload[4..];
      assert UnpackI32Le(payload) == [I32Le(payload[..4])] + UnpackI32Le(rest);
      UnpackI32LeAt(rest, j - 1);
      assert rest[4 * (j - 1)..4 * (j - 1) + 4] == payload[4 * j..4 * j + 4];
    } else {
      assert |payload| >= 4;
    }
  }

  /** Value `j` of the binary32 view is read little-endian from bytes `4 * j` to `4 * j + 4`. */
  lemma UnpackF32LeAt(payload: seq<Byte>, j: nat)
    requires 4 * j + 4 <= |payload|
    ensures UnpackF32Le(payload)[j] == FromLittleEndian32(payload[4 * j..4 * j + 4])
  {
    Unpack4At(payload, FromLittleEndian32, j);
  }

  lemma {:induction false} Unpack4At<T>(payload: seq<Byte>, decode: Octets4 -> T, j: nat)
    requires 4 * j + 4 <= |payload|
    ensures Unpack4(payload, decode)[j] == decode(payload[4 * j..4 * j + 4])
  {
    if j > 0 {
      var rest := payload[4..];
      Unpack4At(rest, decode, j - 1);
      assert rest[4 * (j - 1)..4 * (j - 1) + 4] == payload[4 * j..4 * j + 4];
    }
  }

  // ------------------------------------------------------------ records

  /** One record from its chunk: `_u16_le(chunk[:2])`, `chunk[2:]`, and the four views of the payload. */
  function DecodeRecord(index: nat, offset: nat, chunk: seq<Byte>): (r: Result<PolylineRecord, ParseError>)
    ensures r.Success? <==> |chunk| >= 2
    ensures r.Success? ==> r.value.index == index && r.value.offset == offset
    ensures r.Success? ==> chunk == EncodeUIntLe(r.value.recType, 2) + r.value.payload
  {
    match U16Le(Prefix(chunk, 2))
    case Failure(e) => Failure(e)
    case Success(tag) =>
      var payload := chunk[2..];
      assert chunk == chunk[..2] + payload;
      Success(PolylineRecord(index, offset, tag, payload,
        UnpackF64(payload, false), UnpackF64(payload, true), UnpackF32Le(payload), UnpackI32Le(payload)))
  }

  /** Record `i` lies inside a body made of whole records. */
  lemma RecordInBody(bodyLen: nat, r: nat, i: nat)
    requires r > 0 && bodyLen % r == 0 && i < bodyLen / r
    ensures i * r + r <= bodyLen
  {
    var n := bodyLen / r;
    assert bodyLen == n * r;
    assert i + 1 <= n;
    assert (i + 1) * r <= n * r;
  }

  /** The `i`-th record of a blob laid out as `h` header bytes and `r`-byte records. */
  function RecordAt(blob: seq<Byte>, h: nat, r: nat, i: nat): PolylineRecord
    requires r >= 2 && h + i * r + r <= |blob|
  {
    var off := h + i * r;
    DecodeRecord(i, off, blob[off..off + r]).value
  }

  // ------------------------------------------------------------ parse_polyline

  /** The structural checks of `parse_polyline` that do not depend on the record contents. */
  predicate LayoutAccepted(blobLen: nat, fmt: PolylineFormat) {
    && fmt.headerLen >= 0
    && fmt.recordLen > 0
    && blobLen >= fmt.headerLen
    && (blobLen - fmt.headerLen) % fmt.recordLen == 0
  }

  /** What `parse_polyline(blob, fmt)` returns or raises. */
  function Parse(blob: seq<Byte>, fmt: PolylineFormat): Result<Decoded, ParseError>
  {
    if fmt.headerLen < 0 || fmt.recordLen <= 0 then Failure(InvalidFormat)
    else if |blob| < fmt.headerLen then Failure(BlobShorterThanHeader)
    else if (|blob| - fmt.headerLen) % fmt.recordLen != 0 then Failure(BodyNotDivisible)
    else
      var h, r := fmt.headerLen, fmt.recordLen;
      var n := (|blob| - h) / r;
      if n > 0 && r < 2 then Failure(TruncatedTypeTag)
      else Success(Decoded(blob[..h], Records(blob, h, r)))
  }

  /** All records of a blob whose body is a whole number of `r`-byte records. */
  function Records(blob: seq<Byte>, h: nat, r: nat): (rs: seq<PolylineRecord>)
    requires 0 < r && h <= |blob| && (|blob| - h) % r == 0
    requires r < 2 ==> |blob| == h
  {
    if r < 2 then [] else RecordsUpTo(blob, h, r, (|blob| - h) / r)
  }

  /** The first `k` records. */
  function RecordsUpTo(blob: seq<Byte>, h: nat, r: nat, k: nat): (rs: seq<PolylineRecord>)
    requires 2 <= r && h <= |blob| && (|blob| - h) % r == 0 && k <= (|blob| - h) / r
    ensures |rs| == k
  {
    if k == 0 then []
    else
      RecordInBody(|blob| - h, r, k - 1);
      RecordsUpTo(blob, h, r, k - 1) + [RecordAt(blob, h, r, k - 1)]
  }

  lemma {:induction false} RecordsUpToIndex(blob: seq<Byte>, h: nat, r: nat, k: nat, i: nat)
    requires 2 <= r && h <= |blob| && (|blob| - h) % r == 0 && i < k <= (|blob| - h) / r
    ensures h + i * r + r <= |blob|
    ensures RecordsUpTo(blob, h, r, k)[i] == RecordAt(blob, h, r, i)
  {
    RecordInBody(|blob| - h, r, i);
    if i < k - 1 {
      RecordsUpToIndex(blob, h, r, k - 1, i);
    }
  }

  /** Record `i` of `Records` is the chunk at offset `h + i * r` decoded. */
  lemma RecordsIndex(blob: seq<Byte>, h: nat, r: nat, i: nat)
    requires 2 <= r && h <= |blob| && (|blob| - h) % r == 0 && i < (|blob| - h) / r
    ensures h + i * r + r <= |blob|
    ensures |Records(blob, h, r)| == (|blob| - h) / r
    ensures Records(blob, h, r)[i] == DecodeRecord(i, h + i * r, blob[h + i * r..h + i * r + r]).value
    ensures Records(blob, h, r)[i].index == i && Records(blob, h, r)[i].offset == h + i * r
  {
    RecordsUpToIndex(blob, h, r, (|blob| - h) / r, i);
    var off := h + i * r;
    var chunk := blob[off..off + r];
    assert |chunk| == r;
  }

  /** Record `i` of `Records`, written back, is the `i`-th `r`-byte window of the body. */
  lemma RecordBytes(blob: seq<Byte>, h: nat, r: nat, i: nat)
    requires 2 <= r && h <= |blob| && (|blob| - h) % r == 0 && i < (|blob| - h) / r
    ensures h + i * r + r <= |blob|
    ensures EncodeRecord(Records(blob, h, r)[i]) == blob[h + i * r..h + i * r + r]
  {
    RecordsIndex(blob, h, r, i);
  }

  /** When the layout is accepted and no record is too short for its tag, `Parse` succeeds with `Records`. */
  lemma ParseAccepted(blob: seq<Byte>, fmt: PolylineFormat)
    requires LayoutAccepted(|blob|, fmt)
    requires fmt.recordLen >= 2 || |blob| == fmt.headerLen
    ensures Parse(blob, fmt) == Success(Decoded(blob[..fmt.headerLen], Records(blob, fmt.headerLen, fmt.recordLen)))
  {
  }

  /**
   * `parse_polyline`: checks the layout, then appends one record per
   * `record_len`-byte window of the body.
   */
  method ParsePolyline(blob: seq<Byte>, fmt: PolylineFormat) returns (res: Result<Decoded, ParseError>)
    ensures res == Parse(blob, fmt)
  {
    if fmt.headerLen < 0 || fmt.recordLen <= 0 {
      return Failure(InvalidFormat);
    }
    if |blob| < fmt.headerLen {
      return Failure(BlobShorterThanHeader);
    }
    var h, r := fmt.headerLen, fmt.recordLen;
    var body := blob[h..];
    if |body| % r != 0 {
      return Failure(BodyNotDivisible);
    }
    var recs: seq<PolylineRecord> := [];
    var nrec := |body| / r;
    for i := 0 to nrec
      invariant |recs| == i
      invariant i > 0 ==> r >= 2 && recs == RecordsUpTo(blob, h, r, i)
    {
      RecordInBody(|body|, r, i);
      var off := h + i * r;
      var rec := DecodeRecord(i, off, blob[off..off + r]);
      if rec.Failure? {
        return Failure(rec.error);
      }
      assert rec.value == RecordAt(blob, h, r, i);
      assert RecordsUpTo(blob, h, r, i + 1) == RecordsUpTo(blob, h, r, i) + [rec.value];
      recs := recs + [rec.value];
    }
    ParseAccepted(blob, fmt);
    return Success(Decoded(blob[..h], recs));
  }

  // ------------------------------------------------------------ properties of parse_polyline

  /**
   * `parse_polyline` raises exactly when the layout is rejected or when
   * `record_len == 1` leaves a record too short for its two-byte type tag.
   */
  lemma ParseFailsExactly(blob: seq<Byte>, fmt: PolylineFormat)
    ensures Parse(blob, fmt).Failure? <==>
      !LayoutAccepted(|blob|, fmt) || (fmt.recordLen == 1 && |blob| > fmt.headerLen)
  {
  }

  /**
   * On success the header is the first `header_len` bytes, there are
   * `len(body) / record_len` records, and record `i` sits at offset
   * `header_len + i * record_len` where its bytes are its tag followed by its payload.
   */
  lemma ParseLayout(blob: seq<Byte>, fmt: PolylineFormat, i: nat)
    requires Parse(blob, fmt).Success?
    requires i < |Parse(blob, fmt).value.records|
    ensures var d := Parse(blob, fmt).value; var h, r := fmt.headerLen, fmt.recordLen;
      && d.header == blob[..h]
      && |d.records| == (|blob| - h) / r
      && var rec := d.records[i];
      && rec.index == i && rec.offset == h + i * r && rec.offset + r <= |blob|
      && |rec.payload| == r - 2
      && blob[rec.offset..rec.offset + r] == EncodeUIntLe(rec.recType, 2) + rec.payload
  {
    RecordsIndex(blob, fmt.headerLen, fmt.recordLen, i);
  }

  /** The bytes of a record: its tag, little-endian, then its payload. */
  function EncodeRecord(rec: PolylineRecord): (s: seq<Byte>)
    ensures |s| == 2 + |rec.payload|
  {
    EncodeUIntLe(rec.recType, 2) + rec.payload
  }

  /** The body that a sequence of records occupies. */
  function EncodeRecords(recs: seq<PolylineRecord>): seq<Byte>
  {
    Concat(EncodedRecords(recs))
  }

  function EncodedRecords(recs: seq<PolylineRecord>): (chunks: seq<seq<Byte>>)
    ensures |chunks| == |recs| && forall i :: 0 <= i < |recs| ==> chunks[i] == EncodeRecord(recs[i])
  {
    if recs == [] then [] else [EncodeRecord(recs[0])] + EncodedRecords(recs[1..])
  }

  /** Chunks that are the successive `r`-byte windows of the body tile it from window `k` on. */
  lemma {:induction false} WindowsTileFrom(blob: seq<Byte>, h: nat, r: nat, chunks: seq<seq<Byte>>, k: nat)
    requires h + |chunks| * r == |blob| && k <= |chunks|
    requires forall i :: 0 <= i < |chunks| ==> h + i * r + r <= |blob| && chunks[i] == blob[h + i * r..h + i * r + r]
    ensures h + k * r <= |blob|
    ensures Tiles(blob[h + k * r..], r, chunks[k..])
    decreases |chunks| - k
  {
    if k == |chunks| {
    } else {
      WindowsTileFrom(blob, h, r, chunks, k + 1);
      MulSucc(k, r);
      var lo, hi := h + k * r, h + (k + 1) * r;
      assert chunks[k] == blob[lo..hi];
      TilesCons(blob, lo, hi, r, chunks, k);
    }
  }

  /** The records `Records` decodes tile the body they came from. */
  lemma RecordsTile(blob: seq<Byte>, h: nat, r: nat)
    requires 2 <= r && h <= |blob| && (|blob| - h) % r == 0
    ensures Tiles(blob[h..], r, EncodedRecords(Records(blob, h, r)))
  {
    var n := (|blob| - h) / r;
    var chunks := EncodedRecords(Records(blob, h, r));
    forall i | 0 <= i < n
      ensures h + i * r + r <= |blob| && chunks[i] == blob[h + i * r..h + i * r + r]
    {
      RecordBytes(blob, h, r, i);
    }
    assert |blob| - h == n * r;
    WindowsTileFrom(blob, h, r, chunks, 0);
    assert chunks[0..] == chunks;
  }

  /** Round trip: the header followed by the records' bytes is the blob that was parsed. */
  lemma ParseReassembles(blob: seq<Byte>, fmt: PolylineFormat)
    requires Parse(blob, fmt).Success?
    ensures Parse(blob, fmt).value.header + EncodeRecords(Parse(blob, fmt).value.records) == blob
  {
    var h, r := fmt.headerLen, fmt.recordLen;
    if r >= 2 {
      RecordsTile(blob, h, r);
      TilesConcat(blob[h..], r, EncodedRecords(Records(blob, h, r)));
    }
    assert blob == blob[..h] + blob[h..];
  }

  /** Every record has the same length `r`: a tag and `r - 2` payload bytes. */
  predicate UniformRecords(recs: seq<PolylineRecord>, r: nat) {
    forall k :: 0 <= k < |recs| ==> |recs[k].payload| == r - 2
  }

  /** A tag and payload can be read back from the record's bytes. */
  lemma EncodeRecordInjective(a: PolylineRecord, b: PolylineRecord)
    requires EncodeRecord(a) == EncodeRecord(b)
    ensures a.recType == b.recType && a.payload == b.payload
  {
    var ea, eb := EncodeRecord(a), EncodeRecord(b);
    assert ea[..2] == EncodeUIntLe(a.recType, 2) && eb[..2] == EncodeUIntLe(b.recType, 2);
    DecodeEncodeUIntLe(a.recType, 2);
    DecodeEncodeUIntLe(b.recType, 2);
    assert ea[2..] == a.payload && eb[2..] == b.payload;
  }

  /**
   * Round trip the other way: records of one length `r >= 2` written after a
   * header parse back with their tags and payloads, at their offsets.
   */
  lemma ParseOfEncoded(header: seq<Byte>, recs: seq<PolylineRecord>, r: nat)
    requires 2 <= r && UniformRecords(recs, r)
    ensures var res := Parse(header + EncodeRecords(recs), PolylineFormat(|header|, r));
      && res.Success?
      && res.value.header == header
      && |res.value.records| == |recs|
      && forall i :: 0 <= i < |recs| ==>
           && res.value.records[i].recType == recs[i].recType
           && res.value.records[i].payload == recs[i].payload
           && res.value.records[i].offset == |header| + i * r
  {
    var body := EncodeRecords(recs);
    var blob := header + body;
    var h, n := |header|, |recs|;
    ConcatTiles(EncodedRecords(recs), r);
    MulDivExact(n, r);
    assert blob[h..] == body && blob[..h] == header;
    ParseAccepted(blob, PolylineFormat(h, r));
    forall i | 0 <= i < n
      ensures Records(blob, h, r)[i].recType == recs[i].recType
      ensures Records(blob, h, r)[i].payload == recs[i].payload
      ensures Records(blob, h, r)[i].offset == h + i * r
    {
      SameRecord(blob, h, r, recs, i);
    }
  }

  /** When `recs` tile the body, record `i` that `Records` decodes has `recs[i]`'s tag and payload. */
  lemma SameRecord(blob: seq<Byte>, h: nat, r: nat, recs: seq<PolylineRecord>, i: nat)
    requires 2 <= r && h <= |blob| && (|blob| - h) % r == 0
    requires Tiles(blob[h..], r, EncodedRecords(recs)) && i < |recs|
    ensures i < |Records(blob, h, r)|
    ensures Records(blob, h, r)[i].recType == recs[i].recType
    ensures Records(blob, h, r)[i].payload == recs[i].payload
    ensures Records(blob, h, r)[i].offset == h + i * r
  {
    var rs := Records(blob, h, r);
    RecordsTile(blob, h, r);
    TilesUnique(blob[h..], r, EncodedRecords(rs), EncodedRecords(recs));
    assert EncodedRecords(rs)[i] == EncodedRecords(recs)[i];
    EncodeRecordInjective(rs[i], recs[i]);
    RecordsIndex(blob, h, r, i);
  }

  /**
   * The payload views agree with each other: each big-endian binary64 is the
   * little-endian one with its bytes reversed, each binary32 is encoded by its
   * four bytes reversed, and each int32 re-encodes to its four bytes.
   */
  lemma PayloadViews(rec: PolylineRecord, j: nat, m: nat)
    requires rec.f64Le == UnpackF64(rec.payload, false) && rec.f64Be == UnpackF64(rec.payload, true)
    requires rec.f32Le == UnpackF32Le(rec.payload) && rec.i32Le == UnpackI32Le(rec.payload)
    requires 8 * j + 8 <= |rec.payload| && 4 * m + 4 <= |rec.payload|
    ensures |rec.f64Le| == |rec.f64Be| == |rec.payload| / 8
    ensures |rec.f32Le| == |rec.i32Le| == |rec.payload| / 4
    ensures rec.f64Be[j].bits == Reverse(rec.f64Le[j].bits)
    ensures rec.f32Le[m].bits == Reverse(rec.payload[4 * m..4 * m + 4])
    ensures -0x8000_0000 <= rec.i32Le[m] < 0x8000_0000
    ensures EncodeI32Le(rec.i32Le[m]) == rec.payload[4 * m..4 * m + 4]
  {
    UnpackF64At(rec.payload, false, j);
    UnpackF64At(rec.payload, true, j);
    UnpackF32LeAt(rec.payload, m);
    UnpackI32LeAt(rec.payload, m);
    LittleIsReversedBig(rec.payload[8 * j..8 * j + 8]);
  }

  // ------------------------------------------------------------ guess_polyline_format

  const DefaultHeaderLens: seq<int> := [0, 16, 32, 48, 64, 74, 80, 96]
  const DefaultRecordLens: seq<int> := [16, 18, 20, 24, 26, 28, 32]

  /** The type tags of the records, in order. */
  function Tags(recs: seq<PolylineRecord>): (ts: seq<U16>)
    ensures |ts| == |recs| && forall i {:trigger ts[i]} :: 0 <= i < |recs| ==> ts[i] == recs[i].recType
  {
    if recs == [] then [] else Tags(recs[..|recs| - 1]) + [recs[|recs| - 1].recType]
  }

  /** How many tags are "small" (at most 1024). */
  function SmallCount(ts: seq<U16>): (n: nat)
    ensures n <= |ts|
    ensures n == |ts| <==> forall i :: 0 <= i < |ts| ==> ts[i] <= 1024
  {
    if ts == [] then 0 else SmallCount(ts[..|ts| - 1]) + (if ts[|ts| - 1] <= 1024 then 1 else 0)
  }

  function Distinct(ts: seq<U16>): set<U16> {
    set t | t in ts
  }

  /** A sequence has at least one and at most `|ts|` distinct elements. */
  lemma {:induction false} DistinctBounds(ts: seq<U16>)
    ensures |Distinct(ts)| <= |ts|
    ensures ts != [] ==> |Distinct(ts)| >= 1
  {
    if ts != [] {
      var init := ts[..|ts| - 1];
      DistinctBounds(init);
      assert Distinct(ts) == Distinct(init) + {ts[|ts| - 1]};
    }
    if ts != [] {
      assert ts[0] in Distinct(ts);
    }
  }

  /** The largest number of times a value of `xs` occurs in `ts` (0 for no values). */
  function MaxOccurrences(ts: seq<U16>, xs: seq<U16>): (m: nat)
    ensures forall k :: 0 <= k < |xs| ==> multiset(ts)[xs[k]] <= m
    ensures xs == [] ==> m == 0
    ensures xs != [] ==> exists k :: 0 <= k < |xs| && multiset(ts)[xs[k]] == m
  {
    if xs == [] then 0
    else
      var rest := MaxOccurrences(ts, xs[1..]);
      var here := multiset(ts)[xs[0]];
      assert forall k :: 1 <= k < |xs| ==> xs[k] == xs[1..][k - 1];
      if here >= rest then here else rest
  }

  /** `max(head.count(x) for x in set(head))`: the count of the most common value. */
  function MostCommonCount(head: seq<U16>): nat {
    MaxOccurrences(head, head)
  }

  /** The most common value occurs at least once and at most `|head|` times. */
  lemma MostCommonBounds(head: seq<U16>)
    requires head != []
    ensures 1 <= MostCommonCount(head) <= |head|
    ensures forall x :: x in head ==> multiset(head)[x] <= MostCommonCount(head)
  {
    var m := MostCommonCount(head);
    var k :| 0 <= k < |head| && multiset(head)[head[k]] == m;
    assert head[0] in multiset(head);
    assert multiset(head)[head[0]] >= 1;
    forall x | x in head ensures multiset(head)[x] <= m {
      var j :| 0 <= j < |head| && head[j] == x;
    }
  }

  /**
   * The heuristic score of a candidate layout from its records' tags:
   * the share of small tags, plus 0.6 times the share of repeated tags,
   * plus 0.2 times the share of the most common tag among the first ten.
   * Exact rationals stand in for the source's binary64 arithmetic.
   */
  function Score(ts: seq<U16>): real
    requires ts != []
  {
    var n := |ts| as real;
    var smallRatio := SmallCount(ts) as real / n;
    var uniqRatio := |Distinct(ts)| as real / n;
    var head := ts[..if |ts| < 10 then |ts| else 10];
    var headBias := if head == [] then 0.0 else MostCommonCount(head) as real / |head| as real;
    smallRatio * 1.0 + (1.0 - uniqRatio) * 0.6 + headBias * 0.2
  }

  lemma RatioBounds(a: nat, n: nat)
    requires 0 < n && a <= n
    ensures 0.0 <= a as real / n as real <= 1.0
    ensures a > 0 ==> a as real / n as real > 0.0
  {
    var q := a as real / n as real;
    assert q * (n as real) == a as real;
  }

  /** Every score lies strictly between 0 and 1.8; 1.8 would need all tags at once small, distinct-free and equal. */
  lemma ScoreBounds(ts: seq<U16>)
    requires ts != []
    ensures 0.0 < Score(ts) < 1.8
  {
    var n := |ts|;
    var head := ts[..if n < 10 then n else 10];
    DistinctBounds(ts);
    MostCommonBounds(head);
    RatioBounds(SmallCount(ts), n);
    RatioBounds(|Distinct(ts)|, n);
    RatioBounds(MostCommonCount(head), |head|);
  }

  /** `guess_polyline_format`'s filter: a header inside the blob and a record length above 2 that divides the body. */
  predicate Viable(blobLen: nat, h: int, r: int) {
    0 <= h < blobLen && r > 2 && (blobLen - h) % r == 0
  }

  /** A viable layout always parses, with at least one record. */
  lemma ViableParses(blob: seq<Byte>, h: int, r: int)
    requires Viable(|blob|, h, r)
    ensures Parse(blob, PolylineFormat(h, r)).Success?
    ensures |Parse(blob, PolylineFormat(h, r)).value.records| >= 1
  {
    var n := (|blob| - h) / r;
    assert |blob| - h == n * r;
  }

  /** The score `guess_polyline_format` gives the layout `(h, r)`. */
  function CandidateScore(blob: seq<Byte>, h: int, r: int): real
    requires Viable(|blob|, h, r)
  {
    ViableParses(blob, h, r);
    Score(Tags(Parse(blob, PolylineFormat(h, r)).value.records))
  }

  /** Candidate `(i, j)` is tried before `(bi, bj)`: headers in the outer loop, record lengths in the inner. */
  predicate Earlier(i: int, j: int, bi: int, bj: int) {
    i < bi || (i == bi && j < bj)
  }

  /**
   * Candidate `(i, j)` is the first of the candidates with the highest score:
   * it passes the filter, no candidate that passes scores higher, and every
   * one tried before it that passes scores lower.
   */
  ghost predicate IsBest(blob: seq<Byte>, hs: seq<int>, rs: seq<int>, i: int, j: int) {
    Leads(ViableAt(blob, hs, rs), ScoreAt(blob, hs, rs), |hs|, |rs|, |hs|, 0, i, j)
  }

  /**
   * `guess_polyline_format`: tries every header length, then every record
   * length, parses the blob with each viable layout and keeps the first
   * layout whose score is strictly the highest.
   */
  method GuessPolylineFormat(blob: seq<Byte>, hs: seq<int>, rs: seq<int>) returns (best: Option<PolylineFormat>)
    ensures best.None? <==>
      forall i, j :: 0 <= i < |hs| && 0 <= j < |rs| ==> !Viable(|blob|, hs[i], rs[j])
    ensures best.Some? ==> exists i, j :: (0 <= i < |hs| && 0 <= j < |rs| &&
      best.value == PolylineFormat(hs[i], rs[j]) && IsBest(blob, hs, rs, i, j))
  {
    ghost var ok, sc := ViableAt(blob, hs, rs), ScoreAt(blob, hs, rs);
    best := None;
    var bestScore: real := 0.0;
    ghost var bi: int, bj: int := 0, 0;
    for i := 0 to |hs|
      invariant best.None? <==> NoneSoFar(ok, |hs|, |rs|, i, 0)
      invariant best.Some? ==> Leads(ok, sc, |hs|, |rs|, i, 0, bi, bj)
      invariant best.Some? ==> best.value == PolylineFormat(hs[bi], rs[bj]) && bestScore == sc(bi, bj)
    {
      if 0 <= hs[i] < |blob| {
        best, bestScore, bi, bj := ScanRecordLens(blob, hs, rs, i, best, bestScore, bi, bj);
      } else {
        forall j | 0 <= j < |rs| ensures !ok(i, j) {
          ViableAtIs(blob, hs, rs, i, j);
        }
        LeadsSkipRow(ok, sc, |hs|, |rs|, i, bi, bj, best.Some?);
      }
    }
    if best.None? {
      NoneSoFarNoneViable(blob, hs, rs);
    } else {
      assert best.value == PolylineFormat(hs[bi], rs[bj]) && IsBest(blob, hs, rs, bi, bj);
    }
  }

  /**
   * The inner loop of `guess_polyline_format` for header length `hs[i]`:
   * tries every record length in turn and keeps the best layout found so far.
   */
  method ScanRecordLens(blob: seq<Byte>, hs: seq<int>, rs: seq<int>, i: int,
                        best0: Option<PolylineFormat>, bestScore0: real, ghost bi0: int, ghost bj0: int)
    returns (best: Option<PolylineFormat>, bestScore: real, ghost bi: int, ghost bj: int)
    requires 0 <= i < |hs| && 0 <= hs[i] < |blob|
    requires best0.None? <==> NoneSoFar(ViableAt(blob, hs, rs), |hs|, |rs|, i, 0)
    requires best0.Some? ==> Leads(ViableAt(blob, hs, rs), ScoreAt(blob, hs, rs), |hs|, |rs|, i, 0, bi0, bj0)
    requires best0.Some? ==> best0.value == PolylineFormat(hs[bi0], rs[bj0]) && bestScore0 == ScoreAt(blob, hs, rs)(bi0, bj0)
    ensures best.None? <==> NoneSoFar(ViableAt(blob, hs, rs), |hs|, |rs|, i + 1, 0)
    ensures best.Some? ==> Leads(ViableAt(blob, hs, rs), ScoreAt(blob, hs, rs), |hs|, |rs|, i + 1, 0, bi, bj)
    ensures best.Some? ==> best.value == PolylineFormat(hs[bi], rs[bj]) && bestScore == ScoreAt(blob, hs, rs)(bi, bj)
  {
    ghost var ok, sc := ViableAt(blob, hs, rs), ScoreAt(blob, hs, rs);
    best, bestScore, bi, bj := best0, bestScore0, bi0, bj0;
    var h := hs[i];
    for j := 0 to |rs|
      invariant best.None? <==> NoneSoFar(ok, |hs|, |rs|, i, j)
      invariant best.Some? ==> Leads(ok, sc, |hs|, |rs|, i, j, bi, bj)
      invariant best.Some? ==> best.value == PolylineFormat(hs[bi], rs[bj]) && bestScore == sc(bi, bj)
    {
      var rlen := rs[j];
      if Viable(|blob|, h, rlen) {
        var res := ParsePolyline(blob, PolylineFormat(h, rlen));
        ParsedScore(blob, hs, rs, i, j, res);
        var score := Score(Tags(res.value.records));
        if best.None? || score > bestScore {
          if best.Some? {
            LeadsImprove(ok, sc, |hs|, |rs|, i, j, bi, bj);
          } else {
            LeadsFirst(ok, sc, |hs|, |rs|, i, j);
          }
          best, bestScore := Some(PolylineFormat(h, rlen)), score;
          bi, bj := i, j;
        } else {
          LeadsKeep(ok, sc, |hs|, |rs|, i, j, bi, bj);
        }
      } else {
        ViableAtIs(blob, hs, rs, i, j);
        LeadsSkip(ok, sc, |hs|, |rs|, i, j, bi, bj, best.Some?);
      }
    }
    LeadsNextRow(ok, sc, |hs|, |rs|, i, bi, bj, best.Some?);
  }

  lemma ViableAtIs(blob: seq<Byte>, hs: seq<int>, rs: seq<int>, a: int, b: int)
    requires 0 <= a < |hs| && 0 <= b < |rs|
    ensures ViableAt(blob, hs, rs)(a, b) <==> Viable(|blob|, hs[a], rs[b])
  {
  }

  /** Parsing a candidate that passes the filter yields records, scored as `ScoreAt` says. */
  lemma ParsedScore(blob: seq<Byte>, hs: seq<int>, rs: seq<int>, a: int, b: int, res: Result<Decoded, ParseError>)
    requires 0 <= a < |hs| && 0 <= b < |rs| && Viable(|blob|, hs[a], rs[b])
    requires res == Parse(blob, PolylineFormat(hs[a], rs[b]))
    ensures ViableAt(blob, hs, rs)(a, b)
    ensures res.Success? && |res.value.records| > 0
    ensures Score(Tags(res.value.records)) == ScoreAt(blob, hs, rs)(a, b)
  {
    ViableParses(blob, hs[a], rs[b]);
  }

  /** Whether candidate `(a, b)` passes the filter of `guess_polyline_format`. */
  ghost function ViableAt(blob: seq<Byte>, hs: seq<int>, rs: seq<int>): (int, int) -> bool {
    (a: int, b: int) => 0 <= a < |hs| && 0 <= b < |rs| && Viable(|blob|, hs[a], rs[b])
  }

  /** The score of candidate `(a, b)`, and 0 for a candidate that does not pass the filter. */
  ghost function ScoreAt(blob: seq<Byte>, hs: seq<int>, rs: seq<int>): (int, int) -> real {
    (a: int, b: int) =>
      if 0 <= a < |hs| && 0 <= b < |rs| && Viable(|blob|, hs[a], rs[b]) then CandidateScore(blob, hs[a], rs[b]) else 0.0
  }

  /** No candidate tried before `(i, j)` passes the filter. */
  ghost predicate NoneSoFar(ok: (int, int) -> bool, nh: int, nr: int, i: int, j: int) {
    forall a, b :: 0 <= a < nh && 0 <= b < nr && Earlier(a, b, i, j) ==> !ok(a, b)
  }

  /**
   * Among the candidates tried before `(i, j)`, `(bi, bj)` passes the filter,
   * none scores higher, and every one tried before it scores lower.
   */
  ghost predicate Leads(ok: (int, int) -> bool, sc: (int, int) -> real, nh: int, nr: int, i: int, j: int, bi: int, bj: int) {
    && 0 <= bi < nh && 0 <= bj < nr && Earlier(bi, bj, i, j) && ok(bi, bj)
    && (forall a, b :: 0 <= a < nh && 0 <= b < nr && Earlier(a, b, i, j) && ok(a, b) ==> sc(a, b) <= sc(bi, bj))
    && (forall a, b :: 0 <= a < nh && 0 <= b < nr && Earlier(a, b, bi, bj) && ok(a, b) ==> sc(a, b) < sc(bi, bj))
  }

  lemma LeadsFirst(ok: (int, int) -> bool, sc: (int, int) -> real, nh: int, nr: int, i: int, j: int)
    requires 0 <= i < nh && 0 <= j < nr && ok(i, j) && NoneSoFar(ok, nh, nr, i, j)
    ensures Leads(ok, sc, nh, nr, i, j + 1, i, j) && !NoneSoFar(ok, nh, nr, i, j + 1)
  {
    assert Earlier(i, j, i, j + 1);
  }

  lemma LeadsImprove(ok: (int, int) -> bool, sc: (int, int) -> real, nh: int, nr: int, i: int, j: int, bi: int, bj: int)
    requires 0 <= i < nh && 0 <= j < nr && ok(i, j)
    requires Leads(ok, sc, nh, nr, i, j, bi, bj) && sc(i, j) > sc(bi, bj)
    ensures Leads(ok, sc, nh, nr, i, j + 1, i, j)
  {
  }

  lemma LeadsKeep(ok: (int, int) -> bool, sc: (int, int) -> real, nh: int, nr: int, i: int, j: int, bi: int, bj: int)
    requires 0 <= i < nh && 0 <= j < nr
    requires Leads(ok, sc, nh, nr, i, j, bi, bj) && sc(i, j) <= sc(bi, bj)
    ensures Leads(ok, sc, nh, nr, i, j + 1, bi, bj)
  {
  }

  lemma LeadsSkip(ok: (int, int) -> bool, sc: (int, int) -> real, nh: int, nr: int, i: int, j: int, bi: int, bj: int, found: bool)
    requires 0 <= i < nh && 0 <= j < nr && !ok(i, j)
    requires found ==> Leads(ok, sc, nh, nr, i, j, bi, bj)
    ensures found ==> Leads(ok, sc, nh, nr, i, j + 1, bi, bj)
    ensures NoneSoFar(ok, nh, nr, i, j + 1) <==> NoneSoFar(ok, nh, nr, i, j)
  {
  }

  lemma LeadsNextRow(ok: (int, int) -> bool, sc: (int, int) -> real, nh: int, nr: int, i: int, bi: int, bj: int, found: bool)
    requires 0 <= i < nh
    requires found ==> Leads(ok, sc, nh, nr, i, nr, bi, bj)
    ensures found ==> Leads(ok, sc, nh, nr, i + 1, 0, bi, bj)
    ensures NoneSoFar(ok, nh, nr, i + 1, 0) <==> NoneSoFar(ok, nh, nr, i, nr)
  {
  }

  lemma LeadsSkipRow(ok: (int, int) -> bool, sc: (int, int) -> real, nh: int, nr: int, i: int, bi: int, bj: int, found: bool)
    requires 0 <= i < nh && forall b :: 0 <= b < nr ==> !ok(i, b)
    requires found ==> Leads(ok, sc, nh, nr, i, 0, bi, bj)
    ensures found ==> Leads(ok, sc, nh, nr, i + 1, 0, bi, bj)
    ensures NoneSoFar(ok, nh, nr, i + 1, 0) <==> NoneSoFar(ok, nh, nr, i, 0)
  {
  }

  lemma NoneSoFarNoneViable(blob: seq<Byte>, hs: seq<int>, rs: seq<int>)
    requires NoneSoFar(ViableAt(blob, hs, rs), |hs|, |rs|, |hs|, 0)
    ensures forall i, j :: 0 <= i < |hs| && 0 <= j < |rs| ==> !Viable(|blob|, hs[i], rs[j])
  {
    var ok := ViableAt(blob, hs, rs);
    forall i, j | 0 <= i < |hs| && 0 <= j < |rs| ensures !Viable(|blob|, hs[i], rs[j]) {
      assert Earlier(i, j, |hs|, 0) && !ok(i, j);
    }
  }
}
