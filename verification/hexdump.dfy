/**
 * `hexdump`: the first `max_bytes` bytes of a blob as text rows of `width`
 * bytes each: the row's offset in hexadecimal, the bytes in hexadecimal
 * padded to a fixed column, and the bytes as printable ASCII.
 */
module Hexdump {
  import opened Wrappers
  import opened Bytes
  import opened PyBuiltins
  import opened Arith
  import Seqs

  /** `range(0, n, 0)` raises `ValueError`. */
  datatype HexdumpError = ZeroWidth

  /** `chr(x) if 32 <= x <= 126 else "."` */
  function Printable(x: Byte): (c: char)
    ensures 32 <= c as int <= 126
    ensures 32 <= x <= 126 ==> c as int == x
    ensures !(32 <= x <= 126) ==> c == '.'
  {
    if 32 <= x <= 126 then x as char else '.'
  }

  function AsciiColumn(chunk: seq<Byte>): (s: string)
    ensures |s| == |chunk| && forall k :: 0 <= k < |chunk| ==> s[k] == Printable(chunk[k])
  {
    if chunk == [] then [] else AsciiColumn(chunk[..|chunk| - 1]) + [Printable(chunk[|chunk| - 1])]
  }

  /** `f"{x:02x}"` for each byte. */
  function HexBytes(chunk: seq<Byte>): (parts: seq<string>)
    ensures |parts| == |chunk| && forall k :: 0 <= k < |chunk| ==> parts[k] == ZeroPad(Hex(chunk[k]), 2)
  {
    if chunk == [] then [] else [ZeroPad(Hex(chunk[0]), 2)] + HexBytes(chunk[1..])
  }

  /** `" ".join(f"{x:02x}" for x in chunk)` */
  function HexColumn(chunk: seq<Byte>): string {
    Join(" ", HexBytes(chunk))
  }

  /** `b[i:i + width]`: at most `width` bytes, fewer in the last row, none past the end. */
  function Chunk(b: seq<Byte>, width: nat, i: nat): (chunk: seq<Byte>)
    ensures |chunk| <= width
    ensures i < |b| && width > 0 ==> 1 <= |chunk|
  {
    if i >= |b| then [] else b[i..if i + width < |b| then i + width else |b|]
  }

  /** `f"{i:08x}  {hexs:<{width*3}}  {ascii_}"` for the row of `width` bytes at offset `i` of `b`. */
  function Row(b: seq<Byte>, width: nat, i: nat): string
  {
    var chunk := Chunk(b, width, i);
    ZeroPad(Hex(i), 8) + "  " + LJust(HexColumn(chunk), 3 * width) + "  " + AsciiColumn(chunk)
  }

  /** `range(i, n, width)`: the offsets `i`, `i + width`, ... below `n`. */
  function RowOffsets(n: nat, width: nat, i: nat): (offs: seq<nat>)
    requires width > 0
    ensures forall k :: 0 <= k < |offs| ==> offs[k] < n
    decreases n - i
  {
    if i >= n then [] else [i] + RowOffsets(n, width, i + width)
  }

  /** One row per offset, each made by `row`. */
  function RenderRows<T>(row: nat -> T, offs: seq<nat>): (rows: seq<T>)
    ensures |rows| == |offs|
  {
    if offs == [] then [] else [row(offs[0])] + RenderRows(row, offs[1..])
  }

  /** The row formatter for `b` and `width`, as a function of the offset. */
  function RowOf(b: seq<Byte>, width: nat): nat -> string {
    (i: nat) => Row(b, width, i)
  }

  /** The rows of the kept bytes `b`. */
  function Rows(b: seq<Byte>, width: nat): seq<string>
    requires width > 0
  {
    RenderRows(RowOf(b, width), RowOffsets(|b|, width, 0))
  }

  /** `... (N bytes total)` when the dump was cut short. */
  function Trailer(data: seq<Byte>, maxBytes: int): (t: seq<string>)
    ensures |t| == if |data| > maxBytes then 1 else 0
  {
    if |data| > maxBytes then ["... (" + Decimal(|data|) + " bytes total)"] else []
  }

  /** The lines `hexdump(data, width, max_bytes)` joins with newlines. */
  function Lines(data: seq<Byte>, width: int, maxBytes: int): seq<string>
    requires width != 0
  {
    var b := Slice(data, 0, maxBytes);
    (if width > 0 then Rows(b, width) else []) + Trailer(data, maxBytes)
  }

  /** The loop of `hexdump`: one line per offset in `range(0, n, step)`, made by `row`. */
  method CollectRows<T>(n: nat, step: nat, row: nat -> T) returns (lines: seq<T>)
    requires step > 0
    ensures lines == RenderRows(row, RowOffsets(n, step, 0))
  {
    lines := [];
    var i: nat := 0;
    while i < n
      invariant lines + RenderRows(row, RowOffsets(n, step, i)) == RenderRows(row, RowOffsets(n, step, 0))
      decreases n - i
    {
      var line := row(i);
      RenderRowsStep(row, n, step, i);
      Seqs.ConcatAssoc(lines, [line], RenderRows(row, RowOffsets(n, step, i + step)));
      lines := lines + [line];
      i := i + step;
    }
    assert RowOffsets(n, step, i) == [];
  }

  /**
   * `hexdump`: keeps the first `max_bytes` bytes, renders them `width` at a
   * time, adds the trailer when bytes were dropped and joins the lines with
   * newlines; a zero width is the `ValueError` of `range`.
   */
  method HexdumpText(data: seq<Byte>, width: int, maxBytes: int) returns (r: Result<string, HexdumpError>)
    ensures width == 0 <==> r.Failure?
    ensures r.Success? ==> r.value == Join("\n", Lines(data, width, maxBytes))
  {
    if width == 0 {
      return Failure(ZeroWidth);
    }
    var b := Slice(data, 0, maxBytes);
    var lines: seq<string> := [];
    if width > 0 {
      lines := CollectRows(|b|, width, RowOf(b, width));
    }
    assert lines == if width > 0 then Rows(b, width) else [];
    if |data| > maxBytes {
      lines := lines + ["... (" + Decimal(|data|) + " bytes total)"];
    }
    assert lines == Lines(data, width, maxBytes);
    return Success(Join("\n", lines));
  }

  // ------------------------------------------------------------ properties

  /** The kept bytes are `data[:max_bytes]`: all of `data` when it is short enough, else its first `max_bytes`. */
  lemma KeptBytes(data: seq<Byte>, maxBytes: nat)
    ensures Slice(data, 0, maxBytes) == if |data| <= maxBytes then data else data[..maxBytes]
  {
  }

  /** Rendering the offsets from `i` on: the row at `i`, then the rows from `i + step` on. */
  lemma RenderRowsStep<T>(row: nat -> T, n: nat, step: nat, i: nat)
    requires step > 0 && i < n
    ensures RenderRows(row, RowOffsets(n, step, i))
         == [row(i)] + RenderRows(row, RowOffsets(n, step, i + step))
  {
    var offs := RowOffsets(n, step, i);
    assert offs[0] == i && offs[1..] == RowOffsets(n, step, i + step);
  }

  /** Row `k` is the row of offset `k`. */
  lemma {:induction false} RenderRowsAt<T>(row: nat -> T, offs: seq<nat>, k: nat)
    requires k < |offs|
    ensures RenderRows(row, offs)[k] == row(offs[k])
  {
    if k > 0 {
      RenderRowsAt(row, offs[1..], k - 1);
    }
  }

  /**
   * The offsets from `i` on cover the rest of the bytes and no more: there
   * are `ceil((n - i) / width)` of them.
   */
  lemma {:induction false} RowsCount(n: nat, width: nat, i: nat)
    requires width > 0 && i < n
    ensures var c := |RowOffsets(n, width, i)|;
      c >= 1 && i + (c - 1) * width < n <= i + c * width
    decreases n - i
  {
    var c := |RowOffsets(n, width, i)|;
    if i + width < n {
      RowsCount(n, width, i + width);
      MulSucc(c - 1, width);
      MulSucc(c - 2, width);
    }
  }

  /** There are no rows exactly when there are no kept bytes. */
  lemma RowsEmpty(n: nat, width: nat)
    requires width > 0
    ensures RowOffsets(n, width, 0) == [] <==> n == 0
  {
  }

  /** Offset `k` from `i` on is `i + k * width`. */
  lemma {:induction false} RowOffsetAt(n: nat, width: nat, i: nat, k: nat, off: nat)
    requires width > 0 && k < |RowOffsets(n, width, i)| && off == i + k * width
    ensures RowOffsets(n, width, i)[k] == off
    decreases n - i
  {
    if k > 0 {
      MulSucc(k - 1, width);
      RowOffsetAt(n, width, i + width, k - 1, off);
    }
  }

  /** Row `k` of the dump is the row at offset `off == k * width`. */
  lemma RowAt(b: seq<Byte>, width: nat, k: nat, off: nat)
    requires width > 0 && k < |Rows(b, width)| && off == k * width
    ensures off < |b|
    ensures Rows(b, width)[k] == Row(b, width, off)
  {
    var offs := RowOffsets(|b|, width, 0);
    RowOffsetAt(|b|, width, 0, k, off);
    RenderRowsAt(RowOf(b, width), offs, k);
  }

  /** Each byte is written as exactly two hex digits that read back as the byte. */
  lemma ByteHex(x: Byte)
    ensures |ZeroPad(Hex(x), 2)| == 2
    ensures ParseDigits(ZeroPad(Hex(x), 2), 16) == x
  {
    assert Power(16, 2) == 256;
    DigitsWidth(x, 16, 2);
    PaddedReadsBack(x, 2, 16);
  }


  /** The hex column of a non-empty chunk is three characters per byte, less the last separator. */
  lemma {:induction false} HexColumnLength(chunk: seq<Byte>)
    requires chunk != []
    ensures |HexColumn(chunk)| == 3 * |chunk| - 1
  {
    ByteHex(chunk[0]);
    if |chunk| > 1 {
      HexColumnLength(chunk[1..]);
      assert HexBytes(chunk)[1..] == HexBytes(chunk[1..]);
    }
  }

  /** The chunk is Python's `b[i:i + width]`. */
  lemma ChunkIsSlice(b: seq<Byte>, width: nat, i: nat)
    requires i < |b|
    ensures Chunk(b, width, i) == Slice(b, i, i + width)
  {
  }

  /** The offset field: at least 8 hex digits, exactly 8 below 16^8, that read back as the offset. */
  lemma OffsetField(i: nat)
    ensures var off := ZeroPad(Hex(i), 8);
      && |off| >= 8 && (i < Power(16, 8) ==> |off| == 8)
      && ParseDigits(off, 16) == i
  {
    PaddedReadsBack(i, 8, 16);
    if i < Power(16, 8) {
      DigitsWidth(i, 16, 8);
    }
  }

  /** Where the fields of `off + "  " + hex + "  " + ascii` lie, for a hex field of `3 * width` characters. */
  predicate RowFields(row: string, off: string, hex: string, ascii: string, width: nat) {
    && |row| == |off| + 2 + 3 * width + 2 + |ascii|
    && row[..|off|] == off
    && row[|off|..|off| + 2] == "  "
    && row[|off| + 2..|off| + 2 + 3 * width] == hex
    && row[|off| + 2 + 3 * width..|off| + 4 + 3 * width] == "  "
    && row[|off| + 4 + 3 * width..] == ascii
  }

  lemma Fields(row: string, off: string, hex: string, ascii: string, width: nat)
    requires row == off + "  " + hex + "  " + ascii && |hex| == 3 * width
    ensures RowFields(row, off, hex, ascii, width)
  {
    Seqs.Parts5(row, off, "  ", hex, "  ", ascii);
  }

  /**
   * Layout of a row: the offset field, two spaces, the hex column padded
   * to `3 * width` characters, two spaces, and one printable character per byte.
   */
  lemma RowLayout(b: seq<Byte>, width: nat, i: nat)
    requires width > 0 && i < |b|
    ensures var chunk := Chunk(b, width, i);
      RowFields(Row(b, width, i), ZeroPad(Hex(i), 8), LJust(HexColumn(chunk), 3 * width), AsciiColumn(chunk), width)
  {
    var chunk := Chunk(b, width, i);
    HexColumnLength(chunk);
    Fields(Row(b, width, i), ZeroPad(Hex(i), 8), LJust(HexColumn(chunk), 3 * width), AsciiColumn(chunk), width);
  }
}
