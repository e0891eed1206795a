/**
 * The console's output sink and the text it is given: the colour-tagged
 * entries of debugger_write_output, the hex-dump rows of read, the history
 * listing, and the rows of the disassembly panel.
 */
module Output {
  import opened Wrappers
  import opened JsText
  import opened JsNumber
  import opened Machine

  /** The colour class a span is given; Plain is text appended without a span. */
  datatype Colour = Plain | Red | Orange | Blue | Green | White

  /** One write to the output window: text, its colour, and whether a line break follows. */
  datatype Entry = Entry(text: string, colour: Colour, newline: bool)

  function Text(s: string): Entry
  {
    Entry(s, Plain, false)
  }

  /** The "<br>" the dispatcher appends after every command it ran or rejected. */
  const LineBreak := Entry("", Plain, true)

  /** The total number of characters in a run of entries. */
  function TextLength(es: seq<Entry>): nat
  {
    if es == [] then 0 else TextLength(es[..|es| - 1]) + |es[|es| - 1].text|
  }

  // ---- hex dump -------------------------------------------------------

  /** base + i on a JavaScript number: NaN stays NaN. */
  function AddOffset(x: Number, i: int): Number
  {
    match x
    case None => None
    case Some(v) => Some(v + i)
  }

  /** memory_contents[index]: undefined (None) outside the array or at NaN. */
  function ElementAt(contents: seq<Byte>, index: Number): Option<Byte>
  {
    if index.Some? && 0 <= index.value < |contents| then Some(contents[index.value]) else None
  }

  predicate IsPrintable(b: int) {
    0x20 <= b <= 0x7e
  }

  /** The ASCII column's character for an element: itself when printable, otherwise '.'. */
  function AsciiChar(v: Option<Byte>): char
  {
    if v.Some? && IsPrintable(v.value) then v.value as char else '.'
  }

  /**
   * The ASCII column as dump_memory_row computes it: element j of the row is
   * read at rowAddress + j, the address label, instead of at the row's index
   * into the returned contents.
   */
  function AsciiAsWritten(contents: seq<Byte>, rowAddress: Number, n: nat): (r: string)
    ensures |r| == n
    ensures forall j :: 0 <= j < n ==> r[j] == AsciiChar(ElementAt(contents, AddOffset(rowAddress, j)))
  {
    if n == 0 then ""
    else AsciiAsWritten(contents, rowAddress, n - 1) + [AsciiChar(ElementAt(contents, AddOffset(rowAddress, n - 1)))]
  }

  /** The ASCII column of a row of bytes, read at the row's own positions. */
  function AsciiColumn(bytes: seq<Byte>): (r: string)
    ensures |r| == |bytes|
    ensures forall j :: 0 <= j < |r| ==> IsPrintable(r[j] as int)
    ensures forall j :: 0 <= j < |r| ==> (r[j] == bytes[j] as char <==> IsPrintable(bytes[j]))
    ensures forall j :: 0 <= j < |r| ==> r[j] == if IsPrintable(bytes[j]) then bytes[j] as char else '.'
  {
    if bytes == [] then ""
    else AsciiColumn(bytes[..|bytes| - 1]) + [AsciiChar(Some(bytes[|bytes| - 1]))]
  }

  /** On a row whose label equals its index (a dump from address 0) the two columns agree. */
  lemma {:induction false} AsciiAsWrittenWhenAligned(contents: seq<Byte>, rowIndex: nat, n: nat)
    requires rowIndex + n <= |contents|
    ensures AsciiAsWritten(contents, Some(rowIndex), n) == AsciiColumn(contents[rowIndex..rowIndex + n])
  {
    if n > 0 {
      AsciiAsWrittenWhenAligned(contents, rowIndex, n - 1);
      assert contents[rowIndex..rowIndex + n][..n - 1] == contents[rowIndex..rowIndex + n - 1];
    }
  }

  /** Where rowAddress + j falls outside the contents, the column as written shows '.'. */
  lemma AsciiAsWrittenOutside(contents: seq<Byte>, rowAddress: nat, n: nat, j: nat)
    requires j < n && rowAddress + j >= |contents|
    ensures AsciiAsWritten(contents, Some(rowAddress), n)[j] == '.'
  {
  }

  /** The cell of one byte: two hexadecimal digits and a space. */
  function ByteCell(b: Byte): Entry
  {
    Text(Hex2(Some(b)) + " ")
  }

  function ByteCells(bytes: seq<Byte>): (r: seq<Entry>)
    ensures |r| == |bytes|
    ensures forall j :: 0 <= j < |bytes| ==> r[j] == ByteCell(bytes[j])
  {
    if bytes == [] then [] else ByteCells(bytes[..|bytes| - 1]) + [ByteCell(bytes[|bytes| - 1])]
  }

  /** Three spaces per byte missing from a row of sixteen. */
  function Padding(size: nat): (r: seq<Entry>)
    ensures |r| == if size < 16 then 16 - size else 0
    ensures forall j :: 0 <= j < |r| ==> r[j] == Text("   ")
    decreases 16 - size
  {
    if size >= 16 then [] else Padding(size + 1) + [Text("   ")]
  }

  /** The entries dump_memory_row writes for one row. */
  function RowEntries(contents: seq<Byte>, rowAddress: Number, rowIndex: nat, size: nat): seq<Entry>
    requires rowIndex + size <= |contents|
  {
    [Text(Hex4(rowAddress) + " ")]
    + ByteCells(contents[rowIndex..rowIndex + size])
    + Padding(size)
    + [Entry(AsciiAsWritten(contents, rowAddress, size), Plain, true)]
  }

  /** The size of the row starting at offset i of n bytes. */
  function RowSize(n: nat, i: nat): nat
    requires i < n
  {
    if i + 16 < n then 16 else n - i
  }

  /** The rows read_memory writes for the bytes from offset i on. */
  function DumpFrom(contents: seq<Byte>, base: Number, i: nat): seq<Entry>
    decreases |contents| - i
  {
    if i >= |contents| then []
    else RowEntries(contents, AddOffset(base, i), i, RowSize(|contents|, i)) + DumpFrom(contents, base, i + 16)
  }

  /** The hex dump of a region read from base. */
  function Dump(contents: seq<Byte>, base: Number): seq<Entry>
  {
    DumpFrom(contents, base, 0)
  }

  /** The row sizes of n bytes from offset i on. */
  function RowSizes(n: nat, i: nat): seq<nat>
    decreases n - i
  {
    if i >= n then [] else [RowSize(n, i)] + RowSizes(n, i + 16)
  }

  function Sum(xs: seq<nat>): nat
  {
    if xs == [] then 0 else xs[0] + Sum(xs[1..])
  }

  /**
   * The rows from offset i start at i, i + 16, i + 32, ...; each has
   * min(16, n - start) bytes; together they cover the n - i bytes.
   */
  lemma {:induction false} RowPartition(n: nat, i: nat)
    ensures forall k :: 0 <= k < |RowSizes(n, i)| ==>
      i + 16 * k < n && RowSizes(n, i)[k] == (if n - (i + 16 * k) < 16 then n - (i + 16 * k) else 16)
    ensures |RowSizes(n, i)| == if i >= n then 0 else (n - i + 15) / 16
    ensures Sum(RowSizes(n, i)) == if i < n then n - i else 0
    decreases n - i
  {
    if i < n {
      RowPartition(n, i + 16);
      var rest := RowSizes(n, i + 16);
      assert RowSizes(n, i) == [RowSize(n, i)] + rest;
      forall k | 0 <= k < |RowSizes(n, i)|
        ensures i + 16 * k < n && RowSizes(n, i)[k] == (if n - (i + 16 * k) < 16 then n - (i + 16 * k) else 16)
      {
        if k > 0 {
          assert RowSizes(n, i)[k] == rest[k - 1];
          assert i + 16 + 16 * (k - 1) == i + 16 * k;
        }
      }
    }
  }

  /** Every row of at most sixteen bytes is eighteen entries long. */
  lemma RowLength(contents: seq<Byte>, rowAddress: Number, rowIndex: nat, size: nat)
    requires rowIndex + size <= |contents| && size <= 16
    ensures |RowEntries(contents, rowAddress, rowIndex, size)| == 18
  {
  }

  /** The dump from offset i has eighteen entries per row of RowSizes(n, i). */
  lemma {:induction false} DumpFromLength(contents: seq<Byte>, base: Number, i: nat)
    ensures |DumpFrom(contents, base, i)| == 18 * |RowSizes(|contents|, i)|
    decreases |contents| - i
  {
    if i < |contents| {
      DumpFromLength(contents, base, i + 16);
      RowLength(contents, AddOffset(base, i), i, RowSize(|contents|, i));
    }
  }

  /**
   * Row k of the dump from offset i takes entries m = 18k to m + 18: it is
   * the row of size RowSizes(n, i)[k] read at offset j = i + 16k and
   * labelled base + j.
   */
  lemma {:induction false} DumpFromRow(contents: seq<Byte>, base: Number, i: nat, k: nat, j: nat, m: nat)
    requires k < |RowSizes(|contents|, i)| && j == i + 16 * k && m == 18 * k
    ensures var sizes := RowSizes(|contents|, i);
      j + sizes[k] <= |contents|
      && m + 18 <= |DumpFrom(contents, base, i)|
      && DumpFrom(contents, base, i)[m..m + 18] == RowEntries(contents, AddOffset(base, j), j, sizes[k])
    decreases k
  {
    var n := |contents|;
    var sizes, rest := RowSizes(n, i), RowSizes(n, i + 16);
    assert sizes == [RowSize(n, i)] + rest;
    if k == 0 {
      DumpFromBlock(contents, base, i, k, m);
    } else {
      DumpFromRow(contents, base, i + 16, k - 1, j, m - 18);
      assert sizes[k] == rest[k - 1];
      DumpFromBlock(contents, base, i, k, m);
    }
  }

  /** Block k (entries m = 18k to m + 18) of the dump from offset i is its first row or block k - 1 of the dump from i + 16. */
  lemma DumpFromBlock(contents: seq<Byte>, base: Number, i: nat, k: nat, m: nat)
    requires k < |RowSizes(|contents|, i)| && m == 18 * k
    ensures i < |contents|
    ensures m + 18 <= |DumpFrom(contents, base, i)|
    ensures var tail := DumpFrom(contents, base, i + 16);
      DumpFrom(contents, base, i)[m..m + 18]
      == if k == 0 then RowEntries(contents, AddOffset(base, i), i, RowSize(|contents|, i))
         else tail[m - 18..m - 18 + 18]
  {
    var n := |contents|;
    var size := RowSize(n, i);
    var row := RowEntries(contents, AddOffset(base, i), i, size);
    var tail := DumpFrom(contents, base, i + 16);
    assert RowSizes(n, i) == [size] + RowSizes(n, i + 16);
    assert DumpFrom(contents, base, i) == row + tail;
    RowLength(contents, AddOffset(base, i), i, size);
    DumpFromLength(contents, base, i + 16);
    BlockOfConcat(row, tail, k, m);
  }

  /** Block k of eighteen elements after an eighteen-element head. */
  // A slicing fact kept as a lemma so that DumpFromBlock's proof stays within its resource budget.
  lemma BlockOfConcat<T>(head: seq<T>, tail: seq<T>, k: nat, m: nat)
    requires |head| == 18 && m == 18 * k && m <= |tail|
    ensures k == 0 ==> (head + tail)[..18] == head
    ensures k > 0 ==> (head + tail)[m..m + 18] == tail[m - 18..m - 18 + 18]
  {
  }

  /** The hex dump is the rows of RowSizes(n, 0), row k at offset and label 16k. */
  lemma DumpRows(contents: seq<Byte>, base: Number)
    ensures var sizes := RowSizes(|contents|, 0);
      |Dump(contents, base)| == 18 * |sizes|
      && forall k :: 0 <= k < |sizes| ==>
           16 * k + sizes[k] <= |contents|
           && Dump(contents, base)[18 * k..18 * k + 18]
              == RowEntries(contents, AddOffset(base, 16 * k), 16 * k, sizes[k])
  {
    DumpFromLength(contents, base, 0);
    forall k | 0 <= k < |RowSizes(|contents|, 0)|
      ensures 16 * k + RowSizes(|contents|, 0)[k] <= |contents|
      ensures Dump(contents, base)[18 * k..18 * k + 18]
              == RowEntries(contents, AddOffset(base, 16 * k), 16 * k, RowSizes(|contents|, 0)[k])
    {
      DumpFromRow(contents, base, 0, k, 16 * k, 18 * k);
    }
  }

  /**
   * The layout of one row: the label is four hexadecimal digits of the
   * address and a space, then one three-character cell per byte, then three
   * spaces per missing byte, and the row ends with the ASCII column and a
   * line break.
   */
  lemma RowLayout(contents: seq<Byte>, rowAddress: nat, rowIndex: nat, size: nat)
    requires rowIndex + size <= |contents| && size <= 16
    ensures var r, bytes := RowEntries(contents, Some(rowAddress), rowIndex, size), contents[rowIndex..rowIndex + size];
      && |r| == 18
      && r[0] == Text(FixedHex(rowAddress, 4) + " ")
      && (forall j :: 0 <= j < size ==> r[1 + j] == ByteCell(bytes[j]))
      && (forall j :: 1 + size <= j < 17 ==> r[j] == Text("   "))
      && r[17] == Entry(AsciiAsWritten(contents, Some(rowAddress), size), Plain, true)
  {
    var bytes := contents[rowIndex..rowIndex + size];
    var tag, cells, pad := [Text(Hex4(Some(rowAddress)) + " ")], ByteCells(bytes), Padding(size);
    var last := [Entry(AsciiAsWritten(contents, Some(rowAddress), size), Plain, true)];
    var r := RowEntries(contents, Some(rowAddress), rowIndex, size);
    assert r == tag + cells + pad + last;
    assert |cells| == size && |pad| == 16 - size;
    ConcatFour(tag, cells, pad, last);
    assert r[0] == Text(FixedHex(rowAddress, 4) + " ") by {
      assert r[0] == tag[0];
      Hex4Unsigned(rowAddress);
    }
    assert forall j :: 0 <= j < size ==> r[1 + j] == ByteCell(bytes[j]);
    assert forall j :: 1 + size <= j < 17 ==> r[j] == Text("   ");
  }

  /** Positions in a concatenation of a one-element head, two runs and a one-element end. */
  // Kept as a lemma so that RowLayout's proof stays within its resource budget.
  lemma ConcatFour<T>(a: seq<T>, b: seq<T>, c: seq<T>, d: seq<T>)
    requires |a| == 1 && |d| == 1
    ensures var r := a + b + c + d;
      && |r| == 2 + |b| + |c| && r[0] == a[0] && r[|r| - 1] == d[0]
      && (forall j :: 0 <= j < |b| ==> r[1 + j] == b[j])
      && (forall j :: 1 + |b| <= j < 1 + |b| + |c| ==> r[j] == c[j - 1 - |b|])
  {
  }

  /** Every cell of a row takes three characters, so the ASCII column starts after 53 of them whatever the row size. */
  lemma AsciiColumnAligned(contents: seq<Byte>, rowAddress: nat, rowIndex: nat, size: nat)
    requires rowIndex + size <= |contents| && size <= 16
    ensures TextLength(RowEntries(contents, Some(rowAddress), rowIndex, size)[..17]) == 53
  {
    RowLayout(contents, rowAddress, rowIndex, size);
    var r := RowEntries(contents, Some(rowAddress), rowIndex, size);
    var bytes := contents[rowIndex..rowIndex + size];
    var head := r[..17];
    forall j | 1 <= j < 17 ensures |head[j].text| == 3 {
      if j <= size {
        assert head[j] == ByteCell(bytes[j - 1]);
        Hex2Byte(bytes[j - 1]);
      }
    }
    CellsLength(head);
  }

  lemma {:induction false} CellsLength(es: seq<Entry>)
    requires |es| >= 1 && |es[0].text| == 5
    requires forall j :: 1 <= j < |es| ==> |es[j].text| == 3
    ensures TextLength(es) == 5 + 3 * (|es| - 1)
  {
    if |es| > 1 {
      CellsLength(es[..|es| - 1]);
    }
  }

  // ---- history --------------------------------------------------------

  /** The entries history writes for the first n entries: "<index> " in orange, then the command. */
  function ListingUpTo(history: seq<string>, n: nat): seq<Entry>
    requires n <= |history|
  {
    if n == 0 then []
    else ListingUpTo(history, n - 1) + [Entry(Decimal(n - 1) + " ", Orange, false), Entry(history[n - 1], Plain, true)]
  }

  function HistoryListing(history: seq<string>): seq<Entry>
  {
    ListingUpTo(history, |history|)
  }

  /** The listing has two entries per command, in order: its index, then its text on a line of its own. */
  lemma {:induction false} ListingShape(history: seq<string>, n: nat)
    requires n <= |history|
    ensures |ListingUpTo(history, n)| == 2 * n
    ensures forall i :: 0 <= i < n ==>
      ListingUpTo(history, n)[2 * i] == Entry(Decimal(i) + " ", Orange, false)
      && ListingUpTo(history, n)[2 * i + 1] == Entry(history[i], Plain, true)
  {
    if n > 0 {
      ListingShape(history, n - 1);
    }
  }

  // ---- disassembly panel ---------------------------------------------

  /** One row of the disassembly table. */
  datatype DisasmRow = DisasmRow(highlighted: bool, address: string, rawData: string, assembly: string, comment: string)

  /** The raw bytes as update_debugger_disasm shows them: each "%02x" byte put in front of the previous ones. */
  function RawDataText(raw: seq<Byte>): string
  {
    if raw == [] then "" else Printf(raw[|raw| - 1], 2) + RawDataText(raw[..|raw| - 1])
  }

  /** The raw-data text holds the bytes in reverse order, two digits each. */
  lemma {:induction false} RawDataReversed(raw: seq<Byte>)
    ensures |RawDataText(raw)| == 2 * |raw|
    ensures forall k :: 0 <= k < |raw| ==> RawDataText(raw)[2 * k..2 * k + 2] == Hex2(Some(raw[|raw| - 1 - k]))
  {
    if raw != [] {
      var last := raw[|raw| - 1];
      var rest := raw[..|raw| - 1];
      RawDataReversed(rest);
      Hex2Byte(last);
      PrintfMatchesPadTail(last, 2);
      var head, tail := Printf(last, 2), RawDataText(rest);
      assert RawDataText(raw) == head + tail;
      forall k | 0 <= k < |raw| ensures (head + tail)[2 * k..2 * k + 2] == Hex2(Some(raw[|raw| - 1 - k])) {
        PairOfConcat(head, tail, k);
        if k > 0 {
          assert rest[|rest| - 1 - (k - 1)] == raw[|raw| - 1 - k];
          assert tail[2 * (k - 1)..2 * (k - 1) + 2] == Hex2(Some(rest[|rest| - 1 - (k - 1)]));
        } else {
          assert head == Hex2(Some(last));
        }
      }
    }
  }

  /** The k-th two-character piece of a two-character head followed by tail. */
  lemma PairOfConcat(head: string, tail: string, k: nat)
    requires |head| == 2 && 2 * k + 2 <= 2 + |tail|
    ensures (head + tail)[2 * k..2 * k + 2] == if k == 0 then head else tail[2 * (k - 1)..2 * (k - 1) + 2]
  {
    if k > 0 {
      assert (head + tail)[2 * k..2 * k + 2] == tail[2 * k - 2..2 * k];
    }
  }

  function CommentText(c: Option<string>): string
  {
    if c.Some? then c.value else ""
  }

  function DisasmRowOf(instruction: Instruction, first: bool): DisasmRow
  {
    DisasmRow(first, Printf(instruction.address, 4), RawDataText(instruction.rawData), instruction.assembly,
              CommentText(instruction.commentA) + CommentText(instruction.commentB))
  }

  /** The table update_debugger_disasm builds, first row highlighted. */
  function DisasmRows(instructions: seq<Instruction>): seq<DisasmRow>
  {
    seq(|instructions|, i requires 0 <= i < |instructions| => DisasmRowOf(instructions[i], i == 0))
  }
}
