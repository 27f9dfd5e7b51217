/** The hex dump of the debug log: what it writes, how it reads back, and the buffer it fills. */
module HexDump {
  import opened Wrappers
  import opened Strings
  import opened Digits
  import opened Buffers

  const ROW := 16

  // ----- the text -----

  predicate Odd(j: nat) {
    j % 2 == 1
  }

  /** The hexadecimal column of byte `j` of a row, or blanks of the same width behind its end. */
  function Column(row: seq<Byte>, j: nat): (s: string)
    ensures |s| >= 2
  {
    (if j < |row| then PaddedHex(row[j], 2, false) else "  ") + (if Odd(j) then " " else "")
  }

  /** The columns of a row, one for each of its places. */
  function Cells(row: seq<Byte>): (cells: seq<string>)
    ensures |cells| == ROW && forall j :: 0 <= j < ROW ==> cells[j] == Column(row, j)
  {
    seq(ROW, j requires 0 <= j < ROW => Column(row, j))
  }

  function Joined(cells: seq<string>, n: nat): string
    requires n <= |cells|
  {
    if n == 0 then "" else Joined(cells, n - 1) + cells[n - 1]
  }

  function Columns(row: seq<Byte>, j: nat): string
    requires j <= ROW
  {
    Joined(Cells(row), j)
  }

  /** `isprint` in the C locale. */
  predicate IsPrint(b: Byte) {
    0x20 <= b <= 0x7e
  }

  function Printable(b: Byte): char {
    if IsPrint(b) then b as char else '.'
  }

  function Ascii(row: seq<Byte>): (s: string)
    ensures |s| == |row| && '\n' !in s
  {
    seq(|row|, j requires 0 <= j < |row| => Printable(row[j]))
  }

  function RowHead(i: nat): string {
    " " + PaddedHex(i, 4, false) + ": "
  }

  function RowText(i: nat, row: seq<Byte>): string {
    RowHead(i) + Columns(row, ROW) + " " + Ascii(row) + "\n"
  }

  /** The bytes of the row that starts at `i`. */
  function RowAt(buffer: seq<Byte>, i: nat): (row: seq<Byte>)
    requires i < |buffer|
    ensures 0 < |row| <= ROW
  {
    if |buffer| - i > ROW then buffer[i..i + ROW] else buffer[i..]
  }

  /** The rows from `i` on. */
  function Rows(buffer: seq<Byte>, i: nat): string
    decreases |buffer| - i
  {
    if i >= |buffer| then "" else RowText(i, RowAt(buffer, i)) + Rows(buffer, i + ROW)
  }

  function Dump(buffer: seq<Byte>): string {
    if buffer == [] then "" else "\n" + Rows(buffer, 0)
  }

  // ----- reading it back -----

  /** Where the column of byte `j` starts: two characters for each byte before it, and a blank
      for each second one. */
  function ColumnStart(j: nat): nat {
    if j == 0 then 0 else ColumnStart(j - 1) + if Odd(j - 1) then 3 else 2
  }

  lemma {:induction false} ColumnStartIs(j: nat)
    ensures 2 * ColumnStart(j) == if Odd(j) then 5 * j - 1 else 5 * j
  {
    if j > 0 {
      ColumnStartIs(j - 1);
    }
  }

  /** The columns of a row take 40 characters. */
  lemma FortyColumns(j: nat)
    requires j <= ROW
    ensures ColumnStart(j) <= 40 && ColumnStart(ROW) == 40
  {
    ColumnStartIs(j);
    ColumnStartIs(ROW);
  }

  /** The bytes of the hexadecimal columns from byte `j` on, up to the first blank column. */
  function ReadColumns(columns: string, j: nat): seq<nat>
    decreases ROW - j
  {
    var p := ColumnStart(j);
    if j >= ROW || p + 2 > |columns| || !IsHex(columns[p..p + 2]) then []
    else [ReadHex(columns[p..p + 2])] + ReadColumns(columns, j + 1)
  }

  /** One line of a dump: the offset, the bytes of the columns and the text on the right. */
  datatype Line = Line(offset: nat, bytes: seq<nat>, text: string)

  /** Reads what stands behind the offset, cut into the 40 characters of columns and the rest. Gives
      the line and what follows it. */
  function ReadCut(offset: nat, columns: string, more: string): (r: Option<(Line, string)>)
    ensures r.Some? ==> |r.value.1| < |more|
  {
    match Find(more, '\n')
    case None => None
    case Some(e) => Some((Line(offset, ReadColumns(columns, 0), if e > 0 then more[1..e] else ""), more[e + 1..]))
  }

  /** The number in front of the first colon, behind one blank. */
  function ReadOffset(s: string): nat {
    if s != "" && IsHex(s[1..]) then ReadHex(s[1..]) else 0
  }

  /** The columns start behind the first colon and blank. */
  function ReadRow(s: string): (r: Option<(Line, string)>)
    ensures r.Some? ==> |r.value.1| < |s|
  {
    match Find(s, ':')
    case None => None
    case Some(c) => if c + 42 > |s| then None else ReadCut(ReadOffset(s[..c]), s[c + 2..c + 42], s[c + 42..])
  }

  function ReadDump(s: string): seq<Line> {
    match ReadRow(s)
    case None => []
    case Some((line, rest)) => [line] + ReadDump(rest)
  }

  lemma ByteDigits(b: Byte)
    ensures var s := PaddedHex(b, 2, false); |s| == 2 && IsHex(s) && ReadHex(s) == b
  {
    Pow16Values();
    HexLength(b, 2, false);
    PaddedHexReadsBack(b, 2, false);
  }

  lemma ColumnLength(row: seq<Byte>, j: nat)
    ensures |Column(row, j)| == if Odd(j) then 3 else 2
  {
    if j < |row| {
      ByteDigits(row[j]);
    }
  }

  predicate Regular(cells: seq<string>) {
    forall j: nat :: j < |cells| ==> |cells[j]| == if Odd(j) then 3 else 2
  }

  lemma {:induction false} JoinedLength(cells: seq<string>, n: nat)
    requires n <= |cells| && Regular(cells)
    ensures |Joined(cells, n)| == ColumnStart(n)
  {
    if n > 0 {
      JoinedLength(cells, n - 1);
    }
  }

  lemma CellsRegular(row: seq<Byte>)
    ensures Regular(Cells(row))
  {
    forall j: nat | j < ROW ensures |Cells(row)[j]| == if Odd(j) then 3 else 2 {
      ColumnLength(row, j);
    }
  }

  lemma ColumnsLength(row: seq<Byte>, j: nat)
    requires j <= ROW
    ensures |Columns(row, j)| == ColumnStart(j)
  {
    CellsRegular(row);
    JoinedLength(Cells(row), j);
  }

  lemma SliceRight(a: string, b: string, k: nat)
    requires k <= |b|
    ensures (a + b)[|a|..|a| + k] == b[..k] && (a + b)[|a| + k..] == b[k..]
  {
  }

  /** `piece` stands at `p` in `text`. */
  predicate Stands(text: string, p: nat, piece: string) {
    p + 2 <= |text| && text[p..p + 2] == piece
  }

  lemma StandsInLonger(a: string, b: string, p: nat, piece: string)
    requires Stands(a, p, piece)
    ensures Stands(a + b, p, piece)
  {
    assert (a + b)[p..p + 2] == a[p..p + 2];
  }

  lemma StandsLast(a: string, b: string)
    requires |b| >= 2
    ensures Stands(a + b, |a|, b[..2])
  {
  }

  /** Cell `j` stands at its place among the joined cells. */
  lemma {:induction false} CellStands(cells: seq<string>, j: nat, n: nat)
    requires j < n <= |cells| && Regular(cells)
    ensures Stands(Joined(cells, n), ColumnStart(j), cells[j][..2])
    decreases n
  {
    if j < n - 1 {
      CellStands(cells, j, n - 1);
      StandsInLonger(Joined(cells, n - 1), cells[n - 1], ColumnStart(j), cells[j][..2]);
    } else {
      JoinedLength(cells, j);
      StandsLast(Joined(cells, j), cells[j]);
    }
  }

  /** What the reader sees of a cell: a byte, or none behind the end of the row. */
  ghost predicate CellSays(cell: string, row: seq<Byte>, j: nat) {
    |cell| >= 2
    && if j < |row| then IsHex(cell[..2]) && ReadHex(cell[..2]) == row[j] else !IsHex(cell[..2])
  }

  lemma ColumnSays(row: seq<Byte>, j: nat)
    ensures CellSays(Column(row, j), row, j)
  {
    if j < |row| {
      ByteDigits(row[j]);
      assert Column(row, j)[..2] == PaddedHex(row[j], 2, false);
    } else {
      assert Column(row, j)[..2] == "  " && "  "[0] == ' ' && DigitValue(' ') == None;
    }
  }

  lemma ReadColumnAt(columns: string, j: nat, piece: string)
    requires j < ROW && Stands(columns, ColumnStart(j), piece)
    ensures ReadColumns(columns, j) == if IsHex(piece) then [ReadHex(piece)] + ReadColumns(columns, j + 1) else []
  {
  }

  ghost predicate CellsSay(cells: seq<string>, row: seq<Byte>) {
    forall j: nat :: j < |cells| ==> CellSays(cells[j], row, j)
  }

  lemma {:induction false} CellsReadBack(cells: seq<string>, row: seq<Byte>, j: nat)
    requires j <= |row| <= ROW == |cells| && Regular(cells) && CellsSay(cells, row)
    ensures ReadColumns(Joined(cells, |cells|), j) == row[j..]
    decreases ROW - j
  {
    if j < ROW {
      assert CellSays(cells[j], row, j);
      CellStands(cells, j, |cells|);
      ReadColumnAt(Joined(cells, |cells|), j, cells[j][..2]);
      if j < |row| {
        CellsReadBack(cells, row, j + 1);
        assert [row[j]] + row[j + 1..] == row[j..];
      }
    }
  }

  lemma ColumnsReadBack(row: seq<Byte>)
    requires |row| <= ROW
    ensures ReadColumns(Columns(row, ROW), 0) == row
  {
    var cells := Cells(row);
    CellsRegular(row);
    forall j: nat | j < |cells| ensures CellSays(cells[j], row, j) {
      ColumnSays(row, j);
    }
    CellsReadBack(cells, row, 0);
  }

  lemma ColonInHead(i: nat, rest: string)
    ensures Find(RowHead(i) + rest, ':') == Some(|RowHead(i)| - 2)
  {
    var digits := PaddedHex(i, 4, false);
    PaddedHexReadsBack(i, 4, false);
    assert DigitValue(':') == None;
    assert ':' !in " " + digits;
    FindInConcat(" " + digits, ':', " " + rest);
    assert RowHead(i) + rest == (" " + digits) + [':'] + (" " + rest);
  }

  lemma RowPieces(head: string, columns: string, more: string)
    requires |columns| == 40
    ensures var s := head + (columns + more);
            s[|head|..|head| + 40] == columns && s[|head| + 40..] == more
  {
    SliceRight(head, columns + more, 40);
    assert (columns + more)[..40] == columns && (columns + more)[40..] == more;
  }

  lemma TailPieces(text: string, rest: string)
    requires '\n' !in text
    ensures var more := (" " + text) + ['\n'] + rest;
            Find(more, '\n') == Some(|text| + 1) && more[1..|text| + 1] == text && more[|text| + 2..] == rest
  {
    FindInConcat(" " + text, '\n', rest);
  }

  /** A row's pieces are found where the reader looks for them. */
  lemma ReadRowPieces(head: string, offset: nat, columns: string, text: string, rest: string)
    requires |head| >= 2 && |columns| == 40 && '\n' !in text && ReadOffset(head[..|head| - 2]) == offset
    requires Find(head + (columns + ((" " + text) + ['\n'] + rest)), ':') == Some(|head| - 2)
    ensures ReadRow(head + (columns + ((" " + text) + ['\n'] + rest))) == Some((Line(offset, ReadColumns(columns, 0), text), rest))
  {
    var more := (" " + text) + ['\n'] + rest;
    RowPieces(head, columns, more);
    HeadPiece(head, columns + more);
    ReadRowAt(head + (columns + more), |head| - 2, offset, columns, more);
    TailPieces(text, rest);
    ReadCutAt(offset, columns, more, text, rest);
  }

  lemma HeadPiece(head: string, more: string)
    requires |head| >= 2
    ensures (head + more)[..|head| - 2] == head[..|head| - 2]
  {
  }

  lemma ReadRowAt(s: string, c: nat, offset: nat, columns: string, more: string)
    requires Find(s, ':') == Some(c) && c + 42 <= |s| && s[c + 2..c + 42] == columns && s[c + 42..] == more
    requires ReadOffset(s[..c]) == offset
    ensures ReadRow(s) == ReadCut(offset, columns, more)
  {
  }

  lemma ReadCutAt(offset: nat, columns: string, more: string, text: string, rest: string)
    requires Find(more, '\n') == Some(|text| + 1) && more[1..|text| + 1] == text && more[|text| + 2..] == rest
    ensures ReadCut(offset, columns, more) == Some((Line(offset, ReadColumns(columns, 0), text), rest))
  {
  }

  lemma RowTextPieces(i: nat, row: seq<Byte>, rest: string)
    ensures RowText(i, row) + rest == RowHead(i) + (Columns(row, ROW) + ((" " + Ascii(row)) + ['\n'] + rest))
  {
  }

  lemma HeadOffset(i: nat)
    ensures |RowHead(i)| >= 2 && ReadOffset(RowHead(i)[..|RowHead(i)| - 2]) == i
  {
    var digits := PaddedHex(i, 4, false);
    PaddedHexReadsBack(i, 4, false);
    assert RowHead(i)[..|RowHead(i)| - 2] == " " + digits && (" " + digits)[1..] == digits;
  }

  /** A row, read with whatever follows it. */
  lemma RowReadsBack(i: nat, row: seq<Byte>, rest: string)
    requires |row| <= ROW
    ensures ReadRow(RowText(i, row) + rest) == Some((Line(i, row, Ascii(row)), rest))
  {
    var head, columns, text := RowHead(i), Columns(row, ROW), Ascii(row);
    ColonInHead(i, columns + ((" " + text) + ['\n'] + rest));
    HeadOffset(i);
    ColumnsLength(row, ROW);
    FortyColumns(ROW);
    ColumnsReadBack(row);
    ReadRowPieces(head, i, columns, text, rest);
    RowTextPieces(i, row, rest);
  }

  lemma ReadDumpRow(s: string, line: Line, rest: string)
    requires ReadRow(s) == Some((line, rest))
    ensures ReadDump(s) == [line] + ReadDump(rest)
  {
  }

  /** The lines of the rows from `i` on. */
  function LinesOf(buffer: seq<Byte>, i: nat): seq<Line>
    decreases |buffer| - i
  {
    if i >= |buffer| then [] else [Line(i, RowAt(buffer, i), Ascii(RowAt(buffer, i)))] + LinesOf(buffer, i + ROW)
  }

  lemma FirstRowReadsBack(buffer: seq<Byte>, i: nat, row: seq<Byte>, rest: string)
    requires i < |buffer| && row == RowAt(buffer, i) && rest == Rows(buffer, i + ROW)
    ensures ReadDump(Rows(buffer, i)) == [Line(i, row, Ascii(row))] + ReadDump(rest)
  {
    RowReadsBack(i, row, rest);
    ReadDumpRow(RowText(i, row) + rest, Line(i, row, Ascii(row)), rest);
  }

  lemma {:induction false} RowsReadBack(buffer: seq<Byte>, i: nat)
    ensures ReadDump(Rows(buffer, i)) == LinesOf(buffer, i)
    decreases |buffer| - i
  {
    if i < |buffer| {
      FirstRowReadsBack(buffer, i, RowAt(buffer, i), Rows(buffer, i + ROW));
      RowsReadBack(buffer, i + ROW);
    }
  }

  function BytesOf(lines: seq<Line>): seq<nat> {
    if lines == [] then [] else lines[0].bytes + BytesOf(lines[1..])
  }

  lemma {:induction false} LinesHoldBuffer(buffer: seq<Byte>, i: nat)
    ensures BytesOf(LinesOf(buffer, i)) == if i < |buffer| then buffer[i..] else []
    decreases |buffer| - i
  {
    if i < |buffer| {
      LinesHoldBuffer(buffer, i + ROW);
      assert LinesOf(buffer, i)[1..] == LinesOf(buffer, i + ROW);
      RowsJoin(buffer, i);
    }
  }

  lemma RowsJoin(buffer: seq<Byte>, i: nat)
    requires i < |buffer|
    ensures RowAt(buffer, i) + (if i + ROW < |buffer| then buffer[i + ROW..] else []) == buffer[i..]
  {
  }

  /** A line at its offset, with as many characters on the right as bytes: every printable byte as it
      is, every other one as a dot. */
  ghost predicate LineShows(line: Line, offset: nat) {
    && line.offset == offset && 1 <= |line.bytes| <= 16 && |line.text| == |line.bytes|
    && forall j :: 0 <= j < |line.bytes| ==>
         line.bytes[j] < 0x100
         && line.text[j] == if 0x20 <= line.bytes[j] <= 0x7e then line.bytes[j] as char else '.'
  }

  lemma {:induction false} LinesShow(buffer: seq<Byte>, i: nat, k: nat)
    requires k < |LinesOf(buffer, i)|
    ensures LineShows(LinesOf(buffer, i)[k], i + 16 * k)
    ensures k + 1 < |LinesOf(buffer, i)| ==> |LinesOf(buffer, i)[k].bytes| == 16
    decreases |buffer| - i
  {
    if k > 0 {
      LinesShow(buffer, i + ROW, k - 1);
    }
  }

  ghost predicate LinesSay(lines: seq<Line>, bytes: seq<Byte>, i: nat) {
    && BytesOf(lines) == bytes
    && (forall k: nat :: k < |lines| ==> LineShows(lines[k], i + 16 * k))
    && forall k: nat :: k + 1 < |lines| ==> |lines[k].bytes| == 16
  }

  lemma RowsSay(buffer: seq<Byte>, i: nat)
    requires i < |buffer|
    ensures LinesSay(ReadDump(Rows(buffer, i)), buffer[i..], i)
  {
    RowsReadBack(buffer, i);
    LinesHoldBuffer(buffer, i);
    var lines := LinesOf(buffer, i);
    forall k: nat | k < |lines|
      ensures LineShows(lines[k], i + 16 * k) && (k + 1 < |lines| ==> |lines[k].bytes| == 16)
    {
      LinesShow(buffer, i, k);
    }
  }

  /** Reading a dump gives lines at the offsets 0, 16, 32 and so on, full but for the last; their
      columns are the dumped bytes in order, and on the right stand the same bytes as text. */
  lemma DumpReadsBack(buffer: seq<Byte>)
    requires buffer != []
    ensures Dump(buffer)[0] == '\n' && LinesSay(ReadDump(Dump(buffer)[1..]), buffer, 0)
  {
    var i := 0;
    RowsSay(buffer, i);
    assert buffer[i..] == buffer && Dump(buffer)[1..] == Rows(buffer, i);
  }

  // ----- the buffer -----

  const SLOT := 75

  /** How many rows a buffer of `n` bytes takes. */
  function RowCount(n: nat): nat {
    (n + ROW - 1) / ROW
  }

  /** The bytes set aside for the dump of `n` bytes. */
  function Dim(n: nat): nat {
    SLOT * (1 + RowCount(n))
  }

  lemma RowLength(i: nat, row: seq<Byte>)
    requires i < 0x8000_0000 && |row| <= ROW
    ensures |RowText(i, row)| <= 69
  {
    Pow16Values();
    HexLength(i, 8, false);
    ColumnsLength(row, ROW);
    FortyColumns(ROW);
  }

  /** The text of the rows and its terminator fit, with room to spare in every row. */
  lemma {:induction false} RowsLength(buffer: seq<Byte>, i: nat)
    requires |buffer| < 0x8000_0000 && i % ROW == 0
    ensures |Rows(buffer, i)| <= if i < |buffer| then 69 * (RowCount(|buffer|) - i / ROW) else 0
    decreases |buffer| - i
  {
    if i < |buffer| {
      RowLength(i, RowAt(buffer, i));
      RowsLength(buffer, i + ROW);
    }
  }

  /** The dump with its NUL never exceeds what was set aside for it. */
  lemma DumpFits(buffer: seq<Byte>)
    requires |buffer| < 0x8000_0000
    ensures |Dump(buffer)| + 1 <= Dim(|buffer|)
  {
    RowsLength(buffer, 0);
  }

  const INT_MAX := 0x7fff_ffff

  /** How many bytes can be dumped before the size, an `int`, overflows. */
  const LIMIT := 28633114 * ROW

  lemma DimFitsInt(n: nat)
    ensures Dim(n) <= INT_MAX <==> n <= LIMIT
  {
  }

  // ----- the loops -----

  lemma RowJoins(done: string, buffer: seq<Byte>, i: nat)
    requires i < |buffer|
    ensures done + Rows(buffer, i) == (done + RowText(i, RowAt(buffer, i))) + Rows(buffer, i + ROW)
  {
  }

  /** The buffer holds `text`, and `pos` is where its terminator stands. */
  ghost predicate Filled(out: array<char>, pos: nat, text: string)
    reads out
  {
    HoldsText(out, text) && pos == |text|
  }

  /** `strcat`, or `sprintf` at the end of the text. */
  method Append(out: array<char>, at: nat, text: string, ghost done: string) returns (pos: nat)
    requires Filled(out, at, done) && |done + text| < out.Length
    modifies out
    ensures Filled(out, pos, done + text)
  {
    PutText(out, at, text);
    pos := at + |text|;
  }

  method AppendColumn(out: array<char>, at: nat, row: seq<Byte>, j: nat, ghost done: string) returns (pos: nat)
    requires Filled(out, at, done) && |done + Column(row, j)| < out.Length
    modifies out
    ensures Filled(out, pos, done + Column(row, j))
  {
    var digits := if j < |row| then PaddedHex(row[j], 2, false) else "  ";
    pos := Append(out, at, digits, done);
    if Odd(j) {
      pos := Append(out, pos, " ", done + digits);
      assert done + digits + " " == done + Column(row, j);
    } else {
      assert digits == Column(row, j);
    }
  }

  lemma ColumnsJoin(done: string, row: seq<Byte>, j: nat)
    requires j < ROW
    ensures done + Columns(row, j + 1) == (done + Columns(row, j)) + Column(row, j)
    ensures |Columns(row, j + 1)| <= 40
  {
    ColumnsLength(row, j + 1);
    FortyColumns(j + 1);
  }

  method AppendColumns(out: array<char>, at: nat, row: seq<Byte>, ghost done: string) returns (pos: nat)
    requires |row| <= ROW && Filled(out, at, done) && |done| + 40 < out.Length
    modifies out
    ensures Filled(out, pos, done + Columns(row, ROW))
  {
    pos := at;
    var j := 0;
    assert done + Columns(row, 0) == done;
    while j < |row|
      invariant 0 <= j <= |row| && Filled(out, pos, done + Columns(row, j))
    {
      ColumnsJoin(done, row, j);
      pos := AppendColumn(out, pos, row, j, done + Columns(row, j));
      j := j + 1;
    }
    while j < ROW
      invariant |row| <= j <= ROW && Filled(out, pos, done + Columns(row, j))
    {
      ColumnsJoin(done, row, j);
      pos := AppendColumn(out, pos, row, j, done + Columns(row, j));
      j := j + 1;
    }
  }

  lemma AsciiJoin(done: string, ascii: string, j: nat)
    requires j < |ascii|
    ensures done + ascii[..j + 1] == done + ascii[..j] + [ascii[j]]
  {
  }

  method AppendAscii(out: array<char>, at: nat, row: seq<Byte>, ghost done: string) returns (pos: nat)
    requires Filled(out, at, done) && |done| + |row| < out.Length
    modifies out
    ensures Filled(out, pos, done + Ascii(row))
  {
    ghost var ascii := Ascii(row);
    pos := at;
    var j := 0;
    assert done + ascii[..0] == done;
    while j < |row|
      invariant 0 <= j <= |row| && Filled(out, pos, done + ascii[..j])
    {
      AsciiJoin(done, ascii, j);
      var c := if IsPrint(row[j]) then row[j] as char else '.';
      pos := Append(out, pos, [c], done + ascii[..j]);
      j := j + 1;
    }
    assert ascii[..j] == ascii;
  }

  lemma RowTextJoins(done: string, head: string, columns: string, ascii: string)
    ensures done + (head + columns + " " + ascii + "\n") == done + head + columns + " " + ascii + "\n"
  {
  }

  method AppendRow(out: array<char>, at: nat, i: nat, row: seq<Byte>, ghost done: string) returns (pos: nat)
    requires |row| <= ROW && Filled(out, at, done) && |done + RowText(i, row)| < out.Length
    modifies out
    ensures Filled(out, pos, done + RowText(i, row))
  {
    ColumnsLength(row, ROW);
    FortyColumns(ROW);
    ghost var head, columns, ascii := RowHead(i), Columns(row, ROW), Ascii(row);
    RowTextJoins(done, head, columns, ascii);
    pos := Append(out, at, RowHead(i), done);
    pos := AppendColumns(out, pos, row, done + head);
    pos := Append(out, pos, " ", done + head + columns);
    pos := AppendAscii(out, pos, row, done + head + columns + " ");
    pos := Append(out, pos, "\n", done + head + columns + " " + ascii);
  }

  lemma DimGrows(i: nat)
    ensures Dim(i + 1) == if i % ROW == 0 then Dim(i) + SLOT else Dim(i)
    ensures i <= LIMIT && i % ROW != 0 ==> i + 1 <= LIMIT
  {
  }

  /** The loop that works the size out; None once it overflows. */
  method ComputeDim(n: nat) returns (r: Option<nat>)
    ensures r == if n <= LIMIT then Some(Dim(n)) else None
  {
    var dim := SLOT;
    for i := 0 to n
      invariant dim == Dim(i) && i <= LIMIT
    {
      DimGrows(i);
      DimFitsInt(i + 1);
      if i % ROW == 0 {
        if dim > INT_MAX - SLOT {
          return None;
        }
        dim := dim + SLOT;
      }
    }
    r := Some(dim);
  }

  /** The loop over the rows, into a buffer that has room. */
  method FillRows(buffer: seq<Byte>, out: array<char>)
    requires buffer != [] && HoldsText(out, "\n") && |Dump(buffer)| < out.Length
    modifies out
    ensures HoldsText(out, Dump(buffer))
  {
    var pos, i := 1, 0;
    ghost var done, dump := "\n", Dump(buffer);
    while i < |buffer|
      invariant Filled(out, pos, done)
      invariant |dump| < out.Length && dump == done + Rows(buffer, i)
      decreases |buffer| - i
    {
      var row := RowAt(buffer, i);
      RowJoins(done, buffer, i);
      pos := AppendRow(out, pos, i, row, done);
      done := done + RowText(i, row);
      i := i + ROW;
    }
    assert dump == done;
  }

  /** `hex_format`. The result has exactly the size computed beforehand, and nothing is written
      outside it; None stands for the overflow of the size, which happens just for buffers above
      the limit. */
  method HexFormat(buffer: seq<Byte>) returns (out: Option<array<char>>)
    requires |buffer| <= INT_MAX
    ensures out.None? <==> |buffer| > LIMIT
    ensures out.Some? ==> fresh(out.value) && HoldsText(out.value, Dump(buffer))
    ensures out.Some? && buffer != [] ==> out.value.Length == Dim(|buffer|)
  {
    if |buffer| == 0 {
      var empty := new char[1](_ => NUL);
      return Some(empty);
    }
    var dim := ComputeDim(|buffer|);
    if dim.None? {
      return None;
    }
    var hexdata := new char[dim.value](_ => NUL);
    DumpFits(buffer);
    PutText(hexdata, 0, "\n");
    FillRows(buffer, hexdata);
    out := Some(hexdata);
  }
}
