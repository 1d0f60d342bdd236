/** cmd_hexdump of shell/commands.c, and a reader that recovers the file from its output. */
module Hexdump {
  import opened Machine
  import opened Format
  import opened Slices

  lemma JoinMore(a: seq<Byte>, b: seq<Byte>, c: seq<Byte>)
    ensures (a + b) + c == a + (b + c)
  {
  }

  /** The parts from `i` on, one after the other. */
  function Join(parts: seq<seq<Byte>>, i: nat): seq<Byte>
    requires i <= |parts|
    decreases |parts| - i
  {
    if i == |parts| then [] else parts[i] + Join(parts, i + 1)
  }

  // ---- The output --------------------------------------------------------------------------------

  /** "%08x". */
  function Offset(off: nat): seq<Byte> {
    Field(Numeral(off, 16, false), 8, false, 48)
  }

  /** "%02x ". */
  function Cell(b: Byte): seq<Byte> {
    Field(Numeral(b, 16, false), 2, false, 48) + [32]
  }

  /** What is printed for place `i` of a row: the byte, or blanks when the file ends before it, and
      a gap in the middle of the row. */
  function Piece(d: seq<Byte>, i: nat): seq<Byte> {
    (if i < |d| then Cell(d[i]) else Repeat(32, 3)) + if i == 7 then [32] else []
  }

  /** The hexadecimal part of a row. */
  function Pieces(d: seq<Byte>): seq<seq<Byte>> {
    seq(16, i requires 0 <= i => Piece(d, i))
  }

  function Cells(d: seq<Byte>): seq<Byte> {
    Join(Pieces(d), 0)
  }

  function Shown(b: Byte): Byte {
    if 0x20 <= b < 0x7F then b else 46
  }

  /** The printable column. */
  function Text(d: seq<Byte>): seq<Byte> {
    seq(|d|, k requires 0 <= k < |d| => Shown(d[k]))
  }

  /** One row: `d` holds its bytes, at most sixteen. */
  function Row(off: nat, d: seq<Byte>): seq<Byte> {
    Join(seq(6, k => Part(off, d, k)), 0)
  }

  function Part(off: nat, d: seq<Byte>, k: int): seq<Byte> {
    match k
    case 0 => Offset(off)
    case 1 => [32, 32]
    case 2 => Cells(d)
    case 3 => [32, 124]
    case 4 => Text(d)
    case _ => [124, 10]
  }

  /** The bytes of the row that starts at `off`. */
  function Chunk(data: seq<Byte>, off: nat): seq<Byte>
    requires off <= |data|
  {
    if off + 16 <= |data| then data[off..off + 16] else data[off..]
  }

  /** The rows of a file, sixteen bytes each but the last. */
  function Rows(data: seq<Byte>): seq<seq<Byte>> {
    seq((|data| + 15) / 16, l requires 0 <= l < (|data| + 15) / 16 => Row(16 * l, Chunk(data, 16 * l)))
  }

  function Dump(data: seq<Byte>): seq<Byte> {
    Join(Rows(data), 0)
  }

  // ---- Where things stand in a row ---------------------------------------------------------------

  /** Where place `i` of the hexadecimal part begins. */
  function Column(i: nat): nat {
    3 * i + if i > 7 then 1 else 0
  }

  lemma OffsetMeaning(off: Word)
    ensures |Offset(off)| == 8 && Parse(Offset(off), 16) == off
  {
    WordLength(off, 16, false);
    ZeroField(off, 16, false, 8);
  }

  function TwoDigits(hi: Byte, lo: Byte): nat {
    16 * DigitValue(hi) + DigitValue(lo)
  }

  lemma ParseTwo(s: seq<Byte>)
    requires |s| == 2
    ensures Parse(s, 16) == TwoDigits(s[0], s[1])
  {
    assert s[..1][..0] == [];
    assert Parse(s[..1], 16) == DigitValue(s[0]);
  }

  lemma CellMeaning(b: Byte)
    ensures |Cell(b)| == 3 && TwoDigits(Cell(b)[0], Cell(b)[1]) == b
  {
    assert Power(16, 2) == 256;
    NumeralLength(b, 16, false, 2);
    ZeroField(b, 16, false, 2);
    ParseTwo(Field(Numeral(b, 16, false), 2, false, 48));
  }

  lemma PieceMeaning(d: seq<Byte>, i: nat)
    ensures |Piece(d, i)| == Column(i + 1) - Column(i)
    ensures i < |d| ==> TwoDigits(Piece(d, i)[0], Piece(d, i)[1]) == d[i]
  {
    if i < |d| {
      CellMeaning(d[i]);
    }
  }

  /** Pieces as wide as their columns. */
  ghost predicate Aligned(ps: seq<seq<Byte>>) {
    |ps| == 16 && forall i :: 0 <= i < 16 ==> |ps[i]| == Column(i + 1) - Column(i)
  }

  lemma {:induction false} AlignedJoin(ps: seq<seq<Byte>>, i: nat)
    requires Aligned(ps) && i <= 16
    ensures |Join(ps, i)| == Column(16) - Column(i)
    decreases 16 - i
  {
    if i < 16 {
      AlignedJoin(ps, i + 1);
    }
  }

  /** Piece `k` stands at its column. */
  lemma {:induction false} PieceStands(ps: seq<seq<Byte>>, i: nat, k: nat)
    requires Aligned(ps) && i <= k < 16
    ensures Stands(Join(ps, i), Column(k) - Column(i), ps[k])
    decreases 16 - i
  {
    if i == k {
      StandsFront(ps[i], Join(ps, i + 1));
    } else {
      PieceStands(ps, i + 1, k);
      StandsBehind(ps[i], Join(ps, i + 1), Column(k) - Column(i + 1), ps[k]);
    }
  }

  lemma PiecesAligned(d: seq<Byte>)
    ensures Aligned(Pieces(d))
    ensures forall i :: 0 <= i < 16 && i < |d| ==>
      |Pieces(d)[i]| != 0 && |Pieces(d)[i]| != 1 && TwoDigits(Pieces(d)[i][0], Pieces(d)[i][1]) == d[i]
  {
    forall i | 0 <= i < 16
      ensures |Pieces(d)[i]| == Column(i + 1) - Column(i)
      ensures i < |d| ==> TwoDigits(Pieces(d)[i][0], Pieces(d)[i][1]) == d[i]
    {
      PieceMeaning(d, i);
    }
  }

  /** The two digits at place `k` are byte `k`. */
  lemma CellsDigits(d: seq<Byte>, k: nat)
    requires k < 16 && k < |d|
    ensures var c := Cells(d);
      Column(k) + 2 <= |c| && TwoDigits(c[Column(k)], c[Column(k) + 1]) == d[k]
  {
    var ps := Pieces(d);
    PiecesAligned(d);
    PieceStands(ps, 0, k);
    StandsAt(Cells(d), Column(k), ps[k], 0);
    StandsAt(Cells(d), Column(k), ps[k], 1);
  }

  lemma CellsLength(d: seq<Byte>)
    ensures |Cells(d)| == 49
  {
    PiecesAligned(d);
    AlignedJoin(Pieces(d), 0);
  }

  lemma JoinSix(l: seq<seq<Byte>>)
    requires |l| == 6
    ensures Join(l, 0) == l[0] + l[1] + l[2] + l[3] + l[4] + l[5]
  {
    assert Join(l, 5) == l[5] + [];
    assert Join(l, 4) == l[4] + l[5];
    assert Join(l, 3) == l[3] + (l[4] + l[5]);
    assert Join(l, 2) == l[2] + (l[3] + (l[4] + l[5]));
    assert Join(l, 1) == l[1] + (l[2] + (l[3] + (l[4] + l[5])));
  }

  lemma SixParts(l: seq<seq<Byte>>)
    requires |l| == 6
    ensures var r := Join(l, 0);
      && |r| == |l[0]| + |l[1]| + |l[2]| + |l[3]| + |l[4]| + |l[5]|
      && Stands(r, 0, l[0]) && Stands(r, |l[0]| + |l[1]|, l[2]) && Stands(r, |l[0]| + |l[1]| + |l[2]| + |l[3]|, l[4])
  {
    JoinSix(l);
  }

  /** A row's offset, its cells and its text, and where they stand. */
  lemma RowParts(off: Word, d: seq<Byte>) returns (o: seq<Byte>, c: seq<Byte>, t: seq<Byte>)
    ensures |Row(off, d)| == 63 + |d|
    ensures Stands(Row(off, d), 0, o) && |o| == 8 && Parse(o, 16) == off
    ensures Stands(Row(off, d), 10, c) && c == Cells(d)
    ensures Stands(Row(off, d), 61, t) && t == Text(d)
  {
    var l := seq(6, k => Part(off, d, k));
    OffsetMeaning(off);
    CellsLength(d);
    SixParts(l);
    o, c, t := l[0], l[2], l[4];
  }

  predicate LowerHex(c: Byte) {
    48 <= c <= 57 || 97 <= c <= 102
  }

  lemma DigitsLower(v: nat, width: nat)
    ensures forall c :: c in Field(Numeral(v, 16, false), width, false, 48) ==> LowerHex(c)
  {
    NumeralCase(v, 16, false);
  }

  /** Place `i` of a row: two digits and a space, or three spaces behind the end of the file; and one
      more space behind the eighth place. */
  ghost predicate PlaceOK(r: seq<Byte>, d: seq<Byte>, i: nat, at: nat) {
    && at + 3 <= |r| && r[at + 2] == 32
    && (if i < |d| then LowerHex(r[at]) && LowerHex(r[at + 1]) && TwoDigits(r[at], r[at + 1]) == d[i]
        else r[at] == 32 && r[at + 1] == 32)
    && (i == 7 ==> at + 3 < |r| && r[at + 3] == 32)
  }

  lemma PieceOK(d: seq<Byte>, i: nat)
    requires i < 16
    ensures PlaceOK(Piece(d, i), d, i, 0)
  {
    if i < |d| {
      CellMeaning(d[i]);
      DigitsLower(d[i], 2);
    }
  }

  lemma PlaceMoved(r: seq<Byte>, out: seq<Byte>, p: nat, d: seq<Byte>, i: nat, at: nat, q: nat)
    requires Stands(out, p, r) && PlaceOK(r, d, i, at) && q == p + at
    ensures PlaceOK(out, d, i, q)
  {
    StandsEverywhere(out, p, r);
    assert out[p + at] == r[at] && out[p + at + 1] == r[at + 1] && out[p + at + 2] == r[at + 2];
    assert i == 7 ==> out[p + at + 3] == r[at + 3];
  }

  lemma PieceAt(d: seq<Byte>, i: nat) returns (p: seq<Byte>, at: nat)
    requires i < 16
    ensures at == 3 * i + (if i < 8 then 0 else 1) && p == Piece(d, i) && Stands(Cells(d), at, p)
  {
    p, at := Piece(d, i), Column(i);
    PiecesAligned(d);
    PieceStands(Pieces(d), 0, i);
  }

  lemma CellsPlace(d: seq<Byte>, i: nat) returns (at: nat)
    requires i < 16
    ensures at == 3 * i + (if i < 8 then 0 else 1) && PlaceOK(Cells(d), d, i, at)
  {
    var p;
    p, at := PieceAt(d, i);
    PieceOK(d, i);
    PlaceMoved(p, Cells(d), at, d, i, 0, at);
  }

  /** A row byte by byte: eight digits, two spaces, sixteen places, " |", a character for every byte,
      "|" and a line feed. */
  lemma RowLayout(off: Word, d: seq<Byte>)
    ensures var r := Row(off, d);
      && |r| == 63 + |d| && (forall k :: 0 <= k < 8 ==> LowerHex(r[k])) && Parse(r[0..8], 16) == off
      && r[8] == 32 && r[9] == 32 && r[59] == 32 && r[60] == 124 && r[61 + |d|] == 124 && r[62 + |d|] == 10
    ensures forall k :: 0 <= k < |d| ==> Row(off, d)[61 + k] == if 0x20 <= d[k] <= 0x7E then d[k] else 46
  {
    RowEnds(off, d);
    RowOffset(off, Row(off, d));
    RowText(off, d);
  }

  lemma RowOffset(off: Word, r: seq<Byte>)
    requires 8 <= |r| && r[0..8] == Offset(off)
    ensures Parse(r[0..8], 16) == off && forall k :: 0 <= k < 8 ==> LowerHex(r[k])
  {
    OffsetMeaning(off);
    DigitsLower(off, 8);
    forall k | 0 <= k < 8 ensures LowerHex(r[k]) {
      assert r[k] == Offset(off)[k];
    }
  }

  lemma RowText(off: Word, d: seq<Byte>)
    ensures |Row(off, d)| == 63 + |d|
    ensures forall k :: 0 <= k < |d| ==> Row(off, d)[61 + k] == if 0x20 <= d[k] <= 0x7E then d[k] else 46
  {
    var o, c, t := RowParts(off, d);
    forall k | 0 <= k < |d| ensures Row(off, d)[61 + k] == Shown(d[k]) {
      StandsAt(Row(off, d), 61, t, k);
    }
  }

  lemma RowPlaces(off: Word, d: seq<Byte>, i: nat) returns (at: nat)
    requires i < 16
    ensures at == 10 + 3 * i + (if i < 8 then 0 else 1) && PlaceOK(Row(off, d), d, i, at)
  {
    var o, c, t := RowParts(off, d);
    var p := CellsPlace(d, i);
    at := 10 + p;
    PlaceMoved(c, Row(off, d), 10, d, i, p, at);
  }

  lemma RowEnds(off: Word, d: seq<Byte>)
    ensures var r := Row(off, d);
      && |r| == 63 + |d| && r[8] == 32 && r[9] == 32 && r[59] == 32 && r[60] == 124
      && r[61 + |d|] == 124 && r[62 + |d|] == 10 && r[0..8] == Offset(off)
  {
    var l := seq(6, k => Part(off, d, k));
    OffsetMeaning(off);
    CellsLength(d);
    JoinSix(l);
  }

  // ---- The reader -----------------------------------------------------------------------------------

  /** How long the file was: a full row takes 79 bytes, and a shorter one 63 more than it shows. */
  function ReadSize(out: seq<Byte>): int {
    SizeFrom(|out|)
  }

  function SizeFrom(m: nat): int {
    16 * (m / 79) + if m % 79 == 0 then 0 else m % 79 - 63
  }

  /** The length of the dump of `n` bytes. */
  function DumpSize(n: nat): nat {
    79 * (n / 16) + if n % 16 == 0 then 0 else 63 + n % 16
  }

  lemma SizeBack(n: nat)
    ensures SizeFrom(DumpSize(n)) == n
  {
    var q, r := n / 16, n % 16;
    var m := DumpSize(n);
    assert m / 79 == q && m % 79 == if r == 0 then 0 else 63 + r;
  }

  /** The offset printed in front of row `l`. */
  function ReadOffset(out: seq<Byte>, l: nat): nat
    requires 79 * l + 8 <= |out|
  {
    Parse(out[79 * l..79 * l + 8], 16)
  }

  /** The two digits at place `i` of row `l`. */
  function ReadByte(out: seq<Byte>, l: nat, i: nat): nat
    requires 79 * l + 12 + Column(i) <= |out|
  {
    TwoDigits(out[79 * l + 10 + Column(i)], out[79 * l + 11 + Column(i)])
  }

  /** Rows of 79 bytes, but for the last one. */
  ghost predicate Regular(rows: seq<seq<Byte>>) {
    forall l :: 0 <= l < |rows| - 1 ==> |rows[l]| == 79
  }

  lemma {:induction false} RowStands(rows: seq<seq<Byte>>, i: nat, l: nat)
    requires Regular(rows) && i <= l < |rows|
    ensures Stands(Join(rows, i), 79 * (l - i), rows[l])
    decreases l - i
  {
    if l == i {
      StandsFront(rows[i], Join(rows, i + 1));
    } else {
      RowStands(rows, i + 1, l);
      StandsBehind(rows[i], Join(rows, i + 1), 79 * (l - i - 1), rows[l]);
    }
  }

  lemma {:induction false} RowsLength(rows: seq<seq<Byte>>, i: nat)
    requires Regular(rows) && i <= |rows|
    ensures |Join(rows, i)| == if i == |rows| then 0 else 79 * (|rows| - 1 - i) + |rows[|rows| - 1]|
    decreases |rows| - i
  {
    if i < |rows| {
      RowsLength(rows, i + 1);
    }
  }

  lemma RowsRegular(data: seq<Byte>)
    requires |data| < 0x1_0000_0000
    ensures Regular(Rows(data))
    ensures data != [] ==> |Rows(data)[|Rows(data)| - 1]| == 63 + |data| - 16 * (|Rows(data)| - 1)
  {
    forall l: nat | l < |Rows(data)| ensures |Rows(data)[l]| == 63 + |Chunk(data, 16 * l)| {
      var _, _, _ := RowParts(16 * l, Chunk(data, 16 * l));
    }
  }

  lemma RowsSize(rows: seq<seq<Byte>>, n: nat)
    requires Regular(rows) && |rows| == (n + 15) / 16
    requires 0 < n ==> |rows[|rows| - 1]| == 63 + n - 16 * (|rows| - 1)
    ensures |Join(rows, 0)| == DumpSize(n)
  {
    RowsLength(rows, 0);
    if 0 < n {
      var m := |rows| - 1;
      assert if n % 16 == 0 then n / 16 == m + 1 else n / 16 == m && n % 16 == n - 16 * m;
    }
  }

  lemma DumpLength(data: seq<Byte>)
    requires |data| < 0x1_0000_0000
    ensures |Dump(data)| == DumpSize(|data|)
  {
    RowsRegular(data);
    RowsSize(Rows(data), |data|);
  }

  /** Row `r` tells its offset and byte `i` of it, in digits and as a character. */
  ghost predicate Legible(r: seq<Byte>, off: nat, i: nat, b: Byte) {
    && 12 + Column(i) <= |r| && 61 + i < |r|
    && Parse(r[0..8], 16) == off
    && TwoDigits(r[10 + Column(i)], r[11 + Column(i)]) == b
    && r[61 + i] == Shown(b)
  }

  lemma PartsLegible(r: seq<Byte>, i: nat, o: seq<Byte>, c: seq<Byte>, t: seq<Byte>, b: Byte)
    requires Stands(r, 0, o) && |o| == 8
    requires Stands(r, 10, c) && Column(i) + 2 <= |c| && TwoDigits(c[Column(i)], c[Column(i) + 1]) == b
    requires Stands(r, 61, t) && i < |t| && t[i] == Shown(b)
    ensures Legible(r, Parse(o, 16), i, b)
  {
    StandsAt(r, 10, c, Column(i));
    StandsAt(r, 10, c, Column(i) + 1);
    StandsAt(r, 61, t, i);
  }

  lemma RowLegible(off: Word, d: seq<Byte>, i: nat)
    requires i < 16 && i < |d|
    ensures Legible(Row(off, d), off, i, d[i])
  {
    var o, c, t := RowParts(off, d);
    CellsDigits(d, i);
    PartsLegible(Row(off, d), i, o, c, t, d[i]);
  }

  lemma ReadRowOffset(out: seq<Byte>, l: nat, r: seq<Byte>)
    requires Stands(out, 79 * l, r) && 8 <= |r|
    ensures 79 * l + 8 <= |out| && ReadOffset(out, l) == Parse(r[0..8], 16)
  {
    StandsSlice(out, 79 * l, r, 0, 8);
  }

  lemma ReadRowByte(out: seq<Byte>, l: nat, r: seq<Byte>, i: nat)
    requires Stands(out, 79 * l, r) && 12 + Column(i) <= |r|
    ensures 79 * l + 12 + Column(i) <= |out|
    ensures ReadByte(out, l, i) == TwoDigits(r[10 + Column(i)], r[11 + Column(i)])
  {
    StandsAt(out, 79 * l, r, 10 + Column(i));
    StandsAt(out, 79 * l, r, 11 + Column(i));
  }

  lemma ReadRow(rows: seq<seq<Byte>>, l: nat, off: nat, i: nat, b: Byte)
    requires Regular(rows) && l < |rows| && Legible(rows[l], off, i, b)
    ensures var out := Join(rows, 0);
      && 79 * l + 12 + Column(i) <= |out| && 79 * l + 61 + i < |out|
      && ReadOffset(out, l) == off && ReadByte(out, l, i) == b && out[79 * l + 61 + i] == Shown(b)
  {
    var out, r := Join(rows, 0), rows[l];
    RowStands(rows, 0, l);
    ReadRowOffset(out, l, r);
    ReadRowByte(out, l, r, i);
    StandsAt(out, 79 * l, r, 61 + i);
  }

  /** The reader finds byte `i` of row `l`, the row's offset, and the byte's printable form. */
  lemma ByteRecovered(data: seq<Byte>, l: nat, i: nat)
    requires i < 16 && 16 * l + i < |data| < 0x1_0000_0000
    ensures var out := Dump(data);
      && 79 * l + 12 + Column(i) <= |out| && 79 * l + 61 + i < |out|
      && ReadOffset(out, l) == 16 * l
      && ReadByte(out, l, i) == data[16 * l + i]
      && var b := data[16 * l + i]; out[79 * l + 61 + i] == if 0x20 <= b <= 0x7E then b else 46
  {
    RowsRegular(data);
    RowLegible(16 * l, Chunk(data, 16 * l), i);
    ReadRow(Rows(data), l, 16 * l, i, data[16 * l + i]);
  }

  /** Byte `k` of the file, if the output reaches that far. */
  function ReadAt(out: seq<Byte>, k: nat): nat {
    var l, i := k / 16, k % 16;
    if 79 * l + 12 + Column(i) <= |out| then ReadByte(out, l, i) else 0
  }

  /** Everything the reader gets out of an output. */
  function Undump(out: seq<Byte>): seq<nat> {
    seq(if ReadSize(out) < 0 then 0 else ReadSize(out), k requires 0 <= k => ReadAt(out, k))
  }

  lemma ReadBack(data: seq<Byte>, k: nat)
    requires k < |data| < 0x1_0000_0000
    ensures ReadAt(Dump(data), k) == data[k]
  {
    ByteRecovered(data, k / 16, k % 16);
  }

  /** Reading undoes dumping: every file comes back, size and all. */
  lemma UndumpUndoesDump(data: seq<Byte>)
    requires |data| < 0x1_0000_0000
    ensures ReadSize(Dump(data)) == |data| && Undump(Dump(data)) == data
  {
    SizeRecovered(data);
    var back := Undump(Dump(data));
    forall k | 0 <= k < |data| ensures back[k] == data[k] {
      ReadBack(data, k);
    }
  }

  lemma SizeRecovered(data: seq<Byte>)
    requires |data| < 0x1_0000_0000
    ensures ReadSize(Dump(data)) == |data|
  {
    DumpLength(data);
    SizeBack(|data|);
  }

  // ---- The command -----------------------------------------------------------------------------------

  /** What one round of the first loop prints. */
  method PrintPiece(c: Console, data: seq<Byte>, off: nat, i: nat)
    requires off < |data| && i < 16
    modifies c
    ensures c.out == old(c.out) + Piece(Chunk(data, off), i)
  {
    if off + i < |data| {
      assert data[off + i] == Chunk(data, off)[i];
      c.PrintUnsigned(data[off + i], 16, false, 2, false, 48);
      c.Putc(32);
    } else {
      c.Pad(32, 3);
    }
    if i == 7 {
      c.Putc(32);
    }
  }

  /** The first loop over a row. */
  method PrintCells(c: Console, data: seq<Byte>, off: nat)
    requires off < |data|
    modifies c
    ensures c.out == old(c.out) + Cells(Chunk(data, off))
  {
    ghost var ps := Pieces(Chunk(data, off));
    for i := 0 to 16
      invariant c.out + Join(ps, i) == old(c.out) + Join(ps, 0)
    {
      JoinMore(c.out, ps[i], Join(ps, i + 1));
      PrintPiece(c, data, off, i);
    }
    assert c.out + Join(ps, 16) == c.out;
  }

  /** The second loop over a row. */
  method PrintText(c: Console, data: seq<Byte>, off: nat)
    requires off < |data|
    modifies c
    ensures c.out == old(c.out) + Text(Chunk(data, off))
  {
    ghost var d := Chunk(data, off);
    var i := 0;
    while i < 16 && off + i < |data|
      invariant 0 <= i <= |d|
      invariant c.out == old(c.out) + Text(d)[..i]
    {
      var b := data[off + i];
      c.Putc(if 0x20 <= b < 0x7F then b else 46);
      assert Text(d)[..i + 1] == Text(d)[..i] + [Shown(d[i])];
      i := i + 1;
    }
    assert Text(d)[..i] == Text(d);
  }

  method PrintRow(c: Console, data: seq<Byte>, off: nat)
    requires off < |data| < 0x1_0000_0000
    modifies c
    ensures c.out == old(c.out) + Row(off, Chunk(data, off))
  {
    c.PrintUnsigned(off, 16, false, 8, false, 48);
    c.Write([32, 32]);
    PrintCells(c, data, off);
    c.Write([32, 124]);
    PrintText(c, data, off);
    c.Write([124, 10]);
    RowIs(off, Chunk(data, off));
    SixMore(old(c.out), Offset(off), [32, 32], Cells(Chunk(data, off)), [32, 124], Text(Chunk(data, off)), [124, 10]);
  }

  lemma RowIs(off: nat, d: seq<Byte>)
    ensures Row(off, d) == Offset(off) + [32, 32] + Cells(d) + [32, 124] + Text(d) + [124, 10]
  {
    JoinSix(seq(6, k => Part(off, d, k)));
  }

  lemma SixMore(o: seq<Byte>, a: seq<Byte>, b: seq<Byte>, c: seq<Byte>, d: seq<Byte>, e: seq<Byte>, f: seq<Byte>)
    ensures o + a + b + c + d + e + f == o + (a + b + c + d + e + f)
  {
  }

  /** cmd_hexdump, on the bytes of the file. */
  method Print(c: Console, data: seq<Byte>)
    requires |data| < 0x1_0000_0000
    modifies c
    ensures c.out == old(c.out) + Dump(data)
  {
    var off := 0;
    ghost var rows, l := Rows(data), 0;
    while off < |data|
      invariant off == 16 * l && l <= |rows| && (l < |rows| <==> off < |data|)
      invariant c.out + Join(rows, l) == old(c.out) + Join(rows, 0)
      decreases |data| - off
    {
      JoinMore(c.out, rows[l], Join(rows, l + 1));
      PrintRow(c, data, off);
      off := off + 16;
      l := l + 1;
    }
    assert c.out + Join(rows, l) == c.out;
  }
}
