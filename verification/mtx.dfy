/** `ZMtx`: a fixed-point 4x4 matrix in the console's internal layout, the
    sixteen integer halves followed by the sixteen fractional halves, each a
    big-endian 16-bit value.
 */
module Mtx {
  import opened Wrappers
  import opened Bytes
  import opened Text
  import opened Declarations

  /** `ZMtx::GetRawDataSize`. */
  const MTX_SIZE: nat := 64

  /** The halfwords in one half of the matrix. */
  const HALF_COUNT: nat := 16

  /** A matrix: its name, offset and the integer and fractional parts, row
      by row. */
  datatype ZMtx = ZMtx(name: string, offset: nat, intPart: seq<seq<nat>>, fracPart: seq<seq<nat>>)

  /** Four rows of four 16-bit values. */
  predicate IsHalf(rows: seq<seq<nat>>) {
    |rows| == 4 && forall i :: 0 <= i < 4 ==> |rows[i]| == 4 && forall j :: 0 <= j < 4 ==> rows[i][j] < 0x1_0000
  }

  /** Sixteen values, row by row, as four rows. */
  function Rows(vs: seq<nat>): (rows: seq<seq<nat>>)
    requires |vs| == HALF_COUNT
    ensures |rows| == 4
    ensures forall i :: 0 <= i < 4 ==> |rows[i]| == 4 && forall j :: 0 <= j < 4 ==> rows[i][j] == vs[4 * i + j]
  {
    [vs[0..4], vs[4..8], vs[8..12], vs[12..16]]
  }

  /** Four rows, row by row, as sixteen values: the inverse of `Rows`. */
  function Flatten(rows: seq<seq<nat>>): (vs: seq<nat>)
    requires IsHalf(rows)
    ensures |vs| == HALF_COUNT
  {
    rows[0] + rows[1] + rows[2] + rows[3]
  }

  lemma RowsFlatten(rows: seq<seq<nat>>)
    requires IsHalf(rows)
    ensures Rows(Flatten(rows)) == rows
  {
    var vs := Flatten(rows);
    assert vs[0..4] == rows[0];
    assert vs[4..8] == rows[1];
    assert vs[8..12] == rows[2];
    assert vs[12..16] == rows[3];
  }

  /** `ZMtx::ParseRawData`: 32 consecutive halfwords from `at`; value
      `[i][j]` of the integer part at `at + 2 * (4 * i + j)` and of the
      fractional part 32 bytes further on.  The reads end exactly at the
      matrix's size. */
  function ParseMtx(name: string, buf: Buffer, at: nat): (r: Result<ZMtx>)
    ensures r.Ok? <==> at + MTX_SIZE <= |buf|
    ensures r.Ok? ==> r.value.name == name && r.value.offset == at
    ensures r.Ok? ==> IsHalf(r.value.intPart) && IsHalf(r.value.fracPart)
    ensures r.Ok? ==> forall i, j :: 0 <= i < 4 && 0 <= j < 4 ==>
              r.value.intPart[i][j] == HalfwordAt(buf, at + 2 * (4 * i + j))
    ensures r.Ok? ==> forall i, j :: 0 <= i < 4 && 0 <= j < 4 ==>
              r.value.fracPart[i][j] == HalfwordAt(buf, at + 32 + 2 * (4 * i + j))
    ensures r.Err? ==> r.error.OutOfRange?
  {
    var vs :- ReadHalfwords(buf, at, 2 * HALF_COUNT);
    var intPart := Rows(vs[..HALF_COUNT]);
    var fracPart := Rows(vs[HALF_COUNT..]);
    assert forall i, j :: 0 <= i < 4 && 0 <= j < 4 ==> fracPart[i][j] == vs[HALF_COUNT + 4 * i + j];
    Ok(ZMtx(name, at, intPart, fracPart))
  }

  /** The bytes of a matrix: the integer part then the fractional part, row
      by row. */
  function EncodeMtx(m: ZMtx): (bytes: seq<Byte>)
    requires IsHalf(m.intPart) && IsHalf(m.fracPart)
    ensures |bytes| == MTX_SIZE
  {
    EncodeHalfwords(Flatten(m.intPart) + Flatten(m.fracPart))
  }

  /** Parsing the encoding of a matrix gives the matrix back, wherever it
      sits in the buffer. */
  lemma ParseEncodedMtx(prefix: Buffer, m: ZMtx, suffix: Buffer)
    requires IsHalf(m.intPart) && IsHalf(m.fracPart)
    ensures ParseMtx(m.name, prefix + EncodeMtx(m) + suffix, |prefix|) == Ok(m.(offset := |prefix|))
  {
    var vs := Flatten(m.intPart) + Flatten(m.fracPart);
    assert forall k :: 0 <= k < |vs| ==> vs[k] < 0x1_0000 by {
      forall k | 0 <= k < |vs|
        ensures vs[k] < 0x1_0000
      {
        var half := if k < HALF_COUNT then m.intPart else m.fracPart;
        var k' := if k < HALF_COUNT then k else k - HALF_COUNT;
        assert vs[k] == Flatten(half)[k'];
        assert Flatten(half)[k'] == half[k' / 4][k' % 4];
      }
    }
    ReadEncodedHalfwords(prefix, vs, suffix);
    RowsFlatten(m.intPart);
    RowsFlatten(m.fracPart);
    assert vs[..HALF_COUNT] == Flatten(m.intPart);
    assert vs[HALF_COUNT..] == Flatten(m.fracPart);
  }

  /** The width of one printed value, `%6i`. */
  const CELL_WIDTH: nat := 6

  /** One printed value: `%6i, `. */
  function Cell(v: nat): string {
    PadLeft(Dec(v), CELL_WIDTH) + ", "
  }

  /** One row of the body: a tab, the four values, a line break. */
  function RowText(row: seq<nat>): string
    requires |row| == 4
  {
    "\t" + Cell(row[0]) + Cell(row[1]) + Cell(row[2]) + Cell(row[3]) + "\n"
  }

  /** The length of a row of 16-bit values. */
  const ROW_LEN: nat := 34

  /** A 16-bit value prints in exactly the cell width, at the start of its
      cell. */
  lemma CellWidth(v: nat)
    requires v < 0x1_0000
    ensures |Cell(v)| == CELL_WIDTH + 2 && Cell(v)[..CELL_WIDTH] == PadLeft(Dec(v), CELL_WIDTH)
  {
    DecDigitsFit(v, 5);
  }

  /** Where four cells of eight characters land in a row. */
  lemma CellColumns(a: string, b: string, c: string, d: string)
    requires |a| == 8 && |b| == 8 && |c| == 8 && |d| == 8
    ensures var s := "\t" + a + b + c + d + "\n";
      && |s| == ROW_LEN
      && s[1..7] == a[..6] && s[9..15] == b[..6] && s[17..23] == c[..6] && s[25..31] == d[..6]
  {
    var s := "\t" + a + b + c + d + "\n";
    assert s[1..9] == a;
    assert s[9..17] == b;
    assert s[17..25] == c;
    assert s[25..33] == d;
  }

  /** A row of 16-bit values prints in `ROW_LEN` characters. */
  lemma RowTextWidth(row: seq<nat>)
    requires |row| == 4 && forall j :: 0 <= j < 4 ==> row[j] < 0x1_0000
    ensures |RowText(row)| == ROW_LEN
  {
    CellWidth(row[0]);
    CellWidth(row[1]);
    CellWidth(row[2]);
    CellWidth(row[3]);
  }

  /** The four values of a row sit at columns 1, 9, 17 and 25 of its line,
      each right-aligned in six columns. */
  lemma RowTextLayout(row: seq<nat>)
    requires |row| == 4 && forall j :: 0 <= j < 4 ==> row[j] < 0x1_0000
    ensures |RowText(row)| == ROW_LEN
    ensures RowText(row)[1..7] == PadLeft(Dec(row[0]), CELL_WIDTH)
    ensures RowText(row)[9..15] == PadLeft(Dec(row[1]), CELL_WIDTH)
    ensures RowText(row)[17..23] == PadLeft(Dec(row[2]), CELL_WIDTH)
    ensures RowText(row)[25..31] == PadLeft(Dec(row[3]), CELL_WIDTH)
  {
    CellWidth(row[0]);
    CellWidth(row[1]);
    CellWidth(row[2]);
    CellWidth(row[3]);
    CellColumns(Cell(row[0]), Cell(row[1]), Cell(row[2]), Cell(row[3]));
  }

  /** The eight rows a matrix prints: the integer part's before the
      fractional part's. */
  function AllRows(m: ZMtx): (rows: seq<seq<nat>>)
    requires IsHalf(m.intPart) && IsHalf(m.fracPart)
    ensures |rows| == 8
    ensures forall r :: 0 <= r < 8 ==> |rows[r]| == 4 && forall j :: 0 <= j < 4 ==> rows[r][j] < 0x1_0000
    ensures forall r :: 0 <= r < 4 ==> rows[r] == m.intPart[r] && rows[r + 4] == m.fracPart[r]
  {
    m.intPart + m.fracPart
  }

  /** The printed rows. */
  function Lines(m: ZMtx): (lines: seq<string>)
    requires IsHalf(m.intPart) && IsHalf(m.fracPart)
    ensures |lines| == 8 && forall r :: 0 <= r < 8 ==> lines[r] == RowText(AllRows(m)[r])
  {
    var rows := AllRows(m);
    seq(8, r requires 0 <= r < 8 => RowText(rows[r]))
  }

  /** Every printed row has the same length. */
  lemma LinesWidth(m: ZMtx)
    requires IsHalf(m.intPart) && IsHalf(m.fracPart)
    ensures forall r :: 0 <= r < 8 ==> |Lines(m)[r]| == ROW_LEN
  {
    var rows := AllRows(m);
    forall r | 0 <= r < 8
      ensures |Lines(m)[r]| == ROW_LEN
    {
      RowTextWidth(rows[r]);
    }
  }

  /** `ZMtx::GetBodySourceCode`. */
  function MtxBody(m: ZMtx): string
    requires IsHalf(m.intPart) && IsHalf(m.fracPart)
  {
    "\n" + Concat(Lines(m))
  }

  /** The body is a line break and then eight lines of equal length: cut
      into rows it gives back the printed rows, the integer part's first.
      With `RowTextLayout`, value `[r][c]` is printed at column `1 + 8 * c`
      of line `r`. */
  lemma MtxBodyLines(m: ZMtx)
    requires IsHalf(m.intPart) && IsHalf(m.fracPart)
    ensures |MtxBody(m)| == 1 + 8 * ROW_LEN && MtxBody(m)[0] == '\n'
    ensures Split(MtxBody(m)[1..], ROW_LEN, 8) == Lines(m)
  {
    LinesWidth(m);
    SplitConcat(Lines(m), ROW_LEN);
    assert MtxBody(m)[1..] == Concat(Lines(m));
  }

  /** `ZMtx::GetDefaultName`. */
  function DefaultName(prefix: string, at: nat): string {
    prefix + "Mtx_" + HexPad(at, 6)
  }

  /** The declaration a matrix gets: 8-byte aligned, of the matrix's size,
      of type `MatrixInternal`. */
  function MtxDecl(m: ZMtx, prefix: string, body: string): (d: Decl)
    ensures d.alignment == Align8 && d.size == MTX_SIZE && d.typeName == "MatrixInternal" && d.kind == Scalar
    ensures d.text == body && (m.name != "" ==> d.varName == m.name)
    ensures m.name == "" ==> d.varName == DefaultName(prefix, m.offset)
  {
    Decl(Align8, PadNone, MTX_SIZE, "MatrixInternal", AuxName(m.name, DefaultName(prefix, m.offset)), Scalar, body)
  }

  /** `ZMtx::DeclareVar`. */
  function DeclareVar(m: ZMtx, prefix: string, body: string, t: DeclTable): (r: DeclTable)
    ensures OnlyChangedAt(t, r, m.offset)
    ensures r[m.offset] == MtxDecl(m, prefix, body)
  {
    AddDeclaration(t, m.offset, Align8, PadNone, MTX_SIZE, "MatrixInternal",
                   AuxName(m.name, DefaultName(prefix, m.offset)), body)
  }

  /** `ZMtx::ExtractFromXML`: the matrix named in the XML is read at `at`
      and declared with an empty body. */
  function ExtractMtx(name: string, buf: Buffer, at: nat, t: DeclTable): (r: Result<(ZMtx, DeclTable)>)
    ensures r.Ok? <==> at + MTX_SIZE <= |buf|
    ensures r.Ok? ==> r.value.0 == ParseMtx(name, buf, at).value
    ensures r.Ok? ==> OnlyChangedAt(t, r.value.1, at) && r.value.1[at] == MtxDecl(r.value.0, "", "")
  {
    var m :- ParseMtx(name, buf, at);
    Ok((m, DeclareVar(m, "", "", t)))
  }

  /** The `ZMtx(prefix, rawData, rawDataIndex, parent)` constructor.  It
      names the matrix from the `rawDataIndex` field before reading sets
      that field, so the name comes from the value the field held before
      the call, `priorIndex`, and not from `at`.  The matrix is then read
      at `at` and declared there with an empty body under that name. */
  function NewMtx(prefix: string, buf: Buffer, at: nat, priorIndex: nat, t: DeclTable): (r: Result<(ZMtx, DeclTable)>)
    ensures r.Ok? <==> at + MTX_SIZE <= |buf|
    ensures r.Ok? ==> r.value.0 == ParseMtx(DefaultName(prefix, priorIndex), buf, at).value
    ensures r.Ok? ==> r.value.0.name == DefaultName(prefix, priorIndex) && r.value.0.offset == at
    ensures r.Ok? ==> OnlyChangedAt(t, r.value.1, at) && r.value.1[at] == MtxDecl(r.value.0, "", "")
    ensures r.Ok? ==> r.value.1[at].varName == DefaultName(prefix, priorIndex)
  {
    ExtractMtx(DefaultName(prefix, priorIndex), buf, at, t)
  }

  /** The name does not depend on where the matrix is: two matrices this
      constructor reads at different offsets, with the same field value
      before the call, are declared under the same name. */
  lemma NewMtxNameIgnoresOffset(prefix: string, buf: Buffer, at1: nat, at2: nat, priorIndex: nat,
                                t1: DeclTable, t2: DeclTable)
    requires NewMtx(prefix, buf, at1, priorIndex, t1).Ok? && NewMtx(prefix, buf, at2, priorIndex, t2).Ok?
    ensures NewMtx(prefix, buf, at1, priorIndex, t1).value.1[at1].varName
         == NewMtx(prefix, buf, at2, priorIndex, t2).value.1[at2].varName
  {
  }

  /** `ZMtx::GetSourceOutputCode`: the body replaces the text of a
      declaration already at the offset, or the matrix is declared. */
  function MtxOutput(m: ZMtx, prefix: string, t: DeclTable): (r: DeclTable)
    requires IsHalf(m.intPart) && IsHalf(m.fracPart)
    ensures OnlyChangedAt(t, r, m.offset)
    ensures r[m.offset].text == MtxBody(m)
    ensures m.offset in t ==> r[m.offset] == t[m.offset].(text := MtxBody(m))
    ensures m.offset !in t ==> r[m.offset] == MtxDecl(m, prefix, MtxBody(m))
  {
    DeclareOrPatch(t, m.offset, MtxDecl(m, prefix, MtxBody(m)))
  }
}
