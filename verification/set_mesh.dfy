/** The room mesh command and the records it points at: `PolygonDlist`
    (mesh type 0 entries and the type 1 display-list record), `BgImage`
    (prerendered backgrounds of mesh type 1), `PolygonType1`,
    `PolygonDlist2` and `PolygonType2`.

    Every record is a run of big-endian fields at fixed offsets, read with
    bounds-checked reads.  A record's layout is stated as a predicate over
    the buffer (`...At`), and each parser returns exactly the record whose
    layout the buffer holds.  Output steps update the file's declaration
    table; pointers are rendered by the declaration found at their target
    offset, with raw hex when none is there.
 */
module SetMesh {
  import opened Wrappers
  import opened Bytes
  import opened Text
  import opened Segments
  import opened Declarations
  import Background

  // ---------------------------------------------------------------------
  // PolygonDlist

  /** A `PolygonDlist`: the opaque and the translucent display list of one
      mesh part. */
  datatype PolygonDlist = PolygonDlist(name: string, offset: nat, opa: U32, xlu: U32)

  const POLYGON_DLIST_SIZE: nat := 0x08

  /** `PolygonDlist::GetDefaultName`. */
  function PolygonDlistName(prefix: string, at: nat): string {
    prefix + "PolyDlist_" + HexPad(at, 6)
  }

  /** The layout: `opa` at +0 and `xlu` at +4, four bytes each. */
  predicate PolygonDlistAt(buf: Buffer, at: nat, opa: nat, xlu: nat) {
    FieldIs(buf, at, 4, opa) && FieldIs(buf, at + 4, 4, xlu)
  }

  /** The `PolygonDlist` constructor's reads (`ParseRawData`). */
  function ParsePolygonDlist(prefix: string, buf: Buffer, at: nat): (r: Result<PolygonDlist>)
    ensures r.Ok? <==> at + POLYGON_DLIST_SIZE <= |buf|
    ensures r.Ok? ==> r.value.name == PolygonDlistName(prefix, at) && r.value.offset == at
    ensures r.Ok? ==> PolygonDlistAt(buf, at, r.value.opa, r.value.xlu)
    ensures r.Err? ==> r.error.OutOfRange?
  {
    var opa :- ReadU32BE(buf, at);
    var xlu :- ReadU32BE(buf, at + 4);
    Ok(PolygonDlist(PolygonDlistName(prefix, at), at, opa, xlu))
  }

  /** The parse returns exactly the record the buffer holds. */
  lemma ParsePolygonDlistExactly(prefix: string, buf: Buffer, at: nat, opa: U32, xlu: U32)
    requires PolygonDlistAt(buf, at, opa, xlu)
    ensures ParsePolygonDlist(prefix, buf, at) == Ok(PolygonDlist(PolygonDlistName(prefix, at), at, opa, xlu))
  {
    ReadField(buf, at, 4, opa);
    ReadField(buf, at + 4, 4, xlu);
  }

  /** How a `PolygonDlist` names a display list it points at: "NULL" for a
      null pointer, the declared name at the pointer's file offset, and the
      pointer in hex when nothing is declared there. */
  function DlistPtrText(p: U32, base: nat, s2f: Seg2FilespaceFn, t: DeclTable): (s: string)
    ensures p == 0 ==> s == "NULL"
    ensures p != 0 && s2f(p, base) in t ==> s == t[s2f(p, base)].varName
    ensures p != 0 && s2f(p, base) !in t ==> s == RawPointer(p)
  {
    if p == 0 then "NULL"
    else if s2f(p, base) in t then t[s2f(p, base)].varName
    else RawPointer(p)
  }

  /** The lines of a `PolygonDlist`'s text: its two display lists. */
  function PolygonDlistLines(d: PolygonDlist, base: nat, s2f: Seg2FilespaceFn, t: DeclTable): seq<string> {
    [DlistPtrText(d.opa, base, s2f, t) + ", ", DlistPtrText(d.xlu, base, s2f, t) + ", "]
  }

  /** `PolygonDlist::GetBodySourceCode`: the two display lists, each on a
      line of its own indented by four spaces; as an array element the
      lines are indented by eight and the record is braced. */
  function PolygonDlistBody(d: PolygonDlist, arrayElement: bool, base: nat, s2f: Seg2FilespaceFn, t: DeclTable): string {
    var lines := PolygonDlistLines(d, base, s2f, t);
    if arrayElement then "    { \n        " + Join(lines, "\n        ") + "\n    },"
    else "\n    " + Join(lines, "\n    ") + "\n"
  }

  /** No declared name in the table spans more than one line. */
  predicate OneLineNames(t: DeclTable) {
    forall k :: k in t ==> '\n' !in t[k].varName
  }

  /** A raw pointer is printed on one line. */
  lemma RawPointerOneLine(p: nat)
    ensures '\n' !in RawPointer(p)
  {
    var s := RawPointer(p);
    forall i | 0 <= i < |s|
      ensures s[i] != '\n'
    {
      if i >= 2 {
        assert s[i] == s[2..][i - 2];
      } else {
        assert s[i] == s[..2][i];
      }
    }
  }

  /** A pointer to a display list is printed on one line. */
  lemma DlistPtrTextOneLine(p: U32, base: nat, s2f: Seg2FilespaceFn, t: DeclTable)
    requires OneLineNames(t)
    ensures '\n' !in DlistPtrText(p, base, s2f, t)
  {
    RawPointerOneLine(p);
  }

  /** As an array element, a `PolygonDlist` is its standalone text indented
      one level and wrapped in braces. */
  lemma PolygonDlistElementIsIndented(d: PolygonDlist, base: nat, s2f: Seg2FilespaceFn, t: DeclTable)
    requires OneLineNames(t)
    ensures PolygonDlistBody(d, true, base, s2f, t) == "    { " + IndentLines(PolygonDlistBody(d, false, base, s2f, t)) + "},"
  {
    var lines := PolygonDlistLines(d, base, s2f, t);
    DlistPtrTextOneLine(d.opa, base, s2f, t);
    DlistPtrTextOneLine(d.xlu, base, s2f, t);
    assert '\n' !in lines[0] && '\n' !in lines[1];
    BracedBlock(lines);
  }

  /** Lines on their own indented lines, braced as an array element, are
      the standalone block indented once more. */
  lemma BracedBlock(lines: seq<string>)
    requires forall i :: 0 <= i < |lines| ==> '\n' !in lines[i]
    ensures "    { \n        " + Join(lines, "\n        ") + "\n    },"
         == "    { " + IndentLines("\n    " + Join(lines, "\n    ") + "\n") + "},"
  {
    IndentJoinedLines(lines);
    IndentFramed(Join(lines, "\n    "));
    BraceFrame(Join(lines, "\n        "));
  }

  /** Splitting the element's literal frame around its indented body. */
  lemma BraceFrame(x: string)
    ensures "    { \n        " + x + "\n    }," == "    { " + ("\n        " + x + "\n    ") + "},"
  {
  }

  /** `PolygonDlist::DeclareAndGenerateOutputCode`: the standalone text
      replaces the text of a declaration already at the record's offset;
      otherwise the record is declared as a 4-aligned `PolygonDlist`. */
  function PolygonDlistDecl(d: PolygonDlist, body: string): (decl: Decl)
    ensures decl.alignment == Align4 && decl.padding == PadNone && decl.kind == Scalar
    ensures decl.size == POLYGON_DLIST_SIZE && decl.typeName == "PolygonDlist" && decl.text == body
  {
    Decl(Align4, PadNone, POLYGON_DLIST_SIZE, "PolygonDlist", AuxName(d.name, PolygonDlistName("", d.offset)), Scalar, body)
  }

  function PolygonDlistOutput(d: PolygonDlist, base: nat, s2f: Seg2FilespaceFn, t: DeclTable): (r: DeclTable)
    ensures OnlyChangedAt(t, r, d.offset)
    ensures r[d.offset].text == PolygonDlistBody(d, false, base, s2f, t)
    ensures d.offset in t ==> r[d.offset] == t[d.offset].(text := PolygonDlistBody(d, false, base, s2f, t))
    ensures d.offset !in t ==> r[d.offset].varName == AuxName(d.name, PolygonDlistName("", d.offset))
    ensures d.offset !in t ==> r[d.offset] == PolygonDlistDecl(d, PolygonDlistBody(d, false, base, s2f, t))
  {
    DeclareOrPatch(t, d.offset, PolygonDlistDecl(d, PolygonDlistBody(d, false, base, s2f, t)))
  }

  // ---------------------------------------------------------------------
  // BgImage

  /** The pointers of a background record: the image, `unk0C` and the
      palette. */
  datatype BgPointers = BgPointers(source: U32, unk0C: U32, tlut: U32)

  /** The image format of a background record. */
  datatype BgFormat = BgFormat(width: nat, height: nat, fmt: nat, siz: nat, mode0: nat, tlutCount: nat)

  /** A prerendered background record.  The standalone form (a list entry)
      starts with `unk00` and `id`; the sub-struct form (inside a
      `PolygonType1`) has neither, and they are kept as 0. */
  datatype BgImage = BgImage(
    name: string,
    offset: nat,
    isSubStruct: bool,
    unk00: nat,
    id: nat,
    ptrs: BgPointers,
    format: BgFormat)

  /** `BgImage::GetRawDataSize`: the same for both forms. */
  const BG_IMAGE_SIZE: nat := 0x1C

  /** `BgImage::GetDefaultName`. */
  function BgImageName(prefix: string, at: nat): string {
    prefix + "BgImage_" + HexPad(at, 6)
  }

  /** Where the fields shared by both forms start. */
  function BgImagePad(isSubStruct: bool): (pad: nat)
    ensures isSubStruct <==> pad == 0
  {
    if isSubStruct then 0 else 4
  }

  /** The layout of the pointers shared by both forms: `source`, `unk0C`
      and `tlut`, four bytes each. */
  predicate BgPointersAt(buf: Buffer, p: nat, v: BgPointers) {
    FieldIs(buf, p, 4, v.source) && FieldIs(buf, p + 0x04, 4, v.unk0C) && FieldIs(buf, p + 0x08, 4, v.tlut)
  }

  /** The layout of the image format, 12 bytes after the pointers: `width`
      and `height` (two bytes each), `fmt` and `siz` (one each), `mode0`
      and `tlutCount` (two each). */
  predicate BgFormatAt(buf: Buffer, p: nat, v: BgFormat) {
    && FieldIs(buf, p + 0x0C, 2, v.width) && FieldIs(buf, p + 0x0E, 2, v.height)
    && FieldIs(buf, p + 0x10, 1, v.fmt) && FieldIs(buf, p + 0x11, 1, v.siz)
    && FieldIs(buf, p + 0x12, 2, v.mode0) && FieldIs(buf, p + 0x14, 2, v.tlutCount)
  }

  /** The layout: `unk00` (two bytes) at +0 and `id` (one byte) at +2 in
      the standalone form, then the shared fields from the pad on. */
  predicate BgImageAt(buf: Buffer, at: nat, g: BgImage) {
    var p := at + BgImagePad(g.isSubStruct);
    && BgHeadAt(buf, at, g.isSubStruct, g.unk00, g.id)
    && BgPointersAt(buf, p, g.ptrs)
    && BgFormatAt(buf, p, g.format)
  }

  function ParseBgPointers(buf: Buffer, p: nat): (r: Result<BgPointers>)
    ensures r.Ok? <==> p + 0x0C <= |buf|
    ensures r.Ok? ==> BgPointersAt(buf, p, r.value)
    ensures r.Err? ==> r.error.OutOfRange?
  {
    var source :- ReadU32BE(buf, p);
    var unk0C :- ReadU32BE(buf, p + 0x04);
    var tlut :- ReadU32BE(buf, p + 0x08);
    Ok(BgPointers(source, unk0C, tlut))
  }

  function ParseBgFormat(buf: Buffer, p: nat): (r: Result<BgFormat>)
    ensures r.Ok? <==> p + 0x16 <= |buf|
    ensures r.Ok? ==> BgFormatAt(buf, p, r.value)
    ensures r.Err? ==> r.error.OutOfRange?
  {
    var width :- ReadU16BE(buf, p + 0x0C);
    var height :- ReadU16BE(buf, p + 0x0E);
    var fmt :- ReadU8(buf, p + 0x10);
    var siz :- ReadU8(buf, p + 0x11);
    var mode0 :- ReadU16BE(buf, p + 0x12);
    var tlutCount :- ReadU16BE(buf, p + 0x14);
    Ok(BgFormat(width, height, fmt, siz, mode0, tlutCount))
  }

  /** The standalone form's `unk00` and `id`; the sub-struct form reads
      nothing and keeps both 0. */
  predicate BgHeadAt(buf: Buffer, at: nat, isSubStruct: bool, unk00: nat, id: nat) {
    if isSubStruct then unk00 == 0 && id == 0
    else FieldIs(buf, at, 2, unk00) && FieldIs(buf, at + 2, 1, id)
  }

  function ParseBgHead(isSubStruct: bool, buf: Buffer, at: nat): (r: Result<(nat, nat)>)
    ensures r.Ok? <==> isSubStruct || at + 3 <= |buf|
    ensures r.Ok? ==> BgHeadAt(buf, at, isSubStruct, r.value.0, r.value.1)
    ensures r.Err? ==> r.error.OutOfRange?
  {
    if isSubStruct then Ok((0, 0))
    else
      var unk00 :- ReadU16BE(buf, at);
      var id :- ReadU8(buf, at + 2);
      Ok((unk00, id))
  }

  /** `BgImage::ParseRawData`. */
  function ParseBgImage(isSubStruct: bool, prefix: string, buf: Buffer, at: nat): (r: Result<BgImage>)
    ensures r.Ok? <==> at + BgImagePad(isSubStruct) + 0x16 <= |buf|
    ensures r.Ok? ==> r.value.name == BgImageName(prefix, at) && r.value.offset == at
    ensures r.Ok? ==> r.value.isSubStruct == isSubStruct
    ensures r.Err? ==> r.error.OutOfRange?
  {
    var p := at + BgImagePad(isSubStruct);
    BuildBgImage(isSubStruct, prefix, at, ParseBgHead(isSubStruct, buf, at), ParseBgPointers(buf, p), ParseBgFormat(buf, p))
  }

  /** The record from its three parts, or the first part's error. */
  function BuildBgImage(isSubStruct: bool, prefix: string, at: nat, head: Result<(nat, nat)>,
                        ptrs: Result<BgPointers>, format: Result<BgFormat>): (r: Result<BgImage>)
    ensures r.Ok? <==> head.Ok? && ptrs.Ok? && format.Ok?
    ensures r.Ok? ==> r.value == BgImage(BgImageName(prefix, at), at, isSubStruct, head.value.0, head.value.1,
                                         ptrs.value, format.value)
    ensures r.Err? ==> r.error == (if head.Err? then head.error else if ptrs.Err? then ptrs.error else format.error)
  {
    match head
    case Err(e) => Err(e)
    case Ok(h) =>
      match ptrs
      case Err(e) => Err(e)
      case Ok(v) =>
        match format
        case Err(e) => Err(e)
        case Ok(f) => Ok(BgImage(BgImageName(prefix, at), at, isSubStruct, h.0, h.1, v, f))
  }

  /** A parsed record is the one the buffer holds at its offset. */
  lemma ParseBgImageLayout(isSubStruct: bool, prefix: string, buf: Buffer, at: nat)
    requires ParseBgImage(isSubStruct, prefix, buf, at).Ok?
    ensures BgImageAt(buf, at, ParseBgImage(isSubStruct, prefix, buf, at).value)
  {
  }

  lemma ParseBgHeadExactly(buf: Buffer, at: nat, isSubStruct: bool, unk00: nat, id: nat)
    requires BgHeadAt(buf, at, isSubStruct, unk00, id)
    ensures ParseBgHead(isSubStruct, buf, at) == Ok((unk00, id))
  {
    if !isSubStruct {
      ReadField(buf, at, 2, unk00);
      ReadField(buf, at + 2, 1, id);
    }
  }

  lemma ParseBgPointersExactly(buf: Buffer, p: nat, v: BgPointers)
    requires BgPointersAt(buf, p, v)
    ensures ParseBgPointers(buf, p) == Ok(v)
  {
    ReadField(buf, p, 4, v.source);
    ReadField(buf, p + 0x04, 4, v.unk0C);
    ReadField(buf, p + 0x08, 4, v.tlut);
  }

  lemma ParseBgFormatExactly(buf: Buffer, p: nat, v: BgFormat)
    requires BgFormatAt(buf, p, v)
    ensures ParseBgFormat(buf, p) == Ok(v)
  {
    ReadField(buf, p + 0x0C, 2, v.width);
    ReadField(buf, p + 0x0E, 2, v.height);
    ReadField(buf, p + 0x10, 1, v.fmt);
    ReadField(buf, p + 0x11, 1, v.siz);
    ReadField(buf, p + 0x12, 2, v.mode0);
    ReadField(buf, p + 0x14, 2, v.tlutCount);
  }

  /** The parse returns exactly the record the buffer holds, in either form. */
  lemma ParseBgImageExactly(prefix: string, buf: Buffer, at: nat, g: BgImage)
    requires BgImageAt(buf, at, g) && g.name == BgImageName(prefix, at) && g.offset == at
    ensures ParseBgImage(g.isSubStruct, prefix, buf, at) == Ok(g)
  {
    var p := at + BgImagePad(g.isSubStruct);
    ParseBgHeadExactly(buf, at, g.isSubStruct, g.unk00, g.id);
    ParseBgPointersExactly(buf, p, g.ptrs);
    ParseBgFormatExactly(buf, p, g.format);
    AssembleBgImage(prefix, buf, at, g);
  }

  lemma AssembleBgImage(prefix: string, buf: Buffer, at: nat, g: BgImage)
    requires ParseBgHead(g.isSubStruct, buf, at) == Ok((g.unk00, g.id))
    requires ParseBgPointers(buf, at + BgImagePad(g.isSubStruct)) == Ok(g.ptrs)
    requires ParseBgFormat(buf, at + BgImagePad(g.isSubStruct)) == Ok(g.format)
    requires g.name == BgImageName(prefix, at) && g.offset == at
    ensures ParseBgImage(g.isSubStruct, prefix, buf, at) == Ok(g)
  {
    ParseBgImageParts(g.isSubStruct, prefix, buf, at);
    BuildWholeBgImage(prefix, at, g);
  }

  lemma ParseBgImageParts(isSubStruct: bool, prefix: string, buf: Buffer, at: nat)
    ensures var p := at + BgImagePad(isSubStruct);
      ParseBgImage(isSubStruct, prefix, buf, at)
      == BuildBgImage(isSubStruct, prefix, at, ParseBgHead(isSubStruct, buf, at), ParseBgPointers(buf, p), ParseBgFormat(buf, p))
  {
  }

  lemma BuildWholeBgImage(prefix: string, at: nat, g: BgImage)
    requires g.name == BgImageName(prefix, at) && g.offset == at
    ensures BuildBgImage(g.isSubStruct, prefix, at, Ok((g.unk00, g.id)), Ok(g.ptrs), Ok(g.format)) == Ok(g)
  {
  }

  /** `BgImage::MakeBackground`: a non-null source pointer names a
      background, which is read at the pointer's file offset and declared
      there at once. */
  function MakeBackground(prefix: string, buf: Buffer, source: U32, base: nat, s2f: Seg2FilespaceFn,
                          t: DeclTable): (r: Result<(Option<Background.ZBackground>, DeclTable)>)
    ensures source == 0 ==> r == Ok((None, t))
    ensures source != 0 ==> (r.Ok? <==> Background.ScanEoi(buf, s2f(source, base)).Ok?)
    ensures source != 0 && r.Ok? ==>
      var at := s2f(source, base);
      var bg := Background.ZBackground(Background.DefaultName(prefix, at), at, Background.ScanEoi(buf, at).value);
      && r.value.0 == Some(bg)
      && OnlyChangedAt(t, r.value.1, at)
      && r.value.1[at] == Background.BackgroundDecl(bg, prefix, "")
  {
    if source == 0 then Ok((None, t))
    else
      var bg :- Background.NewBackground(prefix, buf, s2f(source, base));
      Ok((Some(bg), Background.DeclareVar(bg, prefix, "", t)))
  }

  /** The `BgImage` constructor: the record is read, then its background
      made.  The result holds the record and the updated table. */
  function NewBgImage(isSubStruct: bool, prefix: string, buf: Buffer, at: nat, base: nat,
                      s2f: Seg2FilespaceFn, t: DeclTable): (r: Result<(BgImage, DeclTable)>)
    ensures r.Ok? <==> BgImageMakes(isSubStruct, prefix, buf, at, base, s2f)
    ensures r.Ok? ==> r.value.0 == ParseBgImage(isSubStruct, prefix, buf, at).value
    ensures r.Ok? && r.value.0.ptrs.source == 0 ==> r.value.1 == t
    ensures r.Ok? && r.value.0.ptrs.source != 0 ==>
      var bgAt := s2f(r.value.0.ptrs.source, base);
      && OnlyChangedAt(t, r.value.1, bgAt)
      && r.value.1[bgAt].varName == Background.DefaultName(prefix, bgAt)
      && r.value.1[bgAt] == Background.BackgroundDecl(Background.NewBackground(prefix, buf, bgAt).value, prefix, "")
  {
    match ParseBgImage(isSubStruct, prefix, buf, at)
    case Err(e) => Err(e)
    case Ok(g) => AttachBackground(g, prefix, buf, base, s2f, t)
  }

  /** The constructor succeeds at `at`: the record can be read, and its
      background too when the source pointer is not null.  Which
      declarations exist does not matter. */
  predicate BgImageMakes(isSubStruct: bool, prefix: string, buf: Buffer, at: nat, base: nat, s2f: Seg2FilespaceFn) {
    && ParseBgImage(isSubStruct, prefix, buf, at).Ok?
    && var src := ParseBgImage(isSubStruct, prefix, buf, at).value.ptrs.source;
       src != 0 ==> Background.ScanEoi(buf, s2f(src, base)).Ok?
  }

  /** The second half of the constructor: the record's background made. */
  function AttachBackground(g: BgImage, prefix: string, buf: Buffer, base: nat, s2f: Seg2FilespaceFn,
                            t: DeclTable): (r: Result<(BgImage, DeclTable)>)
    ensures r.Ok? <==> (g.ptrs.source != 0 ==> Background.ScanEoi(buf, s2f(g.ptrs.source, base)).Ok?)
    ensures r.Ok? ==> r.value.0 == g
    ensures r.Ok? && g.ptrs.source == 0 ==> r.value.1 == t
    ensures r.Ok? && g.ptrs.source != 0 ==>
      var bgAt := s2f(g.ptrs.source, base);
      && OnlyChangedAt(t, r.value.1, bgAt)
      && r.value.1[bgAt].varName == Background.DefaultName(prefix, bgAt)
      && r.value.1[bgAt] == Background.BackgroundDecl(Background.NewBackground(prefix, buf, bgAt).value, prefix, "")
  {
    match MakeBackground(prefix, buf, g.ptrs.source, base, s2f, t)
    case Err(e) => Err(e)
    case Ok(made) => Ok((g, made.1))
  }

  /** How a `BgImage` names its source image.  An unresolved pointer gets
      "NULL" glued to its hex and a comma; the lemma below shows that a
      constructed record never takes that branch. */
  function BgSourceText(source: U32, base: nat, s2f: Seg2FilespaceFn, t: DeclTable): (s: string)
    ensures source == 0 ==> s == "NULL"
    ensures source != 0 && s2f(source, base) in t ==> s == t[s2f(source, base)].varName
    ensures source != 0 && s2f(source, base) !in t ==> s == "NULL" + RawPointer(source) + ", "
  {
    if source == 0 then "NULL"
    else if s2f(source, base) in t then t[s2f(source, base)].varName
    else "NULL" + RawPointer(source) + ", "
  }

  /** After construction, and in every table that keeps what construction
      declared, a record's non-null source names the background made for
      it. */
  lemma BgSourceResolved(isSubStruct: bool, prefix: string, buf: Buffer, at: nat, base: nat,
                         s2f: Seg2FilespaceFn, t: DeclTable, g: BgImage, t1: DeclTable)
    requires NewBgImage(isSubStruct, prefix, buf, at, base, s2f, t) == Ok((g, t1))
    ensures g.ptrs.source == 0 ==> BgSourceText(g.ptrs.source, base, s2f, t1) == "NULL"
    ensures g.ptrs.source != 0 ==>
      && s2f(g.ptrs.source, base) in t1
      && BgSourceText(g.ptrs.source, base, s2f, t1) == Background.DefaultName(prefix, s2f(g.ptrs.source, base))
  {
  }

  /** The lines of a `BgImage`'s text both forms share: the source, the
      two other pointers, the size, the format and the mode. */
  function BgSharedLines(g: BgImage, base: nat, s2f: Seg2FilespaceFn, t: DeclTable): (lines: seq<string>)
    ensures |lines| == 5
  {
    [ BgSourceText(g.ptrs.source, base, s2f, t) + ", ",
      TwoValues(Hex(g.ptrs.unk0C, 8), Hex(g.ptrs.tlut, 8)),
      TwoValues(Dec(g.format.width), Dec(g.format.height)),
      TwoValues(Dec(g.format.fmt), Dec(g.format.siz)),
      TwoValues(Hex(g.format.mode0, 4), Hex(g.format.tlutCount, 4)) ]
  }

  /** All lines of a `BgImage`'s text: `unk00` and `id` first in the
      standalone form. */
  function BgImageLines(g: BgImage, base: nat, s2f: Seg2FilespaceFn, t: DeclTable): (lines: seq<string>)
    ensures |lines| == if g.isSubStruct then 5 else 6
  {
    (if g.isSubStruct then [] else [TwoValues(Hex(g.unk00, 4), Dec(g.id))]) + BgSharedLines(g, base, s2f, t)
  }

  /** `BgImage::GetBodySourceCode`: the lines indented by four spaces after
      the first; as an array element, by eight, with the first on a fresh
      line and the record braced. */
  function BgImageBody(g: BgImage, arrayElement: bool, base: nat, s2f: Seg2FilespaceFn, t: DeclTable): string {
    var lines := BgImageLines(g, base, s2f, t);
    if arrayElement then "    { \n        " + Join(lines, "\n        ") + " \n    }, "
    else Join(lines, "\n    ")
  }

  lemma BgSourceTextOneLine(source: U32, base: nat, s2f: Seg2FilespaceFn, t: DeclTable)
    requires OneLineNames(t)
    ensures '\n' !in BgSourceText(source, base, s2f, t)
  {
    RawPointerOneLine(source);
  }

  lemma BgSharedLinesOneLine(g: BgImage, base: nat, s2f: Seg2FilespaceFn, t: DeclTable)
    requires OneLineNames(t)
    ensures AllOneLine(BgSharedLines(g, base, s2f, t))
  {
    var source := BgSourceText(g.ptrs.source, base, s2f, t);
    BgSourceTextOneLine(g.ptrs.source, base, s2f, t);
    HexPairOneLine(g.ptrs.unk0C, 8, g.ptrs.tlut, 8);
    DecPairOneLine(g.format.width, g.format.height);
    DecPairOneLine(g.format.fmt, g.format.siz);
    HexPairOneLine(g.format.mode0, 4, g.format.tlutCount, 4);
    AllOneLineFive(source + ", ",
                   TwoValues(Hex(g.ptrs.unk0C, 8), Hex(g.ptrs.tlut, 8)),
                   TwoValues(Dec(g.format.width), Dec(g.format.height)),
                   TwoValues(Dec(g.format.fmt), Dec(g.format.siz)),
                   TwoValues(Hex(g.format.mode0, 4), Hex(g.format.tlutCount, 4)));
  }

  lemma BgImageLinesOneLine(g: BgImage, base: nat, s2f: Seg2FilespaceFn, t: DeclTable)
    requires OneLineNames(t)
    ensures AllOneLine(BgImageLines(g, base, s2f, t))
  {
    BgSharedLinesOneLine(g, base, s2f, t);
    if !g.isSubStruct {
      BgHeadLineOneLine(g.unk00, g.id);
      AllOneLineConcat([TwoValues(Hex(g.unk00, 4), Dec(g.id))], BgSharedLines(g, base, s2f, t));
    }
  }

  lemma BgHeadLineOneLine(unk00: nat, id: nat)
    ensures AllOneLine([TwoValues(Hex(unk00, 4), Dec(id))])
  {
    HexOneLine(unk00, 4);
    DecOneLine(id);
  }

  /** As an array element, a `BgImage` is its standalone text indented one
      level, opened on a fresh line and braced. */
  lemma BgImageElementIsIndented(g: BgImage, base: nat, s2f: Seg2FilespaceFn, t: DeclTable)
    requires OneLineNames(t)
    ensures BgImageBody(g, true, base, s2f, t)
         == "    { \n        " + IndentLines(BgImageBody(g, false, base, s2f, t)) + " \n    }, "
  {
    BgImageLinesOneLine(g, base, s2f, t);
    IndentJoinedLines(BgImageLines(g, base, s2f, t));
  }

  // ---------------------------------------------------------------------
  // PolygonType1

  /** The fixed fields of a `PolygonType1` (mesh type 1): its type and
      format bytes, the display-list record pointer and, in format 2 only,
      the background count and list pointer (0 otherwise). */
  datatype PolygonType1Header = PolygonType1Header(meshType: nat, format: nat, dlist: U32, count: nat, list: U32)

  /** A `PolygonType1` with what its constructor made: the display-list
      record when `dlist` is set, the sub-struct background of format 1 and
      the background list of format 2. */
  datatype PolygonType1 = PolygonType1(
    name: string,
    offset: nat,
    header: PolygonType1Header,
    polyGfxList: Option<PolygonDlist>,
    single: Option<BgImage>,
    multiList: seq<BgImage>)

  /** `PolygonType1::GetDefaultName`. */
  function PolygonType1Name(prefix: string, at: nat): string {
    prefix + "PolygonType1_" + HexPad(at, 6)
  }

  /** `PolygonType1::GetRawDataSize`: 0x10 for format 2, 0x20 otherwise. */
  function PolygonType1Size(format: nat): nat {
    match format
    case 1 => 0x20
    case 2 => 0x10
    case _ => 0x20
  }

  /** `PolygonType1::GetSourceTypeName`. */
  function PolygonType1TypeName(format: nat): string {
    match format
    case 1 => "MeshHeader1Single"
    case 2 => "MeshHeader1Multi"
    case _ => "ERROR"
  }

  /** The size and type name of each format: format 1 is the single
      background record, format 2 the shorter multi-background record, and
      every other format keeps the larger size under the name "ERROR". */
  lemma PolygonType1Formats(format: nat)
    ensures format == 1 ==> PolygonType1Size(format) == 0x20 && PolygonType1TypeName(format) == "MeshHeader1Single"
    ensures format == 2 ==> PolygonType1Size(format) == 0x10 && PolygonType1TypeName(format) == "MeshHeader1Multi"
    ensures format != 1 && format != 2 ==> PolygonType1Size(format) == 0x20 && PolygonType1TypeName(format) == "ERROR"
    ensures PolygonType1TypeName(format) != "ERROR" <==> format == 1 || format == 2
  {
  }

  /** The layout: type at +0 and format at +1 (one byte each), the record
      pointer at +4; in format 2 the count (one byte) at +8 and the list
      pointer at +0x0C. */
  predicate PolygonType1At(buf: Buffer, at: nat, h: PolygonType1Header) {
    && FieldIs(buf, at, 1, h.meshType) && FieldIs(buf, at + 1, 1, h.format)
    && FieldIs(buf, at + 4, 4, h.dlist)
    && (if h.format == 2 then FieldIs(buf, at + 8, 1, h.count) && FieldIs(buf, at + 0x0C, 4, h.list)
        else h.count == 0 && h.list == 0)
  }

  function ParseMultiFields(format: nat, buf: Buffer, at: nat): (r: Result<(nat, U32)>)
    ensures r.Ok? <==> format != 2 || at + 0x10 <= |buf|
    ensures r.Ok? && format == 2 ==> FieldIs(buf, at + 8, 1, r.value.0) && FieldIs(buf, at + 0x0C, 4, r.value.1)
    ensures r.Ok? && format != 2 ==> r.value == (0, 0)
    ensures r.Err? ==> r.error.OutOfRange?
  {
    if format != 2 then Ok((0, 0))
    else
      var count :- ReadU8(buf, at + 8);
      var list :- ReadU32BE(buf, at + 0x0C);
      Ok((count, list))
  }

  /** `PolygonType1::ParseRawData`. */
  function ParsePolygonType1Header(buf: Buffer, at: nat): (r: Result<PolygonType1Header>)
    ensures r.Ok? <==> at + 8 <= |buf| && (buf[at + 1] == 2 ==> at + 0x10 <= |buf|)
    ensures r.Ok? ==> PolygonType1At(buf, at, r.value)
    ensures r.Err? ==> r.error.OutOfRange?
  {
    var meshType :- ReadU8(buf, at);
    var format :- ReadU8(buf, at + 1);
    var dlist :- ReadU32BE(buf, at + 4);
    var multi :- ParseMultiFields(format, buf, at);
    Ok(PolygonType1Header(meshType, format, dlist, multi.0, multi.1))
  }

  /** The header parse returns exactly the fields the buffer holds. */
  lemma ParsePolygonType1HeaderExactly(buf: Buffer, at: nat, h: PolygonType1Header)
    requires PolygonType1At(buf, at, h)
    ensures ParsePolygonType1Header(buf, at) == Ok(h)
  {
    ReadField(buf, at, 1, h.meshType);
    ReadField(buf, at + 1, 1, h.format);
    ReadField(buf, at + 4, 4, h.dlist);
    if h.format == 2 {
      ReadField(buf, at + 8, 1, h.count);
      ReadField(buf, at + 0x0C, 4, h.list);
    }
  }

  /** A list entry as the list walk makes it: a standalone record at
      `offset`, named after it, whose background is declared in `t`. */
  predicate ListedBgImage(g: BgImage, prefix: string, offset: nat, base: nat, s2f: Seg2FilespaceFn, t: DeclTable) {
    && g.offset == offset
    && g.name == BgImageName(prefix, offset)
    && !g.isSubStruct
    && (g.ptrs.source != 0 ==> s2f(g.ptrs.source, base) in t)
  }

  /** The offset of element `j` of a background list. */
  function BgListSlot(listAddr: nat, j: nat): nat {
    listAddr + j * BG_IMAGE_SIZE
  }

  /** Entry `k` and the entries after it, listed. */
  predicate ListedFrom(gs: seq<BgImage>, prefix: string, listAddr: nat, k: nat, base: nat,
                       s2f: Seg2FilespaceFn, t: DeclTable) {
    forall j :: 0 <= j < |gs| ==> ListedBgImage(gs[j], prefix, BgListSlot(listAddr, k + j), base, s2f, t)
  }

  lemma ListedFromCons(g: BgImage, gs: seq<BgImage>, prefix: string, listAddr: nat, k: nat, base: nat,
                       s2f: Seg2FilespaceFn, t1: DeclTable, t2: DeclTable)
    requires ListedBgImage(g, prefix, BgListSlot(listAddr, k), base, s2f, t1)
    requires ListedFrom(gs, prefix, listAddr, k + 1, base, s2f, t2)
    requires t1.Keys <= t2.Keys
    ensures ListedFrom([g] + gs, prefix, listAddr, k, base, s2f, t2)
  {
    var all := [g] + gs;
    forall j | 0 <= j < |all|
      ensures ListedBgImage(all[j], prefix, BgListSlot(listAddr, k + j), base, s2f, t2)
    {
      if j > 0 {
        assert all[j] == gs[j - 1];
        assert k + j == (k + 1) + (j - 1);
      }
    }
  }

  /** The standalone record read at slot `j` of a list. */
  function ListElem(prefix: string, buf: Buffer, listAddr: nat, j: nat): Result<BgImage> {
    ParseBgImage(false, prefix, buf, BgListSlot(listAddr, j))
  }

  /** Elements `k` on of a list, each the standalone record read at its
      slot. */
  predicate ParsedFrom(gs: seq<BgImage>, prefix: string, buf: Buffer, listAddr: nat, k: nat)
    decreases |gs|
  {
    |gs| == 0 ||
    (ListElem(prefix, buf, listAddr, k) == Ok(gs[0]) && ParsedFrom(gs[1..], prefix, buf, listAddr, k + 1))
  }

  /** Element `j` of a list parsed from slot `k` on is the record read at
      slot `k + j`. */
  lemma {:induction false} ParsedFromAt(gs: seq<BgImage>, prefix: string, buf: Buffer, listAddr: nat, k: nat, j: nat, slot: nat)
    requires ParsedFrom(gs, prefix, buf, listAddr, k) && j < |gs| && slot == k + j
    ensures ListElem(prefix, buf, listAddr, slot) == Ok(gs[j])
    decreases j
  {
    if j > 0 {
      ParsedFromAt(gs[1..], prefix, buf, listAddr, k + 1, j - 1, slot);
    }
  }

  /** A standalone record made at `at` is listed there, and making it only
      adds declarations. */
  lemma NewBgImageListed(prefix: string, buf: Buffer, at: nat, base: nat, s2f: Seg2FilespaceFn, t: DeclTable)
    requires NewBgImage(false, prefix, buf, at, base, s2f, t).Ok?
    ensures var (g, t1) := NewBgImage(false, prefix, buf, at, base, s2f, t).value;
      && ListedBgImage(g, prefix, at, base, s2f, t1) && t.Keys <= t1.Keys
      && ParseBgImage(false, prefix, buf, at) == Ok(g)
  {
  }

  /** Every element of a list from `k` up to `count` can be made. */
  predicate ListMakesFrom(prefix: string, buf: Buffer, listAddr: nat, k: nat, count: nat, base: nat, s2f: Seg2FilespaceFn) {
    forall j :: k <= j < count ==> BgImageMakes(false, prefix, buf, BgListSlot(listAddr, j), base, s2f)
  }

  /** Each element of `gs` is the standalone record read at its slot of
      the list at `listAddr`. */
  predicate ParsedList(gs: seq<BgImage>, prefix: string, buf: Buffer, listAddr: nat) {
    forall j: nat :: j < |gs| ==> ListElem(prefix, buf, listAddr, j) == Ok(gs[j])
  }

  /** The elements from `k` on can be made exactly when element `k` and
      those after it can. */
  lemma ListMakesStep(prefix: string, buf: Buffer, listAddr: nat, k: nat, count: nat, base: nat, s2f: Seg2FilespaceFn)
    requires k < count
    ensures ListMakesFrom(prefix, buf, listAddr, k, count, base, s2f)
        <==> (&& BgImageMakes(false, prefix, buf, BgListSlot(listAddr, k), base, s2f)
              && ListMakesFrom(prefix, buf, listAddr, k + 1, count, base, s2f))
  {
  }

  /** The backgrounds of a format 2 list from element `k` on, each made in
      turn (so each sees the backgrounds made before it), with each one's
      array-element text taken right after it is made. */
  function NewBgImageList(prefix: string, buf: Buffer, listAddr: nat, k: nat, count: nat, base: nat,
                          s2f: Seg2FilespaceFn, t: DeclTable): (r: Result<(seq<BgImage>, seq<string>, DeclTable)>)
    requires k <= count
    ensures r.Ok? <==> ListMakesFrom(prefix, buf, listAddr, k, count, base, s2f)
    ensures r.Ok? ==> |r.value.0| == count - k && |r.value.1| == count - k
    ensures r.Ok? ==> ListedFrom(r.value.0, prefix, listAddr, k, base, s2f, r.value.2)
    ensures r.Ok? ==> ParsedFrom(r.value.0, prefix, buf, listAddr, k)
    ensures r.Ok? ==> t.Keys <= r.value.2.Keys
    ensures k == count ==> r == Ok(([], [], t))
    decreases count - k
  {
    if k == count then Ok(([], [], t))
    else
      ListMakesStep(prefix, buf, listAddr, k, count, base, s2f);
      match NewBgImage(false, prefix, buf, BgListSlot(listAddr, k), base, s2f, t)
      case Err(e) => Err(e)
      case Ok(made) =>
        var (g, t1) := made;
        NewBgImageListed(prefix, buf, BgListSlot(listAddr, k), base, s2f, t);
        match NewBgImageList(prefix, buf, listAddr, k + 1, count, base, s2f, t1)
        case Err(e) => Err(e)
        case Ok(rest) =>
          ListedFromCons(g, rest.0, prefix, listAddr, k, base, s2f, t1, rest.2);
          assert ([g] + rest.0)[1..] == rest.0;
          Ok(([g] + rest.0, [BgImageBody(g, true, base, s2f, t1)] + rest.1, rest.2))
  }

  /** The display-list record a `PolygonType1` points at, read at the
      pointer's file offset; none for a null pointer. */
  function PolygonType1Gfx(prefix: string, buf: Buffer, dlist: U32, base: nat, s2f: Seg2FilespaceFn): (r: Result<Option<PolygonDlist>>)
    ensures dlist == 0 ==> r == Ok(None)
    ensures dlist != 0 ==> (r.Ok? <==> s2f(dlist, base) + POLYGON_DLIST_SIZE <= |buf|)
    ensures dlist != 0 && r.Ok? ==> r.value.Some? && r.value.value.offset == s2f(dlist, base)
    ensures dlist != 0 && r.Ok? ==> r.value.value.name == PolygonDlistName(prefix, s2f(dlist, base)) != ""
  {
    if dlist == 0 then Ok(None)
    else
      match ParsePolygonDlist(prefix, buf, s2f(dlist, base))
      case Err(e) => Err(e)
      case Ok(d) => Ok(Some(d))
  }

  /** The declaration of a format 2 background list: added only when
      nothing is declared at the list yet, named after its first entry.
      With no entries the source reads past the end of its list. */
  function DeclareBgImageList(listAddr: nat, gs: seq<BgImage>, bodies: seq<string>, t: DeclTable): (r: Result<DeclTable>)
    ensures listAddr in t ==> r == Ok(t)
    ensures listAddr !in t && |gs| == 0 ==> r == Err(EmptyList)
    ensures r.Ok? <==> listAddr in t || |gs| > 0
    ensures r.Ok? ==> listAddr in r.value && t.Keys <= r.value.Keys
    ensures listAddr !in t && |gs| > 0 ==>
      && r.Ok? && OnlyChangedAt(t, r.value, listAddr)
      && r.value[listAddr] == Decl(Align4, PadNone, |gs| * BG_IMAGE_SIZE, "BgImage", gs[0].name, Array(|gs|), Join(bodies, "\n"))
  {
    if listAddr in t then Ok(t)
    else if |gs| == 0 then Err(EmptyList)
    else Ok(AddDeclarationArray(t, listAddr, Align4, |gs| * BG_IMAGE_SIZE, "BgImage", gs[0].name, |gs|, Join(bodies, "\n")))
  }

  /** What every constructed `PolygonType1` satisfies. */
  predicate Made(r: Result<(PolygonType1, DeclTable)>, at: nat, h: PolygonType1Header, gfx: Option<PolygonDlist>,
                 prefix: string, base: nat, s2f: Seg2FilespaceFn, t: DeclTable) {
    r.Ok? ==>
      && r.value.0.offset == at && r.value.0.name == PolygonType1Name(prefix, at)
      && r.value.0.header == h && r.value.0.polyGfxList == gfx
      && t.Keys <= r.value.1.Keys
  }

  /** Format 1: the sub-struct background follows the header at +8. */
  function NewPolygonType1Single(prefix: string, buf: Buffer, at: nat, h: PolygonType1Header, gfx: Option<PolygonDlist>,
                                 base: nat, s2f: Seg2FilespaceFn, t: DeclTable): (r: Result<(PolygonType1, DeclTable)>)
    ensures Made(r, at, h, gfx, prefix, base, s2f, t)
    ensures r.Ok? <==> BgImageMakes(true, prefix, buf, at + 8, base, s2f)
    ensures r.Ok? ==> r.value.0.single == Some(ParseBgImage(true, prefix, buf, at + 8).value)
    ensures r.Ok? ==> r.value.0.single.Some? && r.value.0.single.value.offset == at + 8
  {
    match NewBgImage(true, prefix, buf, at + 8, base, s2f, t)
    case Err(e) => Err(e)
    case Ok(made) => Ok((PolygonType1(PolygonType1Name(prefix, at), at, h, gfx, Some(made.0), []), made.1))
  }

  /** A format 2 list with a non-null pointer can be made: every element
      can, and an empty list is already declared (its declaration would
      be named after its first element). */
  predicate ListMakes(prefix: string, buf: Buffer, h: PolygonType1Header, base: nat, s2f: Seg2FilespaceFn, t: DeclTable) {
    && ListMakesFrom(prefix, buf, s2f(h.list, base), 0, h.count, base, s2f)
    && (h.count == 0 ==> s2f(h.list, base) in t)
  }

  /** The `PolygonType1` constructor succeeds: the header can be read and
      has format 1 or 2, the display-list record can be read when its
      pointer is not null, and the format's backgrounds can be made. */
  predicate PolygonType1Makes(prefix: string, buf: Buffer, at: nat, base: nat, s2f: Seg2FilespaceFn, t: DeclTable) {
    && ParsePolygonType1Header(buf, at).Ok?
    && HeaderMakes(prefix, buf, at, ParsePolygonType1Header(buf, at).value, base, s2f, t)
  }

  /** The part of the constructor after the header succeeds for header `h`. */
  predicate HeaderMakes(prefix: string, buf: Buffer, at: nat, h: PolygonType1Header, base: nat, s2f: Seg2FilespaceFn,
                        t: DeclTable) {
    && (h.format == 1 || h.format == 2)
    && (h.dlist != 0 ==> s2f(h.dlist, base) + POLYGON_DLIST_SIZE <= |buf|)
    && (h.format == 1 ==> BgImageMakes(true, prefix, buf, at + 8, base, s2f))
    && (h.format == 2 && h.list != 0 ==> ListMakes(prefix, buf, h, base, s2f, t))
  }

  /** Format 2: `count` standalone backgrounds at the list pointer's file
      offset, declared as one array unless something is declared there. */
  function NewPolygonType1Multi(prefix: string, buf: Buffer, at: nat, h: PolygonType1Header, gfx: Option<PolygonDlist>,
                                base: nat, s2f: Seg2FilespaceFn, t: DeclTable): (r: Result<(PolygonType1, DeclTable)>)
    ensures Made(r, at, h, gfx, prefix, base, s2f, t)
    ensures h.list == 0 ==> r.Ok? && r.value.1 == t && r.value.0.multiList == []
    ensures h.list != 0 ==> (r.Ok? <==> ListMakes(prefix, buf, h, base, s2f, t))
    ensures r.Ok? && h.list != 0 ==> |r.value.0.multiList| == h.count && s2f(h.list, base) in r.value.1
    ensures r.Ok? && h.list != 0 ==> ParsedList(r.value.0.multiList, prefix, buf, s2f(h.list, base))
  {
    var name := PolygonType1Name(prefix, at);
    if h.list == 0 then Ok((PolygonType1(name, at, h, gfx, None, []), t))
    else
      match BgImageListAt(prefix, buf, s2f(h.list, base), h.count, base, s2f, t)
      case Err(e) => Err(e)
      case Ok(made) => Ok((PolygonType1(name, at, h, gfx, None, made.0), made.1))
  }

  /** A list read from its start is parsed element by element. */
  lemma ListedParses(gs: seq<BgImage>, prefix: string, buf: Buffer, listAddr: nat)
    requires ParsedFrom(gs, prefix, buf, listAddr, 0)
    ensures ParsedList(gs, prefix, buf, listAddr)
  {
    forall j: nat | j < |gs|
      ensures ListElem(prefix, buf, listAddr, j) == Ok(gs[j])
    {
      ParsedFromAt(gs, prefix, buf, listAddr, 0, j, j);
    }
  }

  /** The list of `count` standalone backgrounds at `listAddr`, made in
      turn, and its declaration. */
  function BgImageListAt(prefix: string, buf: Buffer, listAddr: nat, count: nat, base: nat, s2f: Seg2FilespaceFn,
                         t: DeclTable): (r: Result<(seq<BgImage>, DeclTable)>)
    ensures r.Ok? <==> ListMakesFrom(prefix, buf, listAddr, 0, count, base, s2f) && (count == 0 ==> listAddr in t)
    ensures r.Ok? ==> |r.value.0| == count && listAddr in r.value.1 && t.Keys <= r.value.1.Keys
    ensures r.Ok? ==> ParsedList(r.value.0, prefix, buf, listAddr)
  {
    match NewBgImageList(prefix, buf, listAddr, 0, count, base, s2f, t)
    case Err(e) => Err(e)
    case Ok(made) =>
      ListedParses(made.0, prefix, buf, listAddr);
      match DeclareBgImageList(listAddr, made.0, made.1, made.2)
      case Err(e) => Err(e)
      case Ok(t2) => Ok((made.0, t2))
  }

  /** The `PolygonType1` constructor.  Formats other than 1 and 2 are an
      error. */
  function NewPolygonType1(prefix: string, buf: Buffer, at: nat, base: nat, s2f: Seg2FilespaceFn,
                           t: DeclTable): (r: Result<(PolygonType1, DeclTable)>)
    ensures r.Ok? <==> PolygonType1Makes(prefix, buf, at, base, s2f, t)
    ensures r.Ok? ==> ParsePolygonType1Header(buf, at) == Ok(r.value.0.header)
    ensures r.Ok? ==> r.value.0.offset == at && r.value.0.name == PolygonType1Name(prefix, at)
    ensures r.Ok? && r.value.0.header.format == 1 ==> r.value.0.single == Some(ParseBgImage(true, prefix, buf, at + 8).value)
    ensures r.Ok? && r.value.0.header.format == 2 && r.value.0.header.list != 0 ==>
      ParsedList(r.value.0.multiList, prefix, buf, s2f(r.value.0.header.list, base))
    ensures r.Ok? ==> r.value.0.header.format == 1 || r.value.0.header.format == 2
    ensures ParsePolygonType1Header(buf, at).Ok? && ParsePolygonType1Header(buf, at).value.format !in {1, 2}
            ==> r == Err(UnknownFormat(ParsePolygonType1Header(buf, at).value.format))
    ensures r.Ok? ==> t.Keys <= r.value.1.Keys
    ensures r.Ok? ==> WellMade(r.value.0, base, s2f)
    ensures r.Ok? && r.value.0.header.format == 2 && r.value.0.header.list != 0 ==>
      && |r.value.0.multiList| == r.value.0.header.count
      && s2f(r.value.0.header.list, base) in r.value.1
  {
    match ParsePolygonType1Header(buf, at)
    case Err(e) => Err(e)
    case Ok(h) => NewPolygonType1From(prefix, buf, at, h, base, s2f, t)
  }

  /** The constructor after its header `h` is read. */
  function NewPolygonType1From(prefix: string, buf: Buffer, at: nat, h: PolygonType1Header, base: nat,
                               s2f: Seg2FilespaceFn, t: DeclTable): (r: Result<(PolygonType1, DeclTable)>)
    ensures r.Ok? <==> HeaderMakes(prefix, buf, at, h, base, s2f, t)
    ensures r.Ok? ==> r.value.0.header == h
    ensures r.Ok? ==> r.value.0.offset == at && r.value.0.name == PolygonType1Name(prefix, at)
    ensures r.Ok? && h.format == 1 ==> r.value.0.single == Some(ParseBgImage(true, prefix, buf, at + 8).value)
    ensures r.Ok? && h.format == 2 && h.list != 0 ==> ParsedList(r.value.0.multiList, prefix, buf, s2f(h.list, base))
    ensures h.format !in {1, 2} ==> r == Err(UnknownFormat(h.format))
    ensures r.Ok? ==> t.Keys <= r.value.1.Keys
    ensures r.Ok? ==> WellMade(r.value.0, base, s2f)
    ensures r.Ok? && h.format == 2 && h.list != 0 ==>
      |r.value.0.multiList| == h.count && s2f(h.list, base) in r.value.1
  {
    if h.format != 1 && h.format != 2 then Err(UnknownFormat(h.format))
    else
      match PolygonType1Gfx(prefix, buf, h.dlist, base, s2f)
      case Err(e) => Err(e)
      case Ok(gfx) =>
        if h.format == 1 then NewPolygonType1Single(prefix, buf, at, h, gfx, base, s2f, t)
        else NewPolygonType1Multi(prefix, buf, at, h, gfx, base, s2f, t)
  }

  /** What the constructor guarantees the output step: the record behind a
      non-null `dlist` was read at its target, and format 1 has its
      background. */
  predicate WellMade(p: PolygonType1, base: nat, s2f: Seg2FilespaceFn) {
    && (p.header.dlist != 0 ==>
          && p.polyGfxList.Some? && p.polyGfxList.value.offset == s2f(p.header.dlist, base)
          && p.polyGfxList.value.name != "")
    && (p.header.format == 1 ==> p.single.Some?)
  }

  /** How a `PolygonType1` refers to its display-list record: by address of
      the declaration at the record, declaring the record first when
      nothing is there yet. */
  function PolygonType1DlistRef(p: PolygonType1, base: nat, s2f: Seg2FilespaceFn, t: DeclTable): (r: (string, DeclTable))
    requires WellMade(p, base, s2f)
    ensures p.header.dlist == 0 ==> r == ("NULL", t)
    ensures p.header.dlist != 0 ==>
      var addr := s2f(p.header.dlist, base);
      && addr in r.1 && r.0 == "&" + r.1[addr].varName
      && (addr in t ==> r.1 == t)
      && (addr !in t ==> r.1 == PolygonDlistOutput(p.polyGfxList.value, base, s2f, t))
  {
    if p.header.dlist == 0 then ("NULL", t)
    else
      var addr := s2f(p.header.dlist, base);
      if addr in t then ("&" + t[addr].varName, t)
      else
        var gfx := p.polyGfxList.value;
        ("&" + gfx.name, PolygonDlistOutput(gfx, base, s2f, t))
  }

  /** `PolygonType1::GetBodySourceCode`: the type, the format and the
      display-list record on the first line, then the format's own part:
      the sub-struct background, or the count and the list.  Returns the
      text and the table, which gains the record's declaration. */
  function PolygonType1Body(p: PolygonType1, base: nat, s2f: Seg2FilespaceFn, t: DeclTable): (r: (string, DeclTable))
    requires WellMade(p, base, s2f)
  {
    var (dlistStr, t1) := PolygonType1DlistRef(p, base, s2f, t);
    var h := p.header;
    var first := "\n    { " + TwoValues(Dec(h.meshType), Dec(h.format)) + dlistStr + ", }, \n";
    var rest :=
      if h.format == 1 then "    " + BgImageBody(p.single.value, false, base, s2f, t1) + "\n"
      else if h.format == 2 then "    " + TwoValues(Dec(h.count), DlistPtrText(h.list, base, s2f, t1)) + "\n"
      else "";
    (first + rest, t1)
  }

  /** The declaration a `PolygonType1` gets: 4-aligned, sized and typed by
      its format. */
  function PolygonType1Decl(p: PolygonType1, body: string): (d: Decl)
    ensures d.size == PolygonType1Size(p.header.format) && d.typeName == PolygonType1TypeName(p.header.format)
    ensures d.alignment == Align4 && d.kind == Scalar && d.text == body
  {
    Decl(Align4, PadNone, PolygonType1Size(p.header.format), PolygonType1TypeName(p.header.format),
         AuxName(p.name, PolygonType1Name("", p.offset)), Scalar, body)
  }

  /** `PolygonType1::DeclareAndGenerateOutputCode`: the text replaces the
      text of a declaration already at the record; otherwise the record is
      declared.  Only the record and its display-list record change. */
  function PolygonType1Output(p: PolygonType1, base: nat, s2f: Seg2FilespaceFn, t: DeclTable): (r: DeclTable)
    requires WellMade(p, base, s2f)
    ensures var (body, t1) := PolygonType1Body(p, base, s2f, t);
      && OnlyChangedAt(t1, r, p.offset)
      && (p.offset in t1 ==> r[p.offset] == t1[p.offset].(text := body))
      && (p.offset !in t1 ==> r[p.offset] == PolygonType1Decl(p, body))
    ensures t.Keys <= r.Keys
    ensures forall k :: k in t && k != p.offset && (p.header.dlist == 0 || k != s2f(p.header.dlist, base)) ==> r[k] == t[k]
  {
    var (body, t1) := PolygonType1Body(p, base, s2f, t);
    DeclareOrPatch(t1, p.offset, PolygonType1Decl(p, body))
  }

  /** After the output step the display-list record is declared, and the
      text refers to it by the name it has in the final table. */
  lemma PolygonType1DlistResolved(p: PolygonType1, base: nat, s2f: Seg2FilespaceFn, t: DeclTable)
    requires WellMade(p, base, s2f) && p.header.dlist != 0
    ensures var addr := s2f(p.header.dlist, base);
      var r := PolygonType1Output(p, base, s2f, t);
      && addr in r
      && PolygonType1DlistRef(p, base, s2f, t).0 == "&" + r[addr].varName
  {
  }

  /** A constructed format 2 record with a list: in the table the
      constructor returns, and in every table that keeps its offsets, the
      list is referred to by the name declared at it, never by raw hex. */
  lemma PolygonType1ListResolved(prefix: string, buf: Buffer, at: nat, base: nat, s2f: Seg2FilespaceFn,
                                 t: DeclTable, p: PolygonType1, t1: DeclTable, t2: DeclTable)
    requires NewPolygonType1(prefix, buf, at, base, s2f, t) == Ok((p, t1))
    requires p.header.format == 2 && p.header.list != 0 && t1.Keys <= t2.Keys
    ensures DlistPtrText(p.header.list, base, s2f, t2) == t2[s2f(p.header.list, base)].varName
  {
    assert s2f(p.header.list, base) in t1;
  }

  // ---------------------------------------------------------------------
  // PolygonDlist2

  /** A mesh type 2 entry: a signed position, a signed `unk06`, and the
      opaque and translucent display lists. */
  datatype PolygonDlist2 = PolygonDlist2(x: int, y: int, z: int, unk06: int, opa: U32, xlu: U32)

  /** `PolygonDlist2::GetRawDataSize`. */
  const POLYGON_DLIST2_SIZE: nat := 0x10

  /** The layout: the four signed two-byte values at +0, +2, +4 and +6,
      then `opa` at +8 and `xlu` at +12, four bytes each. */
  predicate PolygonDlist2At(buf: Buffer, at: nat, d: PolygonDlist2) {
    && S16FieldIs(buf, at, d.x) && S16FieldIs(buf, at + 2, d.y)
    && S16FieldIs(buf, at + 4, d.z) && S16FieldIs(buf, at + 6, d.unk06)
    && FieldIs(buf, at + 8, 4, d.opa) && FieldIs(buf, at + 12, 4, d.xlu)
  }

  /** The `PolygonDlist2` constructor's reads. */
  function ParsePolygonDlist2(buf: Buffer, at: nat): (r: Result<PolygonDlist2>)
    ensures r.Ok? <==> at + POLYGON_DLIST2_SIZE <= |buf|
    ensures r.Err? ==> r.error.OutOfRange?
  {
    var x :- ReadS16BE(buf, at + 0);
    var y :- ReadS16BE(buf, at + 2);
    var z :- ReadS16BE(buf, at + 4);
    var unk06 :- ReadS16BE(buf, at + 6);
    var opa :- ReadU32BE(buf, at + 8);
    var xlu :- ReadU32BE(buf, at + 12);
    Ok(PolygonDlist2(x, y, z, unk06, opa, xlu))
  }

  /** A parsed entry is the one the buffer holds. */
  lemma ParsePolygonDlist2Layout(buf: Buffer, at: nat)
    requires at + POLYGON_DLIST2_SIZE <= |buf|
    ensures PolygonDlist2At(buf, at, ParsePolygonDlist2(buf, at).value)
  {
    ReadS16IsField(buf, at + 0);
    ReadS16IsField(buf, at + 2);
    ReadS16IsField(buf, at + 4);
    ReadS16IsField(buf, at + 6);
  }

  /** The parse returns exactly the entry the buffer holds. */
  lemma ParsePolygonDlist2Exactly(buf: Buffer, at: nat, d: PolygonDlist2)
    requires PolygonDlist2At(buf, at, d)
    ensures ParsePolygonDlist2(buf, at) == Ok(d)
  {
    ReadS16Field(buf, at + 0, d.x);
    ReadS16Field(buf, at + 2, d.y);
    ReadS16Field(buf, at + 4, d.z);
    ReadS16Field(buf, at + 6, d.unk06);
    ReadField(buf, at + 8, 4, d.opa);
    ReadField(buf, at + 12, 4, d.xlu);
  }

  /** How an entry names its opaque display list: looked up at the
      pointer's segment offset, the full pointer in hex when absent. */
  function OpaName(opa: U32, t: DeclTable): (s: string)
    ensures opa == 0 ==> s == "NULL"
    ensures opa != 0 && SegOffset(opa) in t ==> s == t[SegOffset(opa)].varName
    ensures opa != 0 && SegOffset(opa) !in t ==> s == RawPointer(opa)
  {
    if opa == 0 then "NULL"
    else if SegOffset(opa) in t then t[SegOffset(opa)].varName
    else RawPointer(opa)
  }

  /** How an entry names its translucent display list: as for the opaque
      one, except that when absent only the segment offset is printed. */
  function XluName(xlu: U32, t: DeclTable): (s: string)
    ensures xlu == 0 ==> s == "NULL"
    ensures xlu != 0 && SegOffset(xlu) in t ==> s == t[SegOffset(xlu)].varName
    ensures xlu != 0 && SegOffset(xlu) !in t ==> s == RawPointer(SegOffset(xlu))
  {
    if xlu == 0 then "NULL"
    else if SegOffset(xlu) in t then t[SegOffset(xlu)].varName
    else RawPointer(SegOffset(xlu))
  }

  /** The same unresolved pointer is printed differently in the two slots
      whenever its segment is not 0: in full as `opa`, as its 24-bit
      offset alone as `xlu`. */
  lemma UnresolvedDlist2Names(p: U32, t: DeclTable)
    requires p != 0 && SegOffset(p) !in t
    ensures ParseHex(OpaName(p, t)[2..]) == p
    ensures ParseHex(XluName(p, t)[2..]) == SegOffset(p) < SEGMENT_SPAN
    ensures SegNum(p) != 0 ==> OpaName(p, t) != XluName(p, t)
  {
  }

  /** `%6i`: a signed value right-aligned in six columns. */
  function Col6(v: int): (s: string)
    ensures |s| >= 6
  {
    PadLeft(Dec(v), 6)
  }

  /** `PolygonDlist2::GetBodySourceCode`. */
  function PolygonDlist2Body(d: PolygonDlist2, t: DeclTable): string {
    "{ " + Col6(d.x) + ", " + Col6(d.y) + ", " + Col6(d.z) + " }, " + Col6(d.unk06) + ", "
      + OpaName(d.opa, t) + ", " + XluName(d.xlu, t)
  }

  // ---------------------------------------------------------------------
  // PolygonType2

  /** A `PolygonType2` (mesh type 2): its type, the entry count, the
      pointers to the first entry and past the last, and the entries. */
  datatype PolygonType2 = PolygonType2(meshType: nat, num: nat, start: U32, end: U32, polyDLists: seq<PolygonDlist2>)

  /** `PolygonType2::GetRawDataSize`. */
  const POLYGON_TYPE2_SIZE: nat := 0x0C

  /** Where entry `i` of a list starting at `first` sits. */
  function Dlist2Slot(first: nat, i: nat): nat {
    first + i * POLYGON_DLIST2_SIZE
  }

  /** Entries `k`, `k + 1`, ... of a list, each where its slot says. */
  predicate Dlist2sFrom(buf: Buffer, first: nat, k: nat, ds: seq<PolygonDlist2>) {
    forall j :: 0 <= j < |ds| ==> PolygonDlist2At(buf, Dlist2Slot(first, k + j), ds[j])
  }

  lemma Dlist2sFromCons(buf: Buffer, first: nat, k: nat, d: PolygonDlist2, ds: seq<PolygonDlist2>)
    requires PolygonDlist2At(buf, Dlist2Slot(first, k), d)
    requires Dlist2sFrom(buf, first, k + 1, ds)
    ensures Dlist2sFrom(buf, first, k, [d] + ds)
  {
    var all := [d] + ds;
    forall j | 0 <= j < |all|
      ensures PolygonDlist2At(buf, Dlist2Slot(first, k + j), all[j])
    {
      if j > 0 {
        assert all[j] == ds[j - 1];
        assert k + j == (k + 1) + (j - 1);
      }
    }
  }

  /** The entries `k` to `num - 1` at 16-byte stride. */
  function ParsePolygonDlist2s(buf: Buffer, first: nat, k: nat, num: nat): (r: Result<seq<PolygonDlist2>>)
    requires k <= num
    ensures r.Ok? <==> k == num || Dlist2Slot(first, num) <= |buf|
    ensures r.Ok? ==> |r.value| == num - k && Dlist2sFrom(buf, first, k, r.value)
    ensures r.Err? ==> r.error.OutOfRange?
    decreases num - k
  {
    if k == num then Ok([])
    else
      var at := Dlist2Slot(first, k);
      match ParsePolygonDlist2(buf, at)
      case Err(e) => Err(e)
      case Ok(d) =>
        ParsePolygonDlist2Layout(buf, at);
        match ParsePolygonDlist2s(buf, first, k + 1, num)
        case Err(e) =>
          assert Dlist2Slot(first, num) > |buf| by {
            assert k + 1 < num;
          }
          Err(e)
        case Ok(ds) =>
          Dlist2sFromCons(buf, first, k, d, ds);
          Ok([d] + ds)
  }

  /** The layout: type at +0 and count at +1 (one byte each), `start` at
      +4 and `end` at +8 (four bytes each). */
  predicate PolygonType2At(buf: Buffer, at: nat, p: PolygonType2) {
    && FieldIs(buf, at, 1, p.meshType) && FieldIs(buf, at + 1, 1, p.num)
    && FieldIs(buf, at + 4, 4, p.start) && FieldIs(buf, at + 8, 4, p.end)
  }

  /** The `PolygonType2` constructor: the fixed fields, then `num` entries
      from the segment offset of `start`. */
  function NewPolygonType2(buf: Buffer, at: nat): (r: Result<PolygonType2>)
    ensures r.Ok? ==> PolygonType2At(buf, at, r.value)
    ensures r.Ok? ==> |r.value.polyDLists| == r.value.num
    ensures r.Ok? ==> Dlist2sFrom(buf, SegOffset(r.value.start), 0, r.value.polyDLists)
    ensures r.Ok? <==>
      && at + POLYGON_TYPE2_SIZE <= |buf|
      && (buf[at + 1] == 0 || Dlist2Slot(SegOffset(ReadU32BE(buf, at + 4).value), buf[at + 1]) <= |buf|)
    ensures r.Err? ==> r.error.OutOfRange?
  {
    var meshType :- ReadU8(buf, at);
    var num :- ReadU8(buf, at + 1);
    var start :- ReadU32BE(buf, at + 4);
    var end :- ReadU32BE(buf, at + 8);
    var ds :- ParsePolygonDlist2s(buf, SegOffset(start), 0, num);
    Ok(PolygonType2(meshType, num, start, end, ds))
  }

  /** `PolygonType2::GetSourceTypeName` and the room's name for the
      record. */
  function PolygonType2Name(room: string, at: nat): string {
    room + "PolygonType2" + "_" + HexPad(at, 6)
  }

  /** The name of the entry array: the room, the entry type and `start`
      as the source prints it (`%06X` of the whole pointer). */
  function PolygonDlist2ArrayName(prefix: string, start: U32): string {
    prefix + "PolygonDlist2" + "0x" + HexPad(start, 6)
  }

  /** The array text: one braced entry per line. */
  function PolygonDlist2Entries(ds: seq<PolygonDlist2>, t: DeclTable): (lines: seq<string>)
    ensures |lines| == |ds|
    ensures forall i :: 0 <= i < |ds| ==> lines[i] == "    { " + PolygonDlist2Body(ds[i], t) + " },"
  {
    seq(|ds|, i requires 0 <= i < |ds| => "    { " + PolygonDlist2Body(ds[i], t) + " },")
  }

  /** The `terminatorMaybe` word declared after a list of display lists. */
  function DeclareTerminator(t: DeclTable, off: nat, alignment: Alignment): (r: DeclTable)
    ensures OnlyChangedAt(t, r, off)
    ensures r[off] == Decl(alignment, Pad16, 4, "static s32", "terminatorMaybe", Scalar, "0x01000000")
  {
    AddDeclaration(t, off, alignment, Pad16, 4, "static s32", "terminatorMaybe", "0x01000000")
  }

  /** The declaration of the entry array: 4-aligned, 16 bytes per entry. */
  function PolygonDlist2ArrayDecl(p: PolygonType2, prefix: string, t: DeclTable): (d: Decl)
    ensures d.varName == PolygonDlist2ArrayName(prefix, p.start)
    ensures d.size == POLYGON_DLIST2_SIZE * |p.polyDLists| && d.kind == Array(|p.polyDLists|)
  {
    Decl(Align4, PadNone, POLYGON_DLIST2_SIZE * |p.polyDLists|, "PolygonDlist2",
         PolygonDlist2ArrayName(prefix, p.start), Array(|p.polyDLists|),
         Join(PolygonDlist2Entries(p.polyDLists, t), "\n"))
  }

  /** The first half of `PolygonType2::DeclareReferences`: the entries
      as one array when there are any. */
  function DeclarePolygonDlist2Array(p: PolygonType2, prefix: string, t: DeclTable): (r: DeclTable)
    ensures |p.polyDLists| == 0 ==> r == t
    ensures |p.polyDLists| > 0 ==> OnlyChangedAt(t, r, SegOffset(p.start))
    ensures |p.polyDLists| > 0 ==> r[SegOffset(p.start)] == PolygonDlist2ArrayDecl(p, prefix, t)
  {
    if |p.polyDLists| > 0 then t[SegOffset(p.start) := PolygonDlist2ArrayDecl(p, prefix, t)] else t
  }

  /** `PolygonType2::DeclareReferences`: the array, then the terminator at
      the segment offset of `end`. */
  function PolygonType2References(p: PolygonType2, prefix: string, t: DeclTable): (r: DeclTable)
    ensures OnlyChangedAt(DeclarePolygonDlist2Array(p, prefix, t), r, SegOffset(p.end))
    ensures r[SegOffset(p.end)] == Decl(Align4, Pad16, 4, "static s32", "terminatorMaybe", Scalar, "0x01000000")
  {
    DeclareTerminator(DeclarePolygonDlist2Array(p, prefix, t), SegOffset(p.end), Align4)
  }

  /** How the record names its entry array: by address of the declaration
      at the segment offset of `start`, or that offset in hex. */
  function PolygonType2ListName(start: U32, t: DeclTable): (s: string)
    ensures start == 0 ==> s == "NULL"
    ensures start != 0 && SegOffset(start) in t ==> s == "&" + t[SegOffset(start)].varName
    ensures start != 0 && SegOffset(start) !in t ==> s == Hex(SegOffset(start), 8)
  {
    if start == 0 then "NULL"
    else if SegOffset(start) in t then "&" + t[SegOffset(start)].varName
    else Hex(SegOffset(start), 8)
  }

  /** `PolygonType2::GetBodySourceCode`: type and count, then the array's
      start and end. */
  function PolygonType2Body(p: PolygonType2, t: DeclTable): string {
    var listName := PolygonType2ListName(p.start, t);
    "\n    " + Dec(p.meshType) + ", " + Dec(|p.polyDLists|) + ",\n"
      + "    " + listName + ",\n"
      + "    " + listName + " + ARRAY_COUNTU(" + listName + ")\n"
  }

  /** Mesh type 2 in `SetMesh`: the references first, then the record
      itself, whose text sees them. */
  function MeshType2Output(p: PolygonType2, room: string, at: nat, t: DeclTable): (r: DeclTable)
    ensures t.Keys <= r.Keys && at in r
    ensures var t1 := PolygonType2References(p, room, t);
      && OnlyChangedAt(t1, r, at)
      && r[at] == Decl(Align4, PadNone, POLYGON_TYPE2_SIZE, "PolygonType2", PolygonType2Name(room, at), Scalar,
                       PolygonType2Body(p, t1))
  {
    var t1 := PolygonType2References(p, room, t);
    AddDeclaration(t1, at, Align4, PadNone, POLYGON_TYPE2_SIZE, "PolygonType2", PolygonType2Name(room, at),
                   PolygonType2Body(p, t1))
  }

  /** With entries and a non-null `start`, the record's text points at
      the entry array just declared, unless the terminator lands on the
      same offset: then it replaces the array, and the text points at the
      terminator instead. */
  lemma MeshType2NamesItsArray(p: PolygonType2, room: string, t: DeclTable)
    requires |p.polyDLists| > 0 && p.start != 0
    ensures var t1 := PolygonType2References(p, room, t);
      && (SegOffset(p.start) != SegOffset(p.end) ==>
            PolygonType2ListName(p.start, t1) == "&" + PolygonDlist2ArrayName(room, p.start))
      && (SegOffset(p.start) == SegOffset(p.end) ==>
            PolygonType2ListName(p.start, t1) == "&" + "terminatorMaybe")
  {
    var t1 := PolygonType2References(p, room, t);
    if SegOffset(p.start) != SegOffset(p.end) {
      ArrayDeclaredUnderItsName(p, room, t);
    } else {
      assert t1[SegOffset(p.start)].varName == "terminatorMaybe";
    }
  }

  /** The entry array survives the terminator when their offsets differ. */
  lemma ArrayDeclaredUnderItsName(p: PolygonType2, room: string, t: DeclTable)
    requires |p.polyDLists| > 0 && SegOffset(p.start) != SegOffset(p.end)
    ensures var t1 := PolygonType2References(p, room, t);
      SegOffset(p.start) in t1 && t1[SegOffset(p.start)].varName == PolygonDlist2ArrayName(room, p.start)
  {
    var t0 := DeclarePolygonDlist2Array(p, room, t);
    var t1 := PolygonType2References(p, room, t);
    assert SegOffset(p.start) in t0;
    assert t1[SegOffset(p.start)] == t0[SegOffset(p.start)];
  }

  // ---------------------------------------------------------------------
  // Mesh type 0: a header and an array of `PolygonDlist` entries.

  /** The fixed fields of a type-0 mesh header: the entry count as the
      signed byte at +1, and the file offsets of the pointers at +4 and
      +8. */
  datatype MeshHeader0 = MeshHeader0(count: int, dListStart: nat, dListEnd: nat)

  function ParseMeshHeader0(buf: Buffer, at: nat, base: nat, s2f: Seg2FilespaceFn): (r: Result<MeshHeader0>)
    ensures r.Ok? <==> at + 12 <= |buf|
    ensures r.Ok? ==> r.value.count == ToS8(buf[at + 1])
    ensures r.Ok? ==> r.value.dListStart == s2f(ReadU32BE(buf, at + 4).value, base)
    ensures r.Ok? ==> r.value.dListEnd == s2f(ReadU32BE(buf, at + 8).value, base)
    ensures r.Err? ==> r.error.OutOfRange?
  {
    match (ReadU32BE(buf, at + 4), ReadU32BE(buf, at + 8))
    case (Ok(start), Ok(end)) => Ok(MeshHeader0(ToS8(buf[at + 1]), s2f(start, base), s2f(end, base)))
    case (Err(e), _) => Err(e)
    case (_, Err(e)) => Err(e)
  }

  /** The offset of entry `i`: the source steps a `uint32_t` by 8 bytes. */
  function MeshEntrySlot(first: nat, i: int): (o: nat)
    ensures o < 0x1_0000_0000
    ensures 0 <= first + 8 * i < 0x1_0000_0000 ==> o == first + 8 * i
  {
    (first + 8 * i) % 0x1_0000_0000
  }

  /** Every one of the `n` entries lies inside the buffer. */
  predicate MeshEntriesFit(buf: Buffer, first: nat, n: nat) {
    forall i :: 0 <= i < n ==> MeshEntrySlot(first, i) + POLYGON_DLIST_SIZE <= |buf|
  }

  /** The `n` entries the buffer holds from `first`, each parsed where it
      lies. */
  function MeshEntries(room: string, buf: Buffer, first: nat, n: nat): (ds: seq<PolygonDlist>)
    requires MeshEntriesFit(buf, first, n)
    ensures |ds| == n
    ensures forall i :: 0 <= i < n ==>
      && ds[i].offset == MeshEntrySlot(first, i)
      && ds[i].name == PolygonDlistName(room, MeshEntrySlot(first, i))
      && PolygonDlistAt(buf, MeshEntrySlot(first, i), ds[i].opa, ds[i].xlu)
  {
    seq(n, i requires 0 <= i < n => ParsePolygonDlist(room, buf, MeshEntrySlot(first, i)).value)
  }

  /** One more entry extends the list by the entry parsed at its slot. */
  lemma MeshEntriesSnoc(room: string, buf: Buffer, first: nat, i: nat)
    requires MeshEntriesFit(buf, first, i) && MeshEntrySlot(first, i) + POLYGON_DLIST_SIZE <= |buf|
    ensures MeshEntriesFit(buf, first, i + 1)
    ensures MeshEntries(room, buf, first, i + 1)
         == MeshEntries(room, buf, first, i) + [ParsePolygonDlist(room, buf, MeshEntrySlot(first, i)).value]
  {
    var a := MeshEntries(room, buf, first, i + 1);
    var b := MeshEntries(room, buf, first, i) + [ParsePolygonDlist(room, buf, MeshEntrySlot(first, i)).value];
    forall j | 0 <= j < i + 1
      ensures a[j] == b[j]
    {
    }
  }

  /** The entries as array elements, in order. */
  function MeshEntryBodies(ds: seq<PolygonDlist>, base: nat, s2f: Seg2FilespaceFn, t: DeclTable): (bodies: seq<string>)
    ensures |bodies| == |ds|
    ensures forall i :: 0 <= i < |ds| ==> bodies[i] == PolygonDlistBody(ds[i], true, base, s2f, t)
  {
    seq(|ds|, i requires 0 <= i < |ds| => PolygonDlistBody(ds[i], true, base, s2f, t))
  }

  /** The text of one more entry follows the text of the others. */
  lemma MeshEntryBodiesSnoc(ds: seq<PolygonDlist>, d: PolygonDlist, base: nat, s2f: Seg2FilespaceFn, t: DeclTable)
    ensures Concat(MeshEntryBodies(ds + [d], base, s2f, t))
         == Concat(MeshEntryBodies(ds, base, s2f, t)) + PolygonDlistBody(d, true, base, s2f, t)
  {
    var body := PolygonDlistBody(d, true, base, s2f, t);
    assert MeshEntryBodies(ds + [d], base, s2f, t) == MeshEntryBodies(ds, base, s2f, t) + [body];
    ConcatSnoc(MeshEntryBodies(ds, base, s2f, t), body);
  }

  /** The loop of `SetMesh` for type 0: parses the `n` entries one after
      the other and concatenates their array-element text. */
  method ParseMeshEntries(room: string, buf: Buffer, first: nat, n: nat, base: nat, s2f: Seg2FilespaceFn, t: DeclTable)
    returns (r: Result<string>)
    ensures r.Ok? <==> MeshEntriesFit(buf, first, n)
    ensures r.Ok? ==> r.value == Concat(MeshEntryBodies(MeshEntries(room, buf, first, n), base, s2f, t))
    ensures r.Err? ==> r.error.OutOfRange?
  {
    var ds: seq<PolygonDlist> := [];
    var text := "";
    var i := 0;
    while i < n
      invariant 0 <= i <= n
      invariant MeshEntriesFit(buf, first, i)
      invariant ds == MeshEntries(room, buf, first, i)
      invariant text == Concat(MeshEntryBodies(ds, base, s2f, t))
    {
      var slot := MeshEntrySlot(first, i);
      match ParsePolygonDlist(room, buf, slot) {
        case Err(e) =>
          assert !(slot + POLYGON_DLIST_SIZE <= |buf|);
          return Err(e);
        case Ok(d) =>
          var body := PolygonDlistBody(d, true, base, s2f, t);
          MeshEntryBodiesSnoc(ds, d, base, s2f, t);
          MeshEntriesSnoc(room, buf, first, i);
          ds := ds + [d];
          text := text + body;
          i := i + 1;
      }
    }
    r := Ok(text);
  }

  function MeshHeader0Name(room: string, at: nat): string {
    room + "MeshHeader0x" + HexPad(at, 6)
  }

  function PolygonDlistArrayName(room: string, start: nat): string {
    room + "PolygonDlist" + "0x" + HexPad(start, 6)
  }

  /** The header's text: the count printed as `%02X` of the signed byte
      (so a negative count shows all 32 bits), then the first entry and
      one past the last, by the name `entries`. */
  function MeshHeader0Text(count: int, entries: string, dListEnd: nat): string
    requires -0x80 <= count < 0x80
  {
    "\n    " + "{ 0 }, " + Hex((count + 0x1_0000_0000) % 0x1_0000_0000, 2) + ", "
      + "\n    " + entries + ", "
      + "\n    " + (if dListEnd != 0 then entries + " + ARRAY_COUNT(" + entries + "), " else "NULL, ")
      + "\n"
  }

  /** How the header names its entries: "NULL" without a start, else the
      declaration there, which the entries just declared when there are
      any. */
  function MeshHeader0EntriesName(h: MeshHeader0, room: string, t: DeclTable): (r: Result<string>)
    ensures h.dListStart == 0 ==> r == Ok("NULL")
    ensures h.dListStart != 0 && h.count > 0 ==> r == Ok(PolygonDlistArrayName(room, h.dListStart))
    ensures h.dListStart != 0 && h.count <= 0 ==>
      if h.dListStart in t then r == Ok(t[h.dListStart].varName) else r == Err(MissingDeclaration(h.dListStart))
  {
    if h.dListStart == 0 then Ok("NULL")
    else if h.count > 0 then Ok(PolygonDlistArrayName(room, h.dListStart))
    else if h.dListStart in t then Ok(t[h.dListStart].varName)
    else Err(MissingDeclaration(h.dListStart))
  }

  /** The entry array a type-0 header declares at its start, with the
      entries' text. */
  function MeshEntryArrayDecl(room: string, h: MeshHeader0, text: string): (d: Decl)
    ensures d.varName == PolygonDlistArrayName(room, h.dListStart) && d.text == text
    ensures h.count > 0 ==> d.size == POLYGON_DLIST_SIZE * h.count && d.kind == Array(h.count)
  {
    Decl(Align4, PadNone, POLYGON_DLIST_SIZE * (if h.count > 0 then h.count else 0), "PolygonDlist",
         PolygonDlistArrayName(room, h.dListStart), Array(if h.count > 0 then h.count else 0), text)
  }

  /** The entry array, declared only for a positive count. */
  function DeclareMeshEntryArray(room: string, h: MeshHeader0, text: string, t: DeclTable): (r: DeclTable)
    ensures h.count <= 0 ==> r == t
    ensures h.count > 0 ==> OnlyChangedAt(t, r, h.dListStart)
    ensures h.count > 0 ==> r[h.dListStart] == MeshEntryArrayDecl(room, h, text)
  {
    if h.count > 0 then t[h.dListStart := MeshEntryArrayDecl(room, h, text)] else t
  }

  /** The header's declaration. */
  function MeshHeader0Decl(room: string, at: nat, h: MeshHeader0, entries: string): (d: Decl)
    requires -0x80 <= h.count < 0x80
    ensures d.varName == MeshHeader0Name(room, at) && d.size == 12 && d.alignment == Align16
  {
    Decl(Align16, PadNone, 12, "MeshHeader0", MeshHeader0Name(room, at), Scalar, MeshHeader0Text(h.count, entries, h.dListEnd))
  }

  /** What a type-0 header declares once its entries' text is known: the
      array, the header, whose text names the entries, and the terminator
      word after the last entry (at a 32-bit offset, so a non-positive
      count puts it at or before the start). A start that is neither null
      nor declared fails. */
  function MeshHeader0Output(room: string, at: nat, h: MeshHeader0, text: string, t: DeclTable): (r: Result<DeclTable>)
    requires -0x80 <= h.count < 0x80
    ensures r.Ok? <==> MeshHeader0EntriesName(h, room, t).Ok?
    ensures r.Err? ==> r.error == MeshHeader0EntriesName(h, room, t).error
    ensures r.Ok? ==> at in r.value
    ensures r.Ok? ==>
      var term := MeshEntrySlot(h.dListStart, h.count);
      var t0 := DeclareMeshEntryArray(room, h, text, t);
      && r.value.Keys == t0.Keys + {at, term}
      && (forall k :: k in t0 && k != at && k != term ==> r.value[k] == t0[k])
      && r.value[term] == Decl(AlignNone, Pad16, 4, "static s32", "terminatorMaybe", Scalar, "0x01000000")
      && (at != term ==> r.value[at] == MeshHeader0Decl(room, at, h, MeshHeader0EntriesName(h, room, t).value))
  {
    match MeshHeader0EntriesName(h, room, t)
    case Err(e) => Err(e)
    case Ok(entries) =>
      var t0 := DeclareMeshEntryArray(room, h, text, t);
      var t1 := t0[at := MeshHeader0Decl(room, at, h, entries)];
      var term := MeshEntrySlot(h.dListStart, h.count);
      var r := DeclareTerminator(t1, term, AlignNone);
      HeaderThenTerminator(t0, at, MeshHeader0Decl(room, at, h, entries), term);
      Ok(r)
  }

  /** Storing a header and then declaring a terminator touches only those
      two offsets, and the terminator wins when they coincide. */
  lemma HeaderThenTerminator(t0: DeclTable, at: nat, d: Decl, term: nat)
    ensures var r := DeclareTerminator(t0[at := d], term, AlignNone);
      && r.Keys == t0.Keys + {at, term}
      && (forall k :: k in t0 && k != at && k != term ==> r[k] == t0[k])
      && (at != term ==> r[at] == d)
  {
    var t1 := t0[at := d];
    var r := DeclareTerminator(t1, term, AlignNone);
    assert r.Keys == t1.Keys + {term};
    assert t1.Keys == t0.Keys + {at};
  }

  /** With a positive count and a non-null start away from the header,
      the header's text names the entry array under the name it keeps in
      the resulting table: the terminator, 8 bytes per entry further on,
      cannot land on it. */
  lemma MeshHeader0NamesItsEntries(room: string, at: nat, h: MeshHeader0, text: string, t: DeclTable)
    requires 0 < h.count < 0x80 && 0 < h.dListStart < 0x1_0000_0000 && h.dListStart != at
    ensures MeshHeader0Output(room, at, h, text, t).Ok?
    ensures var r := MeshHeader0Output(room, at, h, text, t).value;
      && h.dListStart in r
      && r[h.dListStart] == MeshEntryArrayDecl(room, h, text)
      && (at != MeshEntrySlot(h.dListStart, h.count) ==>
            r[at] == MeshHeader0Decl(room, at, h, r[h.dListStart].varName))
  {
    var term := MeshEntrySlot(h.dListStart, h.count);
    assert term != h.dListStart by {
      if h.dListStart + 8 * h.count < 0x1_0000_0000 {
        assert term == h.dListStart + 8 * h.count;
      } else {
        assert term == h.dListStart + 8 * h.count - 0x1_0000_0000;
      }
    }
    var t0 := DeclareMeshEntryArray(room, h, text, t);
    assert h.dListStart in t0;
  }

  /** Mesh type 0 in `SetMesh`: the header's fields, the entries' text
      when the count is positive, then the declarations. */
  method NewMeshHeader0(room: string, buf: Buffer, at: nat, base: nat, s2f: Seg2FilespaceFn, t: DeclTable)
    returns (r: Result<DeclTable>)
    ensures r.Ok? <==> MeshHeader0Makes(room, buf, at, base, s2f, t)
    ensures r.Ok? ==> t.Keys <= r.value.Keys && at in r.value
    ensures ParseMeshHeader0(buf, at, base, s2f).Err? ==> r.Err? && r.error.OutOfRange?
    ensures ParseMeshHeader0(buf, at, base, s2f).Ok? ==>
      var h := ParseMeshHeader0(buf, at, base, s2f).value;
      if h.count > 0 && !MeshEntriesFit(buf, h.dListStart, h.count) then r.Err? && r.error.OutOfRange?
      else r == MeshHeader0Output(room, at, h, MeshEntryText(room, buf, h, base, s2f, t), t)
  {
    var parsed := ParseMeshHeader0(buf, at, base, s2f);
    if parsed.Err? {
      return Err(parsed.error);
    }
    var h := parsed.value;
    var text := "";
    if h.count > 0 {
      var bodies := ParseMeshEntries(room, buf, h.dListStart, h.count, base, s2f, t);
      if bodies.Err? {
        return Err(bodies.error);
      }
      text := bodies.value;
    }
    r := MeshHeader0Output(room, at, h, text, t);
  }

  /** The mesh type 0 constructor succeeds: the header can be read, its
      entries lie in the buffer, and its output step succeeds. */
  predicate MeshHeader0Makes(room: string, buf: Buffer, at: nat, base: nat, s2f: Seg2FilespaceFn, t: DeclTable) {
    && ParseMeshHeader0(buf, at, base, s2f).Ok?
    && var h := ParseMeshHeader0(buf, at, base, s2f).value;
       && (h.count > 0 ==> MeshEntriesFit(buf, h.dListStart, h.count))
       && MeshHeader0Output(room, at, h, MeshEntryText(room, buf, h, base, s2f, t), t).Ok?
  }

  /** The entries' text: their array-element bodies, one after the other. */
  function MeshEntryText(room: string, buf: Buffer, h: MeshHeader0, base: nat, s2f: Seg2FilespaceFn, t: DeclTable): string
    requires h.count > 0 ==> MeshEntriesFit(buf, h.dListStart, h.count)
  {
    if h.count > 0 then Concat(MeshEntryBodies(MeshEntries(room, buf, h.dListStart, h.count), base, s2f, t)) else ""
  }

  // ---------------------------------------------------------------------
  // The command.

  /** Mesh type 1: the record, declared with everything it refers to. */
  function MeshType1(room: string, buf: Buffer, at: nat, base: nat, s2f: Seg2FilespaceFn, t: DeclTable): (r: Result<DeclTable>)
    ensures r.Ok? <==> NewPolygonType1(room, buf, at, base, s2f, t).Ok?
    ensures r.Err? ==> r.error == NewPolygonType1(room, buf, at, base, s2f, t).error
    ensures r.Ok? ==> t.Keys <= r.value.Keys && at in r.value
    ensures r.Ok? ==> var made := NewPolygonType1(room, buf, at, base, s2f, t).value;
      r.value == PolygonType1Output(made.0, base, s2f, made.1)
  {
    match NewPolygonType1(room, buf, at, base, s2f, t)
    case Err(e) => Err(e)
    case Ok(made) => Ok(PolygonType1Output(made.0, base, s2f, made.1))
  }

  /** Mesh type 2: the entries and terminator, then the record. */
  function MeshType2(room: string, buf: Buffer, at: nat, t: DeclTable): (r: Result<DeclTable>)
    ensures r.Ok? <==> NewPolygonType2(buf, at).Ok?
    ensures r.Err? ==> r.error.OutOfRange?
    ensures r.Ok? ==> t.Keys <= r.value.Keys && at in r.value
    ensures r.Ok? ==>
      var p := NewPolygonType2(buf, at).value;
      r.value[at] == Decl(Align4, PadNone, POLYGON_TYPE2_SIZE, "PolygonType2", PolygonType2Name(room, at), Scalar,
                          PolygonType2Body(p, PolygonType2References(p, room, t)))
  {
    match NewPolygonType2(buf, at)
    case Err(e) => Err(e)
    case Ok(p) => Ok(MeshType2Output(p, room, at, t))
  }

  /** `SetMesh`'s constructor: the mesh type byte at the command's
      segment offset selects the header layout; types other than 0, 1 and
      2 declare nothing. */
  method DeclareMesh(room: string, buf: Buffer, at: nat, base: nat, s2f: Seg2FilespaceFn, t: DeclTable)
    returns (r: Result<DeclTable>)
    ensures at >= |buf| ==> r.Err? && r.error.OutOfRange?
    ensures at < |buf| && buf[at] > 2 ==> r == Ok(t)
    ensures r.Ok? ==> t.Keys <= r.value.Keys
    ensures r.Ok? && buf[at] <= 2 ==> at in r.value
    ensures at < |buf| && buf[at] == 0 ==>
      && (r.Ok? <==> MeshHeader0Makes(room, buf, at, base, s2f, t))
      && (ParseMeshHeader0(buf, at, base, s2f).Err? ==> r.Err? && r.error.OutOfRange?)
    ensures at < |buf| && buf[at] == 0 && ParseMeshHeader0(buf, at, base, s2f).Ok? ==>
      var h := ParseMeshHeader0(buf, at, base, s2f).value;
      if h.count > 0 && !MeshEntriesFit(buf, h.dListStart, h.count) then r.Err? && r.error.OutOfRange?
      else r == MeshHeader0Output(room, at, h, MeshEntryText(room, buf, h, base, s2f, t), t)
    ensures at < |buf| && buf[at] == 1 ==>
      (r.Ok? <==> NewPolygonType1(room, buf, at, base, s2f, t).Ok?)
      && (r.Err? ==> r.error == NewPolygonType1(room, buf, at, base, s2f, t).error)
    ensures at < |buf| && buf[at] == 1 && r.Ok? ==>
      var made := NewPolygonType1(room, buf, at, base, s2f, t).value;
      r.value == PolygonType1Output(made.0, base, s2f, made.1)
    ensures at < |buf| && buf[at] == 2 ==>
      && (r.Ok? <==> NewPolygonType2(buf, at).Ok?)
      && (r.Ok? ==>
            var p := NewPolygonType2(buf, at).value;
            r.value[at] == Decl(Align4, PadNone, POLYGON_TYPE2_SIZE, "PolygonType2", PolygonType2Name(room, at), Scalar,
                                PolygonType2Body(p, PolygonType2References(p, room, t))))
  {
    var meshType := ReadU8(buf, at);
    if meshType.Err? {
      return Err(meshType.error);
    }
    if meshType.value == 0 {
      r := NewMeshHeader0(room, buf, at, base, s2f, t);
    } else if meshType.value == 1 {
      r := MeshType1(room, buf, at, base, s2f, t);
    } else if meshType.value == 2 {
      r := MeshType2(room, buf, at, t);
    } else {
      r := Ok(t);
    }
  }
}
