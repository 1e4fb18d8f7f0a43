/** `ZMessageHeader`: the fixed-size record in front of a message (text-box
    type, vertical position, item icon, next message, price and two
    reserved halfwords), followed directly by the message it introduces.

    The halfword encoding (Jpn) widens the item icon to a halfword and the
    record to 0x0C bytes; every other encoding keeps it a byte in a 0x0B-byte
    record, so the halfwords after it are unaligned.
 */
module MessageHeader {
  import opened Wrappers
  import opened Bytes
  import opened Text
  import opened Declarations
  import opened Message

  datatype HeaderFields = HeaderFields(
    boxType: nat,
    yPos: nat,
    itemIcon: nat,
    nextMsgId: nat,
    itemPrice: nat,
    ffff1: nat,
    ffff2: nat)

  datatype ZMessageHeader = ZMessageHeader(
    name: string,
    offset: nat,
    encoding: Encoding,
    fields: HeaderFields,
    msg: ZMessage)

  /** The `Encoding` attribute as the header reads it: "Ascii", "Jpn" and
      "Cn" select an encoding, any other value falls back to Ascii, and no
      attribute leaves the encoding as it was. */
  function HeaderEncodingAttr(current: Encoding, attr: Option<string>): (e: Encoding)
    ensures attr.None? ==> e == current
    ensures attr.Some? ==> (e == Jpn <==> attr.value == "Jpn")
    ensures attr.Some? ==> (e == Cn <==> attr.value == "Cn")
    ensures attr.Some? ==> (e == Ascii <==> attr.value != "Jpn" && attr.value != "Cn")
  {
    match attr
    case None => current
    case Some(s) => if s == "Ascii" then Ascii else if s == "Jpn" then Jpn else if s == "Cn" then Cn else Ascii
  }

  /** `ZMessageHeader::GetRawDataSize`. */
  function HeaderSize(e: Encoding): nat {
    if e == Jpn then 0x0C else 0x0B
  }

  /** Width in bytes of the item icon field. */
  function IconWidth(e: Encoding): nat {
    if e == Jpn then 2 else 1
  }

  /** The fields fit their declared widths. */
  predicate FieldsFit(f: HeaderFields, e: Encoding) {
    && f.boxType < 0x100 && f.yPos < 0x100 && f.itemIcon < Pow256(IconWidth(e))
    && f.nextMsgId < 0x1_0000 && f.itemPrice < 0x1_0000 && f.ffff1 < 0x1_0000 && f.ffff2 < 0x1_0000
  }

  /** `ZMessageHeader::ParseRawData`: the type and position bytes, then the
      item icon (a halfword in Jpn, a byte otherwise) and four big-endian
      halfwords right after it; the last one ends exactly at the record's
      size. */
  function ParseHeaderFields(e: Encoding, buf: Buffer, at: nat): (r: Result<HeaderFields>)
    ensures r.Ok? <==> at + HeaderSize(e) <= |buf|
    ensures r.Ok? ==> FieldsFit(r.value, e)
    ensures r.Ok? ==> r.value.boxType == buf[at] && r.value.yPos == buf[at + 1]
    ensures r.Ok? ==> EncodeBE(r.value.itemIcon, IconWidth(e)) == buf[at + 2..at + 2 + IconWidth(e)]
    ensures r.Ok? ==> var p := at + 2 + IconWidth(e);
      && EncodeBE(r.value.nextMsgId, 2) == buf[p..p + 2]
      && EncodeBE(r.value.itemPrice, 2) == buf[p + 2..p + 4]
      && EncodeBE(r.value.ffff1, 2) == buf[p + 4..p + 6]
      && EncodeBE(r.value.ffff2, 2) == buf[p + 6..p + 8]
      && p + 8 == at + HeaderSize(e)
  {
    var boxType :- ReadU8(buf, at + 0);
    var yPos :- ReadU8(buf, at + 1);
    var p := at + 2 + IconWidth(e);
    var itemIcon :- ReadBE(buf, at + 2, IconWidth(e));
    var nextMsgId :- ReadU16BE(buf, p);
    var itemPrice :- ReadU16BE(buf, p + 2);
    var ffff1 :- ReadU16BE(buf, p + 4);
    var ffff2 :- ReadU16BE(buf, p + 6);
    Ok(HeaderFields(boxType, yPos, itemIcon, nextMsgId, itemPrice, ffff1, ffff2))
  }

  /** The record's bytes for the given fields: the inverse of the parse. */
  function EncodeHeaderFields(f: HeaderFields, e: Encoding): (bytes: Buffer)
    ensures |bytes| == HeaderSize(e)
  {
    [f.boxType % 0x100, f.yPos % 0x100] + EncodeBE(f.itemIcon, IconWidth(e))
      + EncodeBE(f.nextMsgId, 2) + EncodeBE(f.itemPrice, 2) + EncodeBE(f.ffff1, 2) + EncodeBE(f.ffff2, 2)
  }

  /** Two values that fit the width and encode alike are equal. */
  lemma EncodeBEInjective(a: nat, b: nat, width: nat)
    requires a < Pow256(width) && b < Pow256(width)
    requires EncodeBE(a, width) == EncodeBE(b, width)
    ensures a == b
  {
    DecodeEncode(a, width);
    DecodeEncode(b, width);
  }

  /** Where each field lands in the encoding. */
  lemma EncodeHeaderLayout(f: HeaderFields, e: Encoding)
    requires FieldsFit(f, e)
    ensures var enc := EncodeHeaderFields(f, e); var w := IconWidth(e);
      && enc[0] == f.boxType && enc[1] == f.yPos
      && enc[2..2 + w] == EncodeBE(f.itemIcon, w)
      && enc[2 + w..4 + w] == EncodeBE(f.nextMsgId, 2)
      && enc[4 + w..6 + w] == EncodeBE(f.itemPrice, 2)
      && enc[6 + w..8 + w] == EncodeBE(f.ffff1, 2)
      && enc[8 + w..10 + w] == EncodeBE(f.ffff2, 2)
  {
    var w := IconWidth(e);
    var a := [f.boxType % 0x100, f.yPos % 0x100] + EncodeBE(f.itemIcon, w);
    var b := a + EncodeBE(f.nextMsgId, 2);
    var c := b + EncodeBE(f.itemPrice, 2);
    var d := c + EncodeBE(f.ffff1, 2);
    var enc := d + EncodeBE(f.ffff2, 2);
    assert enc == EncodeHeaderFields(f, e);
    assert enc[..|d|] == d && d[..|c|] == c && c[..|b|] == b && b[..|a|] == a;
    assert a[2..2 + w] == EncodeBE(f.itemIcon, w);
    assert b[2 + w..4 + w] == EncodeBE(f.nextMsgId, 2);
    assert c[4 + w..6 + w] == EncodeBE(f.itemPrice, 2);
    assert d[6 + w..8 + w] == EncodeBE(f.ffff1, 2);
    assert enc[8 + w..10 + w] == EncodeBE(f.ffff2, 2);
  }

  /** The buffer holds the fields' encoding at `at`. */
  predicate HeaderAt(buf: Buffer, at: nat, f: HeaderFields, e: Encoding) {
    var p := at + 2 + IconWidth(e);
    && at + HeaderSize(e) <= |buf| && p + 8 == at + HeaderSize(e)
    && buf[at] == f.boxType && buf[at + 1] == f.yPos
    && EncodeBE(f.itemIcon, IconWidth(e)) == buf[at + 2..p]
    && EncodeBE(f.nextMsgId, 2) == buf[p..p + 2]
    && EncodeBE(f.itemPrice, 2) == buf[p + 2..p + 4]
    && EncodeBE(f.ffff1, 2) == buf[p + 4..p + 6]
    && EncodeBE(f.ffff2, 2) == buf[p + 6..p + 8]
  }

  /** At most one set of fitting fields is encoded at a place. */
  lemma HeaderAtUnique(buf: Buffer, at: nat, f: HeaderFields, g: HeaderFields, e: Encoding)
    requires HeaderAt(buf, at, f, e) && HeaderAt(buf, at, g, e)
    requires FieldsFit(f, e) && FieldsFit(g, e)
    ensures f == g
  {
    EncodeBEInjective(f.itemIcon, g.itemIcon, IconWidth(e));
    EncodeBEInjective(f.nextMsgId, g.nextMsgId, 2);
    EncodeBEInjective(f.itemPrice, g.itemPrice, 2);
    EncodeBEInjective(f.ffff1, g.ffff1, 2);
    EncodeBEInjective(f.ffff2, g.ffff2, 2);
  }

  /** A slice of an embedded encoding is the same slice of the buffer. */
  lemma SliceOfEmbedded(buf: Buffer, at: nat, enc: Buffer, lo: nat, hi: nat)
    requires at + |enc| <= |buf| && buf[at..at + |enc|] == enc
    requires lo <= hi <= |enc|
    ensures buf[at + lo..at + hi] == enc[lo..hi]
  {
    forall k | 0 <= k < hi - lo
      ensures buf[at + lo..at + hi][k] == enc[lo..hi][k]
    {
      assert buf[at + lo + k] == buf[at..at + |enc|][lo + k];
    }
  }

  /** The encoding of fitting fields, put anywhere, holds those fields. */
  lemma EncodedHeaderAt(buf: Buffer, at: nat, f: HeaderFields, e: Encoding)
    requires FieldsFit(f, e)
    requires var enc := EncodeHeaderFields(f, e); at + |enc| <= |buf| && buf[at..at + |enc|] == enc
    ensures HeaderAt(buf, at, f, e)
  {
    var enc := EncodeHeaderFields(f, e);
    var w := IconWidth(e);
    EncodeHeaderLayout(f, e);
    SliceOfEmbedded(buf, at, enc, 0, 2);
    SliceOfEmbedded(buf, at, enc, 2, 2 + w);
    SliceOfEmbedded(buf, at, enc, 2 + w, 4 + w);
    SliceOfEmbedded(buf, at, enc, 4 + w, 6 + w);
    SliceOfEmbedded(buf, at, enc, 6 + w, 8 + w);
    SliceOfEmbedded(buf, at, enc, 8 + w, 10 + w);
    assert buf[at..at + 2][0] == buf[at] && buf[at..at + 2][1] == buf[at + 1];
  }

  /** Parsing the encoding of a header, wherever it sits in a buffer, gives
      the header's fields back. */
  lemma ParseEncodedHeader(prefix: Buffer, f: HeaderFields, e: Encoding, suffix: Buffer)
    requires FieldsFit(f, e)
    ensures ParseHeaderFields(e, prefix + EncodeHeaderFields(f, e) + suffix, |prefix|) == Ok(f)
  {
    var enc := EncodeHeaderFields(f, e);
    var buf := prefix + enc + suffix;
    var at := |prefix|;
    assert buf[at..at + |enc|] == enc;
    EncodedHeaderAt(buf, at, f, e);
    var g := ParseHeaderFields(e, buf, at).value;
    HeaderAtUnique(buf, at, f, g, e);
  }

  /** `ZMessageHeader::GetDefaultName`. */
  function DefaultName(prefix: string, at: nat): (name: string)
    ensures |name| >= |prefix| + 16 && name[..|prefix|] == prefix && name[|prefix|..|prefix| + 10] == "MsgHeader_"
    ensures IsHex(name[|prefix| + 10..]) && ParseHex(name[|prefix| + 10..]) == at
    ensures at < 0x100_0000 ==> |name| == |prefix| + 10 + 6
  {
    assert Pow16(6) == 0x100_0000;
    var name := prefix + "MsgHeader_" + HexPad(at, 6);
    assert name[|prefix| + 10..] == HexPad(at, 6);
    name
  }

  /** Both constructors: the record, then the message that starts right
      after it, in the same encoding and named after the header. */
  function NewHeader(name: string, e: Encoding, buf: Buffer, at: nat): (r: Result<ZMessageHeader>)
    ensures r.Ok? <==> at + HeaderSize(e) <= |buf| && ParseMessage(MessageName(name, at + HeaderSize(e)), e, buf, at + HeaderSize(e)).Ok?
    ensures r.Ok? ==> r.value.fields == ParseHeaderFields(e, buf, at).value
    ensures r.Ok? ==> r.value.name == name && r.value.offset == at && r.value.encoding == e
    ensures r.Ok? ==> r.value.msg.offset == at + HeaderSize(e) && r.value.msg.encoding == e
    ensures r.Ok? ==> r.value.msg.name == MessageName(name, at + HeaderSize(e))
    ensures r.Ok? ==> r.value.msg == NewMessage(e, name, buf, at + HeaderSize(e)).value
  {
    var fields :- ParseHeaderFields(e, buf, at);
    var msg :- NewMessage(e, name, buf, at + HeaderSize(e));
    Ok(ZMessageHeader(name, at, e, fields, msg))
  }

  /** The constructor that names the header after a prefix and its offset. */
  function HeaderFromPrefix(e: Encoding, prefix: string, buf: Buffer, at: nat): (r: Result<ZMessageHeader>)
    ensures r.Ok? ==> r.value.name == DefaultName(prefix, at)
    ensures r.Ok? ==> r.value.msg.name == MessageName(DefaultName(prefix, at), at + HeaderSize(e))
    ensures r.Ok? <==> NewHeader(DefaultName(prefix, at), e, buf, at).Ok?
  {
    NewHeader(DefaultName(prefix, at), e, buf, at)
  }

  /** `ZMessageHeader::GetSourceTypeName`. */
  function HeaderTypeName(e: Encoding): (name: string)
    ensures name == "MessageHeaderJpn" <==> e == Jpn
    ensures e != Jpn ==> name == "MessageHeader"
  {
    if e == Jpn then "MessageHeaderJpn" else "MessageHeader"
  }

  /** `ZMessageHeader::DeclareVar`: a scalar record at the header's offset,
      named after the header or, without a name, by default. */
  function DeclareHeader(h: ZMessageHeader, prefix: string, body: string, t: DeclTable): (r: DeclTable)
    ensures OnlyChangedAt(t, r, h.offset)
    ensures r[h.offset] == Decl(AlignNone, PadNone, HeaderSize(h.encoding), HeaderTypeName(h.encoding),
                                 AuxName(h.name, DefaultName(prefix, h.offset)), Scalar, body)
  {
    AddDeclaration(t, h.offset, AlignNone, PadNone, HeaderSize(h.encoding), HeaderTypeName(h.encoding),
                   AuxName(h.name, DefaultName(prefix, h.offset)), body)
  }

  /** `ZMessageHeader::ExtractFromXML`: builds the header with the encoding
      its attribute selects and declares it with empty text. */
  function ExtractHeader(name: string, attr: Option<string>, buf: Buffer, at: nat, t: DeclTable)
    : (r: Result<(ZMessageHeader, DeclTable)>)
    ensures r.Ok? <==> NewHeader(name, HeaderEncodingAttr(Ascii, attr), buf, at).Ok?
    ensures r.Ok? ==> r.value.0 == NewHeader(name, HeaderEncodingAttr(Ascii, attr), buf, at).value
    ensures r.Ok? ==> OnlyChangedAt(t, r.value.1, at) && r.value.1[at].text == ""
    ensures r.Ok? ==> var e := HeaderEncodingAttr(Ascii, attr);
      r.value.1[at] == Decl(AlignNone, PadNone, HeaderSize(e), HeaderTypeName(e),
                            AuxName(name, DefaultName("", at)), Scalar, "")
  {
    var h :- NewHeader(name, HeaderEncodingAttr(Ascii, attr), buf, at);
    Ok((h, DeclareHeader(h, "", "", t)))
  }

  /** `"0x%0<w>X, "` of a field. */
  function HexField(v: nat, w: nat): (s: string)
    requires 1 <= w && v < Pow16(w)
    ensures |s| == w + 4 && s[..2] == "0x" && s[w + 2..] == ", "
    ensures s[2..w + 2] == HexPad(v, w) && |HexPad(v, w)| == w
  {
    var s := "0x" + HexPad(v, w) + ", ";
    assert s[2..w + 2] == HexPad(v, w);
    s
  }

  /** `s[i..i + w]` is the `w`-digit spelling of `v`. */
  ghost predicate HexAt(s: string, i: nat, w: nat, v: nat) {
    i + w <= |s| && s[i..i + w] == HexPad(v, w)
  }

  /** A column holding a value's spelling reads back as that value. */
  lemma HexAtReadsBack(s: string, i: nat, w: nat, v: nat)
    requires HexAt(s, i, w, v)
    ensures IsHex(s[i..i + w]) && ParseHex(s[i..i + w]) == v
  {
  }

  /** A column survives text appended after it... */
  lemma HexAtAppend(s: string, t: string, i: nat, w: nat, v: nat)
    requires HexAt(s, i, w, v)
    ensures HexAt(s + t, i, w, v)
  {
    assert (s + t)[i..i + w] == s[i..i + w];
  }

  /** ...and moves right by the length of text put before it. */
  lemma HexAtShift(pre: string, s: string, i: nat, w: nat, v: nat)
    requires HexAt(s, i, w, v)
    ensures HexAt(pre + s, |pre| + i, w, v)
  {
    assert (pre + s)[|pre| + i..|pre| + i + w] == s[i..i + w];
  }

  /** The width of the item icon in the text: four digits in Jpn, two
      otherwise. */
  function IconDigits(e: Encoding): (w: nat)
    ensures w == 4 <==> e == Jpn
    ensures e != Jpn ==> w == 2
  {
    if e == Jpn then 4 else 2
  }

  /** The first line of the header text: type, position and item icon. */
  function FirstLine(h: ZMessageHeader): (s: string)
    requires FieldsFit(h.fields, h.encoding)
    ensures |s| == 16 + IconDigits(h.encoding)
    ensures HexAt(s, 2, 2, h.fields.boxType) && HexAt(s, 8, 2, h.fields.yPos)
    ensures HexAt(s, 14, IconDigits(h.encoding), h.fields.itemIcon)
  {
    var f := h.fields;
    var iw := IconDigits(h.encoding);
    assert Pow16(2) == 0x100 && Pow16(4) == 0x1_0000;
    assert f.itemIcon < Pow16(iw) by {
      assert Pow256(1) == 0x100 && Pow256(2) == 0x1_0000;
    }
    var a := HexField(f.boxType, 2);
    var b := HexField(f.yPos, 2);
    var c := HexField(f.itemIcon, iw);
    HexAtAppend(a, b, 2, 2, f.boxType);
    HexAtAppend(a + b, c, 2, 2, f.boxType);
    HexAtShift(a, b, 2, 2, f.yPos);
    HexAtAppend(a + b, c, 8, 2, f.yPos);
    HexAtShift(a + b, c, 2, iw, f.itemIcon);
    a + b + c
  }

  /** A further line of the header text: two halfwords. */
  function HalfwordLine(x: nat, y: nat): (s: string)
    requires x < 0x1_0000 && y < 0x1_0000
    ensures |s| == 21
    ensures HexAt(s, 7, 4, x) && HexAt(s, 15, 4, y)
  {
    assert Pow16(4) == 0x1_0000;
    var a := HexField(x, 4);
    var b := HexField(y, 4);
    assert ("\n    " + a + b)[7..11] == a[2..6];
    assert ("\n    " + a + b)[15..19] == b[2..6];
    "\n    " + a + b
  }

  /** `ZMessageHeader::GetBodySourceCode`: the seven fields in hex.  Every
      field can be read back from a fixed column; the item icon is four
      digits wide in Jpn and two otherwise, which moves every later column
      by two. */
  function HeaderBody(h: ZMessageHeader): (body: string)
    requires FieldsFit(h.fields, h.encoding)
    ensures var d := IconDigits(h.encoding) - 2;
      && |body| == 60 + d
      && HexAt(body, 2, 2, h.fields.boxType)
      && HexAt(body, 8, 2, h.fields.yPos)
      && HexAt(body, 14, 2 + d, h.fields.itemIcon)
      && HexAt(body, 25 + d, 4, h.fields.nextMsgId)
      && HexAt(body, 33 + d, 4, h.fields.itemPrice)
      && HexAt(body, 46 + d, 4, h.fields.ffff1)
      && HexAt(body, 54 + d, 4, h.fields.ffff2)
  {
    var f := h.fields;
    var l := FirstLine(h);
    var rest := HalfwordLine(f.nextMsgId, f.itemPrice) + HalfwordLine(f.ffff1, f.ffff2);
    var iw := IconDigits(h.encoding);
    HalfwordColumns(f.nextMsgId, f.itemPrice, f.ffff1, f.ffff2);
    AfterFirstLine(l, rest, f.nextMsgId, f.itemPrice, f.ffff1, f.ffff2);
    HexAtAppend(l, rest, 2, 2, f.boxType);
    HexAtAppend(l, rest, 8, 2, f.yPos);
    HexAtAppend(l, rest, 14, iw, f.itemIcon);
    l + rest
  }

  /** The two halfword lines hold their four values at fixed columns. */
  lemma HalfwordColumns(x: nat, y: nat, z: nat, w: nat)
    requires x < 0x1_0000 && y < 0x1_0000 && z < 0x1_0000 && w < 0x1_0000
    ensures var rest := HalfwordLine(x, y) + HalfwordLine(z, w);
      && |rest| == 42
      && HexAt(rest, 7, 4, x) && HexAt(rest, 15, 4, y)
      && HexAt(rest, 28, 4, z) && HexAt(rest, 36, 4, w)
  {
    var r1 := HalfwordLine(x, y);
    var r2 := HalfwordLine(z, w);
    HexAtAppend(r1, r2, 7, 4, x);
    HexAtAppend(r1, r2, 15, 4, y);
    HexAtShift(r1, r2, 7, 4, z);
    HexAtShift(r1, r2, 15, 4, w);
  }

  /** The halfword columns move right by the first line's length. */
  lemma AfterFirstLine(l: string, rest: string, x: nat, y: nat, z: nat, w: nat)
    requires HexAt(rest, 7, 4, x) && HexAt(rest, 15, 4, y)
    requires HexAt(rest, 28, 4, z) && HexAt(rest, 36, 4, w)
    ensures HexAt(l + rest, |l| + 7, 4, x) && HexAt(l + rest, |l| + 15, 4, y)
    ensures HexAt(l + rest, |l| + 28, 4, z) && HexAt(l + rest, |l| + 36, 4, w)
  {
    HexAtShift(l, rest, 7, 4, x);
    HexAtShift(l, rest, 15, 4, y);
    HexAtShift(l, rest, 28, 4, z);
    HexAtShift(l, rest, 36, 4, w);
  }

  /** `ZMessageHeader::GetSourceOutputCode`: the message's output step
      first, then the header's own record, patched or declared.  Only those
      two offsets change, and it fails exactly when the message's step
      fails. */
  function HeaderOutput(h: ZMessageHeader, prefix: string, t: DeclTable): (r: Result<DeclTable>)
    requires FieldsFit(h.fields, h.encoding)
    ensures r.Ok? <==> MessageOutput(h.msg, t).Ok?
    ensures r.Ok? ==> OnlyChangedAt(MessageOutput(h.msg, t).value, r.value, h.offset)
    ensures r.Ok? ==> r.value[h.offset].text == "\n    " + HeaderBody(h) + "\n"
    ensures r.Ok? && h.offset in MessageOutput(h.msg, t).value ==>
              r.value[h.offset] == MessageOutput(h.msg, t).value[h.offset].(text := "\n    " + HeaderBody(h) + "\n")
    ensures r.Ok? && h.offset !in MessageOutput(h.msg, t).value ==>
              r.value[h.offset] == Decl(AlignNone, PadNone, HeaderSize(h.encoding), HeaderTypeName(h.encoding),
                                        AuxName(h.name, DefaultName(prefix, h.offset)), Scalar,
                                        "\n    " + HeaderBody(h) + "\n")
  {
    var t1 :- MessageOutput(h.msg, t);
    var body := "\n    " + HeaderBody(h) + "\n";
    Ok(DeclareOrPatch(t1, h.offset, Decl(AlignNone, PadNone, HeaderSize(h.encoding), HeaderTypeName(h.encoding),
                                         AuxName(h.name, DefaultName(prefix, h.offset)), Scalar, body)))
  }

  /** The header and its message occupy adjacent, disjoint ranges of the
      buffer: the message starts where the record ends, and the record's
      fields are read from the bytes before the message alone, so the
      message's bytes cannot change them. */
  lemma HeaderAndMessageApart(name: string, e: Encoding, buf: Buffer, at: nat)
    requires NewHeader(name, e, buf, at).Ok?
    ensures var h := NewHeader(name, e, buf, at).value;
      && h.msg.offset == h.offset + HeaderSize(e)
      && ParseHeaderFields(e, buf[..h.msg.offset], at) == Ok(h.fields)
  {
    FieldsFromPrefix(e, buf, at, at + HeaderSize(e));
  }

  /** The record's fields depend only on the bytes up to its end. */
  lemma FieldsFromPrefix(e: Encoding, buf: Buffer, at: nat, n: nat)
    requires at + HeaderSize(e) <= n <= |buf|
    ensures ParseHeaderFields(e, buf[..n], at) == ParseHeaderFields(e, buf, at)
  {
    var p := at + 2 + IconWidth(e);
    ReadBEPrefix(buf, n, at, 1);
    ReadBEPrefix(buf, n, at + 1, 1);
    ReadBEPrefix(buf, n, at + 2, IconWidth(e));
    ReadBEPrefix(buf, n, p, 2);
    ReadBEPrefix(buf, n, p + 2, 2);
    ReadBEPrefix(buf, n, p + 4, 2);
    ReadBEPrefix(buf, n, p + 6, 2);
  }
}
