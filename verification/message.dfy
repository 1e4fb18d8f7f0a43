/** `ZMessage`: a message's text, scanned out of the buffer up to and
    including its end marker, and its declaration.

    The byte encoding (Ascii) stores one character per byte and ends at the
    byte 0x02; the halfword encoding (Jpn, spelled `Jap` where the message
    parses its XML) stores big-endian halfwords and ends at 0x8170; the third
    encoding (Cn) stores nothing.
 */
module Message {
  import opened Wrappers
  import opened Bytes
  import opened Text
  import opened Declarations
  import opened MessageTables

  datatype Encoding = Ascii | Jpn | Cn

  /** A parsed message: its name, where it starts, its encoding and the
      characters the scan stored. */
  datatype ZMessage = ZMessage(
    name: string,
    offset: nat,
    encoding: Encoding,
    u8Chars: seq<Byte>,
    u16Chars: seq<nat>)

  /** The `Encoding` attribute as the message reads it: "Ascii" and "Jap"
      select an encoding, any other value falls back to Ascii, and no
      attribute leaves the encoding as it was. */
  function ParseEncodingAttr(current: Encoding, attr: Option<string>): (e: Encoding)
    ensures attr.None? ==> e == current
    ensures attr.Some? ==> (e == Jpn <==> attr.value == "Jap")
    ensures attr.Some? ==> (e == Ascii <==> attr.value != "Jap")
  {
    match attr
    case None => current
    case Some(s) => if s == "Ascii" then Ascii else if s == "Jap" then Jpn else Ascii
  }

  /** The `k`-th halfword after `at` is the halfword end marker. */
  predicate JpnEndAt(buf: Buffer, at: nat, k: nat) {
    at + 2 * k + 2 <= |buf| && HalfwordAt(buf, at + 2 * k) == JPN_ENDMARKER
  }

  /** The byte-encoding scan: the bytes from `at` through the first 0x02,
      inclusive.  It fails exactly when no 0x02 follows `at`, as the
      bounds-checked read then runs off the end of the buffer. */
  function ScanAscii(buf: Buffer, at: nat): (r: Result<seq<Byte>>)
    ensures r.Ok? <==> exists k :: at <= k < |buf| && buf[k] == ASCII_ENDMARKER
    ensures r.Ok? ==> |r.value| >= 1 && at + |r.value| <= |buf| && r.value == buf[at..at + |r.value|]
    ensures r.Ok? ==> r.value[|r.value| - 1] == ASCII_ENDMARKER
    ensures r.Ok? ==> forall k :: 0 <= k < |r.value| - 1 ==> r.value[k] != ASCII_ENDMARKER
    ensures r.Err? ==> r.error.OutOfRange?
    decreases |buf| - at
  {
    match ReadU8(buf, at)
    case Err(e) => Err(e)
    case Ok(c) =>
      if c == ASCII_ENDMARKER then Ok([c])
      else
        ScanAsciiStep(buf, at);
        match ScanAscii(buf, at + 1)
        case Err(e) => Err(e)
        case Ok(rest) =>
          ScanAsciiCons(buf, at, rest);
          Ok([c] + rest)
  }

  /** A marker at or after `at` is, when `at` holds none, a marker after it. */
  lemma ScanAsciiStep(buf: Buffer, at: nat)
    requires at < |buf| && buf[at] != ASCII_ENDMARKER
    ensures (exists k :: at <= k < |buf| && buf[k] == ASCII_ENDMARKER)
        <==> (exists k :: at + 1 <= k < |buf| && buf[k] == ASCII_ENDMARKER)
  {
    if exists k :: at <= k < |buf| && buf[k] == ASCII_ENDMARKER {
      var k :| at <= k < |buf| && buf[k] == ASCII_ENDMARKER;
      assert k != at;
    }
  }

  /** Prepending the byte at `at` to the bytes scanned from `at + 1`. */
  lemma ScanAsciiCons(buf: Buffer, at: nat, rest: seq<Byte>)
    requires at < |buf| && buf[at] != ASCII_ENDMARKER
    requires |rest| >= 1 && at + 1 + |rest| <= |buf| && rest == buf[at + 1..at + 1 + |rest|]
    requires rest[|rest| - 1] == ASCII_ENDMARKER
    requires forall k :: 0 <= k < |rest| - 1 ==> rest[k] != ASCII_ENDMARKER
    ensures var v := [buf[at]] + rest;
      && v == buf[at..at + |v|]
      && v[|v| - 1] == ASCII_ENDMARKER
      && forall k :: 0 <= k < |v| - 1 ==> v[k] != ASCII_ENDMARKER
  {
    var v := [buf[at]] + rest;
    assert v == buf[at..at + |v|];
    forall k | 0 <= k < |v| - 1
      ensures v[k] != ASCII_ENDMARKER
    {
      if k > 0 {
        assert v[k] == rest[k - 1];
      }
    }
  }

  /** The halfword-encoding scan: the halfwords at `at`, `at + 2`, ...
      through the first 0x8170, inclusive. */
  function ScanJpn(buf: Buffer, at: nat): (r: Result<seq<nat>>)
    ensures r.Ok? <==> exists k: nat :: JpnEndAt(buf, at, k)
    ensures r.Ok? ==> |r.value| >= 1 && at + 2 * |r.value| <= |buf|
    ensures r.Ok? ==> forall k :: 0 <= k < |r.value| ==> r.value[k] == HalfwordAt(buf, at + 2 * k)
    ensures r.Ok? ==> r.value[|r.value| - 1] == JPN_ENDMARKER
    ensures r.Ok? ==> forall k :: 0 <= k < |r.value| - 1 ==> r.value[k] != JPN_ENDMARKER
    ensures r.Err? ==> r.error.OutOfRange?
    decreases |buf| - at
  {
    if at + 2 > |buf| then Err(OutOfRange(at + 2))
    else
      var c := HalfwordAt(buf, at);
      if c == JPN_ENDMARKER then
        assert JpnEndAt(buf, at, 0);
        Ok([c])
      else
        ScanJpnStep(buf, at, at + 2);
        match ScanJpn(buf, at + 2)
        case Err(e) => Err(e)
        case Ok(rest) =>
          ScanJpnCons(buf, at, rest);
          Ok([c] + rest)
  }

  /** Prepending the halfword at `at` to the halfwords read from `at + 2`. */
  lemma ScanJpnCons(buf: Buffer, at: nat, rest: seq<nat>)
    requires at + 2 + 2 * |rest| <= |buf|
    requires forall k :: 0 <= k < |rest| ==> rest[k] == HalfwordAt(buf, at + 2 + 2 * k)
    ensures var v := [HalfwordAt(buf, at)] + rest;
      forall k :: 0 <= k < |v| ==> v[k] == HalfwordAt(buf, at + 2 * k)
  {
    var v := [HalfwordAt(buf, at)] + rest;
    forall k | 0 <= k < |v|
      ensures v[k] == HalfwordAt(buf, at + 2 * k)
    {
      if k > 0 {
        assert v[k] == rest[k - 1];
        assert at + 2 + 2 * (k - 1) == at + 2 * k;
      }
    }
  }

  /** An end marker after the first halfword is an end marker after `at + 2`. */
  lemma ScanJpnStep(buf: Buffer, at: nat, next: nat)
    requires next == at + 2 <= |buf| && HalfwordAt(buf, at) != JPN_ENDMARKER
    ensures (exists k: nat :: JpnEndAt(buf, at, k)) <==> (exists k: nat :: JpnEndAt(buf, next, k))
  {
    if exists k: nat :: JpnEndAt(buf, at, k) {
      var k: nat :| JpnEndAt(buf, at, k);
      assert k != 0;
      assert JpnEndAt(buf, next, k - 1);
    }
    if exists k: nat :: JpnEndAt(buf, next, k) {
      var k: nat :| JpnEndAt(buf, next, k);
      assert JpnEndAt(buf, at, k + 1);
    }
  }

  /** `ZMessage::ParseRawData` for a message at `at` named `name`. */
  function ParseMessage(name: string, encoding: Encoding, buf: Buffer, at: nat): (r: Result<ZMessage>)
    ensures r.Ok? ==> r.value.name == name && r.value.offset == at && r.value.encoding == encoding
    ensures encoding == Ascii ==> (r.Ok? <==> ScanAscii(buf, at).Ok?)
    ensures encoding == Jpn ==> (r.Ok? <==> ScanJpn(buf, at).Ok?)
    ensures encoding == Cn ==> r == Ok(ZMessage(name, at, Cn, [], []))
    ensures r.Ok? && encoding == Ascii ==> r.value.u8Chars == ScanAscii(buf, at).value && r.value.u16Chars == []
    ensures r.Ok? && encoding == Jpn ==> r.value.u16Chars == ScanJpn(buf, at).value && r.value.u8Chars == []
  {
    match encoding
    case Ascii =>
      var chars :- ScanAscii(buf, at);
      Ok(ZMessage(name, at, Ascii, chars, []))
    case Jpn =>
      var chars :- ScanJpn(buf, at);
      Ok(ZMessage(name, at, Jpn, [], chars))
    case Cn => Ok(ZMessage(name, at, Cn, [], []))
  }

  /** `ZMessage::GetRawDataSize`. */
  function RawDataSize(m: ZMessage): nat {
    match m.encoding
    case Ascii => |m.u8Chars|
    case Jpn => 2 * |m.u16Chars|
    case Cn => 0
  }

  /** `ZMessage::GetMessageLength`: only the byte encoding has a length. */
  function MessageLength(m: ZMessage): nat {
    if m.encoding == Ascii then |m.u8Chars| else 0
  }

  /** The raw size of a byte-encoded message is exactly the number of
      bytes the scan consumed (see `ScanAsciiInBuffer`), and its length is
      that same count. */
  lemma AsciiRawSizeIsConsumed(name: string, buf: Buffer, at: nat, m: ZMessage)
    requires ParseMessage(name, Ascii, buf, at) == Ok(m)
    ensures RawDataSize(m) == |ScanAscii(buf, at).value| >= 1
    ensures MessageLength(m) == RawDataSize(m)
  {
  }

  /** The bytes the byte-encoding scan consumes: they end on the first 0x02
      at or after `at`, inside the buffer. */
  lemma ScanAsciiInBuffer(buf: Buffer, at: nat)
    requires ScanAscii(buf, at).Ok?
    ensures var n := |ScanAscii(buf, at).value|;
      && at + n <= |buf| && buf[at + n - 1] == ASCII_ENDMARKER
      && forall k :: at <= k < at + n - 1 ==> buf[k] != ASCII_ENDMARKER
  {
    var s := ScanAscii(buf, at).value;
    forall k | at <= k < at + |s| - 1
      ensures buf[k] != ASCII_ENDMARKER
    {
      assert buf[k] == s[k - at];
    }
  }

  /** The raw size of a halfword-encoded message is exactly the bytes the
      scan consumed, ending on the first 0x8170 halfword after the start;
      it has no length. */
  lemma JpnRawSizeIsConsumed(name: string, buf: Buffer, at: nat, m: ZMessage)
    requires ParseMessage(name, Jpn, buf, at) == Ok(m)
    ensures at + RawDataSize(m) <= |buf| && RawDataSize(m) >= 2 && RawDataSize(m) % 2 == 0
    ensures HalfwordAt(buf, at + RawDataSize(m) - 2) == JPN_ENDMARKER
    ensures forall k: nat :: k < RawDataSize(m) / 2 - 1 ==> !JpnEndAt(buf, at, k)
    ensures MessageLength(m) == 0
  {
    var s := ScanJpn(buf, at).value;
    assert m.u16Chars == s;
    var n := |s|;
    assert RawDataSize(m) == 2 * n;
    assert at + 2 * (n - 1) == at + RawDataSize(m) - 2;
    assert s[n - 1] == HalfwordAt(buf, at + 2 * (n - 1));
    forall k: nat | k < n - 1
      ensures !JpnEndAt(buf, at, k)
    {
      assert s[k] == HalfwordAt(buf, at + 2 * k) != JPN_ENDMARKER;
    }
  }

  /** The scan is determined by where the first end marker is: a run of
      bytes ending on the first 0x02 after `at` is exactly what it stores. */
  lemma ScanAsciiFirstMarker(buf: Buffer, at: nat, n: nat)
    requires 1 <= n && at + n <= |buf| && buf[at + n - 1] == ASCII_ENDMARKER
    requires forall k :: at <= k < at + n - 1 ==> buf[k] != ASCII_ENDMARKER
    ensures ScanAscii(buf, at) == Ok(buf[at..at + n])
  {
    assert at <= at + n - 1 < |buf| && buf[at + n - 1] == ASCII_ENDMARKER;
    var v := ScanAscii(buf, at).value;
    assert buf[at + |v| - 1] == v[|v| - 1];
    assert v[n - 1] == buf[at + n - 1];
  }

  /** "HELLO" followed by the end marker scans to six bytes. */
  lemma HelloScansToSixBytes(buf: Buffer)
    requires buf == [0x48, 0x45, 0x4C, 0x4C, 0x4F, 0x02, 0x41]
    ensures ScanAscii(buf, 0) == Ok([0x48, 0x45, 0x4C, 0x4C, 0x4F, 0x02])
    ensures RawDataSize(ParseMessage("m", Ascii, buf, 0).value) == 6
  {
    assert forall k :: 0 <= k < 5 ==> buf[k] != ASCII_ENDMARKER;
    ScanAsciiFirstMarker(buf, 0, 6);
    assert buf[0..6] == [0x48, 0x45, 0x4C, 0x4C, 0x4F, 0x02];
    ScannedSize("m", buf, 0, 6);
  }

  /** A byte-encoded message whose scan took `n` bytes has raw size `n`. */
  lemma ScannedSize(name: string, buf: Buffer, at: nat, n: nat)
    requires ScanAscii(buf, at).Ok? && |ScanAscii(buf, at).value| == n
    ensures RawDataSize(ParseMessage(name, Ascii, buf, at).value) == n
  {
  }

  /** `ZMessage::GetSourceTypeName`: the halfword encoding has no type yet
      and fails. */
  function SourceTypeName(encoding: Encoding): (r: Result<string>)
    ensures r.Err? <==> encoding == Jpn
    ensures encoding == Ascii ==> r == Ok("char*")
    ensures encoding == Cn ==> r == Ok("ERROR")
  {
    match encoding
    case Ascii => Ok("char*")
    case Jpn => Err(Unsupported("TODO"))
    case Cn => Ok("ERROR")
  }

  /** The bytes as characters, cut at the first NUL: what `%.*s` prints of a
      byte array of known length. */
  function CStringPrefix(bytes: seq<Byte>): (s: string)
    ensures |s| <= |bytes|
    ensures forall i :: 0 <= i < |s| ==> s[i] as int == bytes[i] && bytes[i] != 0
    ensures |s| < |bytes| ==> bytes[|s|] == 0
  {
    if |bytes| == 0 || bytes[0] == 0 then "" else [bytes[0] as char] + CStringPrefix(bytes[1..])
  }

  /** The text a message declares: the byte-encoded text in quotes, up to
      its first NUL; nothing for the other encodings. */
  function MessageBody(m: ZMessage): (body: string)
    ensures m.encoding != Ascii ==> body == ""
    ensures m.encoding == Ascii ==>
              && |body| >= 6 && body[..5] == "    \"" && body[|body| - 1] == '"'
              && body[5..|body| - 1] == CStringPrefix(m.u8Chars)
  {
    if m.encoding == Ascii then
      var body := "    \"" + CStringPrefix(m.u8Chars) + "\"";
      assert body[5..|body| - 1] == CStringPrefix(m.u8Chars);
      body
    else ""
  }

  /** A byte-encoded message with no NUL prints every scanned byte, end
      marker included. */
  lemma BodyKeepsEveryByte(m: ZMessage)
    requires m.encoding == Ascii
    requires forall i :: 0 <= i < |m.u8Chars| ==> m.u8Chars[i] != 0
    ensures |MessageBody(m)| == |m.u8Chars| + 6
  {
  }

  /** `ZMessage::GetSourceOutputCode`: patches the text of the declaration
      at the message's offset, or declares the message as an array of
      `MessageLength` characters.  Declaring a halfword-encoded message
      fails, since it has no type name. */
  function MessageOutput(m: ZMessage, t: DeclTable): (r: Result<DeclTable>)
    ensures r.Ok? <==> m.offset in t || m.encoding != Jpn
    ensures r.Ok? ==> OnlyChangedAt(t, r.value, m.offset)
    ensures r.Ok? ==> r.value[m.offset].text == MessageBody(m)
    ensures r.Ok? && m.offset in t ==> r.value[m.offset] == t[m.offset].(text := MessageBody(m))
    ensures r.Ok? && m.offset !in t ==>
              && r.value[m.offset].kind == Array(MessageLength(m))
              && r.value[m.offset].size == RawDataSize(m)
              && r.value[m.offset].varName == m.name
              && r.value[m.offset].typeName == SourceTypeName(m.encoding).value
  {
    if m.offset in t then Ok(PatchText(t, m.offset, MessageBody(m)))
    else
      var typeName :- SourceTypeName(m.encoding);
      Ok(AddDeclarationArray(t, m.offset, AlignNone, RawDataSize(m), typeName, m.name,
                             MessageLength(m), MessageBody(m)))
  }

  /** `ZMessage::ExtractFromXML`: parses the message with the encoding its
      attribute selects and declares it, with empty text, at its offset. */
  function ExtractMessage(name: string, attr: Option<string>, buf: Buffer, at: nat, t: DeclTable)
    : (r: Result<(ZMessage, DeclTable)>)
    ensures r.Ok? <==> ParseMessage(name, ParseEncodingAttr(Ascii, attr), buf, at).Ok? && ParseEncodingAttr(Ascii, attr) != Jpn
    ensures r.Ok? ==> r.value.0 == ParseMessage(name, ParseEncodingAttr(Ascii, attr), buf, at).value
    ensures r.Ok? ==> OnlyChangedAt(t, r.value.1, at) && r.value.1[at].text == ""
    ensures r.Ok? ==> r.value.1[at] == Decl(AlignNone, PadNone, RawDataSize(r.value.0),
                                           SourceTypeName(r.value.0.encoding).value, name,
                                           Array(MessageLength(r.value.0)), "")
  {
    var encoding := ParseEncodingAttr(Ascii, attr);
    var m :- ParseMessage(name, encoding, buf, at);
    var typeName :- SourceTypeName(encoding);
    Ok((m, AddDeclarationArray(t, at, AlignNone, RawDataSize(m), typeName, name, MessageLength(m), "")))
  }

  /** The name the message gets when a header creates it. */
  function MessageName(prefix: string, at: nat): (name: string)
    ensures |name| >= |prefix| + 8 + 6 && name[..|prefix|] == prefix
    ensures at < 0x100_0000 ==> |name| == |prefix| + 8 + 6
    ensures name[|prefix|..|prefix| + 8] == "Message_"
    ensures IsHex(name[|prefix| + 8..]) && ParseHex(name[|prefix| + 8..]) == at
  {
    assert Pow16(6) == 0x100_0000;
    var name := prefix + "Message_" + HexPad(at, 6);
    assert name[|prefix| + 8..] == HexPad(at, 6);
    name
  }

  /** The constructor a message header uses: name from the prefix and the
      offset, then the scan. */
  function NewMessage(encoding: Encoding, prefix: string, buf: Buffer, at: nat): (r: Result<ZMessage>)
    ensures r.Ok? ==> r.value.name == MessageName(prefix, at) && r.value.offset == at && r.value.encoding == encoding
    ensures encoding == Ascii ==> (r.Ok? <==> ScanAscii(buf, at).Ok?)
    ensures encoding == Jpn ==> (r.Ok? <==> ScanJpn(buf, at).Ok?)
    ensures encoding == Cn ==> r.Ok? && r.value.u8Chars == [] && r.value.u16Chars == []
    ensures r.Ok? && encoding == Ascii ==> r.value.u8Chars == ScanAscii(buf, at).value && r.value.u16Chars == []
    ensures r.Ok? && encoding == Jpn ==> r.value.u16Chars == ScanJpn(buf, at).value && r.value.u8Chars == []
  {
    ParseMessage(MessageName(prefix, at), encoding, buf, at)
  }
}
