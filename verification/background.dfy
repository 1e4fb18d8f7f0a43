/** `ZBackground`: a JPEG image embedded in a file.  Its extent is found by
    scanning for the End Of Image marker, X'FFD9' (section B.1.1.3 and
    Table B.1 of ITU-T T.81); it is emitted as an array of big-endian
    64-bit words.
 */
module Background {
  import opened Wrappers
  import opened Bytes
  import opened Text
  import opened Declarations

  /** The EOI marker of ITU-T T.81, Table B.1. */
  const EOI: nat := 0xFFD9

  /** The size every background is padded to and declared with. */
  const BACKGROUND_SIZE: nat := 0x25800

  /** An EOI marker starts at index `k` of `s`. */
  predicate EoiAt(s: seq<Byte>, k: nat) {
    k + 1 < |s| && s[k] == 0xFF && s[k + 1] == 0xD9
  }

  /** The halfword read at `at` is the EOI marker exactly when the two bytes
      there are FF D9. */
  lemma EoiWord(buf: Buffer, at: nat, w: nat)
    requires at + 2 <= |buf| && w < 0x1_0000 && EncodeBE(w, 2) == buf[at..at + 2]
    ensures w == EOI <==> EoiAt(buf, at)
  {
    DecodeEncode(w, 2);
    var pair := buf[at..at + 2];
    assert pair[..1] == [buf[at]];
    var hi: int := buf[at];
    assert DecodeBE(pair) == hi * 0x100 + buf[at + 1];
  }

  /** `ZBackground::ParseRawData`: the bytes from `at` through the first EOI
      marker, inclusive.  With no marker before the end of the buffer a
      bounds-checked read fails. */
  function ScanEoi(buf: Buffer, at: nat): (r: Result<seq<Byte>>)
    ensures r.Ok? <==> exists k: nat :: at <= k && EoiAt(buf, k)
    ensures r.Ok? ==> |r.value| >= 2 && at + |r.value| <= |buf| && r.value == buf[at..at + |r.value|]
    ensures r.Ok? ==> EoiAt(r.value, |r.value| - 2)
    ensures r.Ok? ==> forall k: nat :: k < |r.value| - 2 ==> !EoiAt(r.value, k)
    ensures r.Err? ==> r.error.OutOfRange?
    decreases |buf| - at
  {
    if at >= |buf| then Err(OutOfRange(at + 1))
    else if at + 2 > |buf| then Err(OutOfRange(at + 2))
    else
      var w := ReadU16BE(buf, at).value;
      EoiWord(buf, at, w);
      if w == EOI then
        assert EoiAt(buf[at..at + 2], 0);
        Ok(buf[at..at + 2])
      else
        EoiSearchStep(buf, at, at + 1);
        match ScanEoi(buf, at + 1)
        case Err(e) => Err(e)
        case Ok(rest) =>
          NoEarlierEoiStep(buf, at, rest);
          Ok([buf[at]] + rest)
  }

  /** Without a marker at `at`, a marker at or after `at` is one at or after
      `next`. */
  lemma EoiSearchStep(buf: Buffer, at: nat, next: nat)
    requires next == at + 1 && !EoiAt(buf, at)
    ensures (exists k: nat :: at <= k && EoiAt(buf, k)) <==> (exists k: nat :: next <= k && EoiAt(buf, k))
  {
    if exists k: nat :: at <= k && EoiAt(buf, k) {
      var k: nat :| at <= k && EoiAt(buf, k);
      assert next <= k;
    }
  }

  /** Prepending the byte at `at` to a marker-terminated run that follows it
      adds no earlier marker when none starts at `at`. */
  lemma NoEarlierEoiStep(buf: Buffer, at: nat, rest: seq<Byte>)
    requires at + 1 + |rest| <= |buf| && rest == buf[at + 1..at + 1 + |rest|] && |rest| >= 2
    requires !EoiAt(buf, at)
    requires forall k: nat :: k < |rest| - 2 ==> !EoiAt(rest, k)
    requires EoiAt(rest, |rest| - 2)
    ensures [buf[at]] + rest == buf[at..at + 1 + |rest|]
    ensures EoiAt([buf[at]] + rest, |rest| - 1)
    ensures forall k: nat :: k < |rest| - 1 ==> !EoiAt([buf[at]] + rest, k)
  {
    var s := [buf[at]] + rest;
    assert s == buf[at..at + 1 + |rest|];
    forall k: nat | k < |rest| - 1
      ensures !EoiAt(s, k)
    {
      if k == 0 {
        assert s[1] == buf[at + 1];
      } else {
        assert s[k] == rest[k - 1] && s[k + 1] == rest[k];
        assert !EoiAt(rest, k - 1);
      }
    }
  }

  /** `ParseBinaryFile`'s padding: unless compact output is asked for, zero
      bytes are appended until the data reaches the background size. */
  method PadJpeg(data: seq<Byte>, compact: bool) returns (r: seq<Byte>)
    ensures compact ==> r == data
    ensures !compact ==> |r| == if |data| < BACKGROUND_SIZE then BACKGROUND_SIZE else |data|
    ensures |data| <= |r| && r[..|data|] == data
    ensures forall k :: |data| <= k < |r| ==> r[k] == 0
  {
    r := data;
    if compact {
      return;
    }
    while |r| < BACKGROUND_SIZE
      invariant |data| <= |r| && r[..|data|] == data
      invariant |r| <= if |data| < BACKGROUND_SIZE then BACKGROUND_SIZE else |data|
      invariant forall k :: |data| <= k < |r| ==> r[k] == 0
      decreases BACKGROUND_SIZE - |r|
    {
      r := r + [0];
    }
  }

  /** Word `i` of the data: the big-endian value of bytes `8 * i` to
      `8 * i + 8`. */
  function Word(data: seq<Byte>, i: nat): nat
    requires 8 * i + 8 <= |data|
  {
    DecodeBE(data[8 * i..8 * i + 8])
  }

  /** Word `i` is what `BitConverter::ToUInt64BE` reads at `8 * i`. */
  lemma WordIsRead(data: seq<Byte>, i: nat)
    requires 8 * i + 8 <= |data|
    ensures ReadU64BE(data, 8 * i) == Ok(Word(data, i))
  {
    DecodeBEBound(data[8 * i..8 * i + 8]);
    EncodeDecode(data[8 * i..8 * i + 8]);
    DecodeEncode(Word(data, i), 8);
  }

  /** The hex digits of one 64-bit word. */
  const WORD_DIGITS: nat := 16

  /** One word of the body: `0x%016llX, `, and a line break after every
      eighth word. */
  function WordText(w: nat, i: nat): string {
    "0x" + HexPad(w, WORD_DIGITS) + ", " + (if i % 8 == 7 then "\n    " else "")
  }

  /** The texts of the first `n` words of the data. */
  function WordTexts(data: seq<Byte>, n: nat): (ws: seq<string>)
    requires 8 * n <= |data|
    ensures |ws| == n
  {
    if n == 0 then [] else WordTexts(data, n - 1) + [WordText(Word(data, n - 1), n - 1)]
  }

  /** The number of whole words in `len` bytes; the trailing `len % 8`
      bytes make no word. */
  function WordCount(len: nat): (n: nat)
    ensures 8 * n <= len < 8 * n + 8
  {
    len / 8
  }

  /** The body as a whole. */
  function BodyText(data: seq<Byte>): string {
    "    " + Concat(WordTexts(data, WordCount(|data|))) + "\n"
  }

  /** Words only depend on their own bytes: data that agrees on the first
      `8 * n` bytes has the same first `n` word texts. */
  lemma {:induction false} WordTextsPrefix(data: seq<Byte>, other: seq<Byte>, n: nat)
    requires 8 * n <= |data| && 8 * n <= |other| && data[..8 * n] == other[..8 * n]
    ensures WordTexts(data, n) == WordTexts(other, n)
  {
    if n > 0 {
      assert data[..8 * (n - 1)] == data[..8 * n][..8 * (n - 1)];
      assert other[..8 * (n - 1)] == other[..8 * n][..8 * (n - 1)];
      WordTextsPrefix(data, other, n - 1);
      assert data[8 * (n - 1)..8 * n] == data[..8 * n][8 * (n - 1)..];
      assert other[8 * (n - 1)..8 * n] == other[..8 * n][8 * (n - 1)..];
    }
  }

  /** The body depends only on the whole words: the trailing bytes are
      dropped. */
  lemma BodyDropsTail(data: seq<Byte>)
    ensures BodyText(data) == BodyText(data[..8 * WordCount(|data|)])
  {
    var n := WordCount(|data|);
    var whole := data[..8 * n];
    assert WordCount(|whole|) == n;
    assert whole[..8 * n] == data[..8 * n];
    WordTextsPrefix(data, whole, n);
  }

  /** One iteration of the body loop: the word, then the line break after
      every eighth. */
  method AppendWord(s: string, w: nat, i: nat) returns (r: string)
    ensures r == s + WordText(w, i)
  {
    var word := "0x" + HexPad(w, WORD_DIGITS) + ", ";
    var lineBreak := if i % 8 == 7 then "\n    " else "";
    r := s + (word + lineBreak);
  }

  /** The texts of `i + 1` words are those of `i` words and word `i`'s. */
  lemma WordTextsStep(data: seq<Byte>, i: nat)
    requires 8 * i + 8 <= |data|
    ensures WordTexts(data, i + 1) == WordTexts(data, i) + [WordText(Word(data, i), i)]
  {
  }

  lemma AppendAssoc(a: string, b: string, c: string)
    ensures a + b + c == a + (b + c)
  {
  }

  /** The body after `i` words, extended by word `i`, is the body after
      `i + 1` words. */
  lemma BodyStep(data: seq<Byte>, i: nat, s: string)
    requires 8 * i + 8 <= |data| && s == "    " + Concat(WordTexts(data, i))
    ensures s + WordText(Word(data, i), i) == "    " + Concat(WordTexts(data, i + 1))
  {
    var ws := WordTexts(data, i);
    var x := WordText(Word(data, i), i);
    WordTextsStep(data, i);
    ConcatSnoc(ws, x);
    AppendAssoc("    ", Concat(ws), x);
  }

  /** `ZBackground::GetBodySourceCode`: the loop over the whole words. */
  method BackgroundBody(data: seq<Byte>) returns (s: string)
    ensures s == BodyText(data)
  {
    s := "    ";
    var i := 0;
    var n := WordCount(|data|);
    while i < n
      invariant 0 <= i <= n
      invariant s == "    " + Concat(WordTexts(data, i))
    {
      var w := Word(data, i);
      BodyStep(data, i, s);
      s := AppendWord(s, w, i);
      i := i + 1;
    }
    s := s + "\n";
  }

  /** A background: its name, offset and image bytes. */
  datatype ZBackground = ZBackground(name: string, offset: nat, data: seq<Byte>)

  /** `ZBackground::GetDefaultName`. */
  function DefaultName(prefix: string, at: nat): string {
    prefix + "Background_" + HexPad(at, 6)
  }

  /** The constructor used for backgrounds found through a pointer: named
      after its offset, its bytes found by the EOI scan. */
  function NewBackground(prefix: string, buf: Buffer, at: nat): (r: Result<ZBackground>)
    ensures r.Ok? <==> ScanEoi(buf, at).Ok?
    ensures r.Ok? ==> r.value == ZBackground(DefaultName(prefix, at), at, ScanEoi(buf, at).value)
  {
    var data :- ScanEoi(buf, at);
    Ok(ZBackground(DefaultName(prefix, at), at, data))
  }

  /** The declaration a background gets: an 8-byte aligned `u64` array of
      the padded size, with no element count. */
  function BackgroundDecl(bg: ZBackground, prefix: string, body: string): (d: Decl)
    ensures d.alignment == Align8 && d.size == BACKGROUND_SIZE && d.typeName == "u64" && d.kind == Array(0)
    ensures d.text == body && (bg.name != "" ==> d.varName == bg.name)
    ensures bg.name == "" ==> d.varName == DefaultName(prefix, bg.offset)
  {
    Decl(Align8, PadNone, BACKGROUND_SIZE, "u64", AuxName(bg.name, DefaultName(prefix, bg.offset)), Array(0), body)
  }

  /** `ZBackground::DeclareVar`: (re)declares the background at its offset. */
  function DeclareVar(bg: ZBackground, prefix: string, body: string, t: DeclTable): (r: DeclTable)
    ensures OnlyChangedAt(t, r, bg.offset)
    ensures r[bg.offset] == BackgroundDecl(bg, prefix, body)
  {
    AddDeclarationArray(t, bg.offset, Align8, BACKGROUND_SIZE, "u64",
                        AuxName(bg.name, DefaultName(prefix, bg.offset)), 0, body)
  }

  /** `ZBackground::GetSourceOutputCode`: the body replaces the text of a
      declaration already at the offset, or the background is declared. */
  method BackgroundOutput(bg: ZBackground, prefix: string, t: DeclTable) returns (r: DeclTable)
    ensures OnlyChangedAt(t, r, bg.offset)
    ensures r[bg.offset].text == BodyText(bg.data)
    ensures bg.offset in t ==> r[bg.offset] == t[bg.offset].(text := BodyText(bg.data))
    ensures bg.offset !in t ==> r[bg.offset] == BackgroundDecl(bg, prefix, BodyText(bg.data))
  {
    var body := BackgroundBody(bg.data);
    r := DeclareOrPatch(t, bg.offset, BackgroundDecl(bg, prefix, body));
  }

  /** `ZBackground::ExtractFromXML`: a background named in the XML is read
      at `at` and declared with an empty body. */
  function ExtractBackground(name: string, buf: Buffer, at: nat, t: DeclTable): (r: Result<(ZBackground, DeclTable)>)
    ensures r.Ok? <==> ScanEoi(buf, at).Ok?
    ensures r.Ok? ==> r.value.0 == ZBackground(name, at, ScanEoi(buf, at).value)
    ensures r.Ok? ==> OnlyChangedAt(t, r.value.1, at) && r.value.1[at] == BackgroundDecl(r.value.0, "", "")
  {
    var data :- ScanEoi(buf, at);
    var bg := ZBackground(name, at, data);
    Ok((bg, DeclareVar(bg, "", "", t)))
  }
}
