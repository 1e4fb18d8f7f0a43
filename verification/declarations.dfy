/** A file's declaration table: at most one declaration per byte offset.

    This is the model of the part of `ZFile` every decoder relies on.  Adding a
    declaration stores it at its offset (replacing whatever was there); a
    placeholder only reserves an offset that is still free.  The pattern every
    decoder's output step follows -- patch the text of an existing declaration,
    otherwise add a full one -- is `DeclareOrPatch`.
 */
module Declarations {
  import opened Text

  datatype Alignment = AlignNone | Align4 | Align8 | Align16

  datatype Padding = PadNone | Pad16

  /** A reserved offset not yet filled in, a single value, or an array. */
  datatype DeclKind = Placeholder | Scalar | Array(count: nat)

  datatype Decl = Decl(
    alignment: Alignment,
    padding: Padding,
    size: nat,
    typeName: string,
    varName: string,
    kind: DeclKind,
    text: string)

  type DeclTable = map<nat, Decl>

  /** The one declaration of a table that changed, at `off`. */
  ghost predicate OnlyChangedAt(t: DeclTable, r: DeclTable, off: nat) {
    && r.Keys == t.Keys + {off}
    && forall k :: k in t && k != off ==> r[k] == t[k]
  }

  /** `ZFile::AddDeclaration`, with or without a padding policy. */
  function AddDeclaration(t: DeclTable, off: nat, alignment: Alignment, padding: Padding,
                          size: nat, typeName: string, varName: string, text: string): (r: DeclTable)
    ensures OnlyChangedAt(t, r, off)
    ensures r[off] == Decl(alignment, padding, size, typeName, varName, Scalar, text)
  {
    t[off := Decl(alignment, padding, size, typeName, varName, Scalar, text)]
  }

  /** `ZFile::AddDeclarationArray`. */
  function AddDeclarationArray(t: DeclTable, off: nat, alignment: Alignment, size: nat,
                               typeName: string, varName: string, count: nat, text: string): (r: DeclTable)
    ensures OnlyChangedAt(t, r, off)
    ensures r[off] == Decl(alignment, PadNone, size, typeName, varName, Array(count), text)
  {
    t[off := Decl(alignment, PadNone, size, typeName, varName, Array(count), text)]
  }

  const PLACEHOLDER: Decl := Decl(AlignNone, PadNone, 0, "", "", Placeholder, "")

  /** `ZFile::AddDeclarationPlaceholder`: reserves a free offset and never
      clobbers a declaration already present. */
  function AddDeclarationPlaceholder(t: DeclTable, off: nat): (r: DeclTable)
    ensures OnlyChangedAt(t, r, off)
    ensures off in t ==> r == t
    ensures off !in t ==> r[off] == PLACEHOLDER
  {
    if off in t then t else t[off := PLACEHOLDER]
  }

  /** `decl->text = text` on the declaration at `off`. */
  function PatchText(t: DeclTable, off: nat, text: string): (r: DeclTable)
    requires off in t
    ensures OnlyChangedAt(t, r, off)
    ensures r[off] == t[off].(text := text)
  {
    t[off := t[off].(text := text)]
  }

  /** The output step of every decoder: if a declaration already sits at
      `off`, only its text becomes `d.text`; otherwise `d` is declared. */
  function DeclareOrPatch(t: DeclTable, off: nat, d: Decl): (r: DeclTable)
    ensures OnlyChangedAt(t, r, off)
    ensures off in t ==> r[off] == t[off].(text := d.text)
    ensures off !in t ==> r[off] == d
  {
    if off in t then PatchText(t, off, d.text) else t[off := d]
  }

  /** Running the output step again changes nothing. */
  lemma DeclareOrPatchIdempotent(t: DeclTable, off: nat, d: Decl)
    ensures DeclareOrPatch(DeclareOrPatch(t, off, d), off, d) == DeclareOrPatch(t, off, d)
  {
  }

  /** Two output passes at one offset leave one declaration carrying the
      latest text; its type, name, size and kind are those of the first. */
  lemma DeclareOrPatchLatestTextWins(t: DeclTable, off: nat, d1: Decl, d2: Decl)
    ensures var r := DeclareOrPatch(DeclareOrPatch(t, off, d1), off, d2);
      && r.Keys == t.Keys + {off}
      && r[off].text == d2.text
      && r[off] == (if off in t then t[off] else d1).(text := d2.text)
  {
  }

  /** `ZFile::GetDeclarationName`: the variable name at an offset, "ERROR"
      when nothing is declared there. */
  function DeclarationName(t: DeclTable, off: nat): (name: string)
    ensures off in t ==> name == t[off].varName
  {
    if off in t then t[off].varName else "ERROR"
  }

  /** How generated source refers to a declaration by address: arrays decay
      to their name, everything else needs `&`. */
  function PtrNameOf(d: Decl): (name: string)
    ensures d.kind.Array? <==> name == d.varName
  {
    if d.kind.Array? then d.varName else "&" + d.varName
  }

  /** `"0x%08X"` of a pointer: the raw-hex rendering of an unresolved pointer. */
  function RawPointer(p: nat): (s: string)
    ensures |s| >= 10 && s[..2] == "0x"
    ensures IsHex(s[2..]) && ParseHex(s[2..]) == p
    ensures p < 0x1_0000_0000 ==> |s| == 10
  {
    assert Pow16(8) == 0x1_0000_0000;
    var digits := HexPad(p, 8);
    assert ("0x" + digits)[2..] == digits;
    "0x" + digits
  }

  /** The name of a declaration when one was asked for without a name:
      `auxName` in the `DeclareVar` members. */
  function AuxName(name: string, defaultName: string): (r: string)
    ensures name != "" ==> r == name
  {
    if name == "" then defaultName else name
  }
}
