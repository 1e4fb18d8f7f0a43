/** `ZLimb` and `ZSkeleton`: a skeleton header points at an array of limb
    pointers; each limb is a fixed-size record whose layout depends on the
    limb type.

    Segmented pointers are converted to file offsets by `s2f` under the
    file's base address.
 */
module Skeleton {
  import opened Wrappers
  import opened Bytes
  import opened Text
  import opened Segments
  import opened Declarations

  datatype LimbType = Standard | Lod | SkinLimb

  /** The `LimbType` attribute: "Standard", "LOD" and "Skin" select a type;
      a missing or unknown value means Standard. */
  function LimbTypeAttr(attr: Option<string>): (t: LimbType)
    ensures t == Lod <==> attr == Some("LOD")
    ensures t == SkinLimb <==> attr == Some("Skin")
    ensures t == Standard <==> attr != Some("LOD") && attr != Some("Skin")
  {
    match attr
    case None => Standard
    case Some(s) => if s == "Standard" then Standard else if s == "LOD" then Lod else if s == "Skin" then SkinLimb else Standard
  }

  /** `ZLimb::GetRawDataSize`. */
  function LimbSize(t: LimbType): nat {
    if t == Standard then 0x0C else 0x10
  }

  /** `ZLimb::GetSourceTypeName`. */
  function LimbTypeName(t: LimbType): (name: string)
    ensures t == Standard <==> name == "StandardLimb"
    ensures t == Lod <==> name == "LodLimb"
    ensures t == SkinLimb <==> name == "SkinLimb"
  {
    match t
    case Standard => "StandardLimb"
    case Lod => "LodLimb"
    case SkinLimb => "SkinLimb"
  }

  /** The fields of a limb record.  A field the limb's type does not read
      stays 0. */
  datatype LimbFields = LimbFields(
    transX: int, transY: int, transZ: int,
    childIndex: nat, siblingIndex: nat,
    dListPtr: nat, farDListPtr: nat,
    skinSegmentType: int, skinSegment: nat)

  /** `ZLimb::ParseRawData`: three signed halfword translations, the child
      and sibling bytes, then the type's pointers.  A LOD limb reads its far
      display list at +12 and, falling through, its display list at +8; a
      Standard limb only the latter; a Skin limb a signed skin type at +8
      and a skin segment at +12.  The reads end exactly at the limb's size. */
  function ParseLimb(t: LimbType, buf: Buffer, at: nat): (r: Result<LimbFields>)
    ensures r.Ok? <==> at + LimbSize(t) <= |buf|
    ensures r.Ok? ==> ReadS16BE(buf, at) == Ok(r.value.transX) && ReadS16BE(buf, at + 2) == Ok(r.value.transY)
    ensures r.Ok? ==> ReadS16BE(buf, at + 4) == Ok(r.value.transZ)
    ensures r.Ok? ==> r.value.childIndex == buf[at + 6] && r.value.siblingIndex == buf[at + 7]
    ensures r.Ok? && t != SkinLimb ==> EncodeBE(r.value.dListPtr, 4) == buf[at + 8..at + 12] && r.value.skinSegment == 0
    ensures r.Ok? && t == Lod ==> EncodeBE(r.value.farDListPtr, 4) == buf[at + 12..at + 16]
    ensures r.Ok? && t == Standard ==> r.value.farDListPtr == 0
    ensures r.Ok? && t == SkinLimb ==>
              && ReadS32BE(buf, at + 8) == Ok(r.value.skinSegmentType)
              && EncodeBE(r.value.skinSegment, 4) == buf[at + 12..at + 16]
              && r.value.dListPtr == 0 && r.value.farDListPtr == 0
    ensures r.Ok? && t != SkinLimb ==> r.value.skinSegmentType == 0
  {
    var transX :- ReadS16BE(buf, at + 0);
    var transY :- ReadS16BE(buf, at + 2);
    var transZ :- ReadS16BE(buf, at + 4);
    var childIndex :- ReadU8(buf, at + 6);
    var siblingIndex :- ReadU8(buf, at + 7);
    var common := LimbFields(transX, transY, transZ, childIndex, siblingIndex, 0, 0, 0, 0);
    match t
    case Lod =>
      var far :- ReadU32BE(buf, at + 12);
      var dl :- ReadU32BE(buf, at + 8);
      Ok(common.(dListPtr := dl, farDListPtr := far))
    case Standard =>
      var dl :- ReadU32BE(buf, at + 8);
      Ok(common.(dListPtr := dl))
    case SkinLimb =>
      var skinType :- ReadS32BE(buf, at + 8);
      var skinSegment :- ReadU32BE(buf, at + 12);
      Ok(common.(skinSegmentType := skinType, skinSegment := skinSegment))
  }

  /** The limb record of type `t` at `at` holds the fields `f`: the
      fields the type reads are encoded at their offsets and the others
      are 0. */
  predicate LimbAt(t: LimbType, buf: Buffer, at: nat, f: LimbFields) {
    && S16FieldIs(buf, at, f.transX) && S16FieldIs(buf, at + 2, f.transY) && S16FieldIs(buf, at + 4, f.transZ)
    && FieldIs(buf, at + 6, 1, f.childIndex) && FieldIs(buf, at + 7, 1, f.siblingIndex)
    && match t
       case Standard =>
         FieldIs(buf, at + 8, 4, f.dListPtr) && f.farDListPtr == 0 && f.skinSegmentType == 0 && f.skinSegment == 0
       case Lod =>
         && FieldIs(buf, at + 8, 4, f.dListPtr) && FieldIs(buf, at + 12, 4, f.farDListPtr)
         && f.skinSegmentType == 0 && f.skinSegment == 0
       case SkinLimb =>
         S32FieldIs(buf, at + 8, f.skinSegmentType) && FieldIs(buf, at + 12, 4, f.skinSegment)
         && f.dListPtr == 0 && f.farDListPtr == 0
  }

  /** The parse returns exactly the limb the buffer holds. */
  lemma ParseLimbExactly(t: LimbType, buf: Buffer, at: nat, f: LimbFields)
    requires LimbAt(t, buf, at, f)
    ensures ParseLimb(t, buf, at) == Ok(f)
  {
    ReadS16Field(buf, at, f.transX);
    ReadS16Field(buf, at + 2, f.transY);
    ReadS16Field(buf, at + 4, f.transZ);
    ReadField(buf, at + 6, 1, f.childIndex);
    ReadField(buf, at + 7, 1, f.siblingIndex);
    match t
    case Standard => ReadField(buf, at + 8, 4, f.dListPtr);
    case Lod =>
      ReadField(buf, at + 8, 4, f.dListPtr);
      ReadField(buf, at + 12, 4, f.farDListPtr);
    case SkinLimb =>
      ReadS32Field(buf, at + 8, f.skinSegmentType);
      ReadField(buf, at + 12, 4, f.skinSegment);
  }

  /** Conversely, a parsed limb is the one the buffer holds. */
  lemma ParseLimbLayout(t: LimbType, buf: Buffer, at: nat)
    requires ParseLimb(t, buf, at).Ok?
    ensures LimbAt(t, buf, at, ParseLimb(t, buf, at).value)
  {
    ReadS16IsField(buf, at);
    ReadS16IsField(buf, at + 2);
    ReadS16IsField(buf, at + 4);
  }

  /** A LOD limb is a Standard limb with one more pointer: where the LOD
      parse succeeds, the Standard parse agrees on every field but the far
      display list. */
  lemma LodExtendsStandard(buf: Buffer, at: nat)
    requires ParseLimb(Lod, buf, at).Ok?
    ensures ParseLimb(Standard, buf, at).Ok?
    ensures ParseLimb(Standard, buf, at).value == ParseLimb(Lod, buf, at).value.(farDListPtr := 0)
  {
  }

  /** A limb: its name, the offset it was read from and its fields. */
  datatype ZLimb = ZLimb(name: string, segAddress: nat, limbType: LimbType, fields: LimbFields)

  /** How a limb refers to its display list: no pointer, an existing
      declaration's name, or a new display list to be declared at `offset`. */
  datatype DListRef = NullDList | ExistingDList(name: string) | NewDList(name: string, offset: nat)

  /** `ZLimb::GetLimbDListSourceOutputCode` without the display-list
      decoding: the reference a limb's display-list pointer resolves to. */
  function LimbDListRef(prefix: string, limbPrefix: string, dListPtr: nat, base: nat,
                        s2f: Seg2FilespaceFn, t: DeclTable): (r: DListRef)
    ensures r.NullDList? <==> dListPtr == 0
    ensures r.ExistingDList? <==> dListPtr != 0 && s2f(dListPtr, base) in t
    ensures r.ExistingDList? ==> r.name == t[s2f(dListPtr, base)].varName
    ensures r.NewDList? ==> r.offset == s2f(dListPtr, base) && r.offset !in t
    ensures r.NewDList? ==> r.name == prefix + limbPrefix + "LimbDL_" + HexPad(r.offset, 6)
  {
    if dListPtr == 0 then NullDList
    else
      var off := s2f(dListPtr, base);
      if off in t then ExistingDList(t[off].varName)
      else NewDList(prefix + limbPrefix + "LimbDL_" + HexPad(off, 6), off)
  }

  /** The text the reference renders to. */
  function DListRefText(r: DListRef): (s: string)
    ensures r.NullDList? ==> s == "NULL"
    ensures !r.NullDList? ==> s == r.name
  {
    match r
    case NullDList => "NULL"
    case ExistingDList(name) => name
    case NewDList(name, _) => name
  }

  datatype SkeletonType = Normal | Flex | SkinSkeleton

  /** The skeleton's `Type` attribute: missing means Normal, "Flex" and
      "Skin" select those types, "Normal" keeps the current type and any
      other value means Normal. */
  function SkeletonTypeAttr(current: SkeletonType, attr: Option<string>): (t: SkeletonType)
    ensures attr.None? ==> t == Normal
    ensures t == Flex <==> attr == Some("Flex") || (attr == Some("Normal") && current == Flex)
    ensures t == SkinSkeleton <==> attr == Some("Skin") || (attr == Some("Normal") && current == SkinSkeleton)
    ensures attr == Some("Normal") ==> t == current
  {
    match attr
    case None => Normal
    case Some(s) => if s == "Flex" then Flex else if s == "Skin" then SkinSkeleton else if s != "Normal" then Normal else current
  }

  /** `ZSkeleton::GetRawDataSize`. */
  function SkeletonSize(t: SkeletonType): nat {
    if t == Flex then 0x0C else 0x08
  }

  /** `ZSkeleton::GetSourceTypeName`. */
  function SkeletonTypeName(t: SkeletonType): (name: string)
    ensures t == Flex <==> name == "FlexSkeletonHeader"
    ensures t != Flex ==> name == "SkeletonHeader"
  {
    if t == Flex then "FlexSkeletonHeader" else "SkeletonHeader"
  }

  datatype SkeletonFields = SkeletonFields(limbsArrayAddress: nat, limbCount: nat, dListCount: nat)

  /** `ZSkeleton::ParseRawData`: the limb array pointer, the limb count byte
      at +4 and the display-list count byte at +8, which lies past the end
      of a Normal header. */
  function ParseSkeletonHeader(buf: Buffer, at: nat): (r: Result<SkeletonFields>)
    ensures r.Ok? <==> at + 9 <= |buf|
    ensures r.Ok? ==> EncodeBE(r.value.limbsArrayAddress, 4) == buf[at..at + 4] && r.value.limbsArrayAddress < 0x1_0000_0000
    ensures r.Ok? ==> r.value.limbCount == buf[at + 4] && r.value.dListCount == buf[at + 8]
  {
    var arr :- ReadU32BE(buf, at);
    var count :- ReadU8(buf, at + 4);
    var dls :- ReadU8(buf, at + 8);
    Ok(SkeletonFields(arr, count, dls))
  }

  /** The local-variable prefix: the name with its first character replaced
      by 's' (just "s" for an empty name). */
  function LocalPrefix(name: string): (p: string)
    ensures |p| >= 1 && p[0] == 's'
    ensures |name| >= 1 ==> |p| == |name| && p[1..] == name[1..]
    ensures |name| == 0 ==> p == "s"
  {
    if |name| == 0 then "s" else "s" + name[1..]
  }

  /** The file offset of limb `i`'s entry in the limb pointer array. */
  function LimbSlot(arrayOffset: nat, i: nat): nat {
    arrayOffset + 4 * i
  }

  /** The name the walk gives a limb read from `addr`. */
  function LimbName(localPrefix: string, addr: nat, base: nat, s2f: Seg2FilespaceFn): string {
    localPrefix + "Limb_" + HexPad(s2f(addr, base), 6)
  }

  /** Limb `i` of the walk: its pointer read from slot `i`, converted to a
      file offset, the limb parsed there and named after its file address. */
  function LimbEntry(buf: Buffer, arrayOffset: nat, i: nat, t: LimbType, localPrefix: string,
                     base: nat, s2f: Seg2FilespaceFn): (r: Result<ZLimb>)
    ensures r.Ok? <==> (ReadU32BE(buf, LimbSlot(arrayOffset, i)).Ok?
                        && ParseLimb(t, buf, s2f(ReadU32BE(buf, LimbSlot(arrayOffset, i)).value, base)).Ok?)
    ensures r.Ok? ==> var addr := s2f(ReadU32BE(buf, LimbSlot(arrayOffset, i)).value, base);
      && r.value.segAddress == addr && r.value.limbType == t
      && r.value.fields == ParseLimb(t, buf, addr).value
      && r.value.name == LimbName(localPrefix, addr, base, s2f)
  {
    var ptr :- ReadU32BE(buf, LimbSlot(arrayOffset, i));
    var addr := s2f(ptr, base);
    var fields :- ParseLimb(t, buf, addr);
    Ok(ZLimb(LimbName(localPrefix, addr, base, s2f), addr, t, fields))
  }

  /** The limb walk of the skeleton constructor: exactly `limbCount` limbs,
      limb `i` from slot `i`, in order; the first limb that cannot be read
      makes the walk fail. */
  method WalkLimbs(buf: Buffer, arrayOffset: nat, limbCount: nat, t: LimbType, localPrefix: string,
                   base: nat, s2f: Seg2FilespaceFn) returns (r: Result<seq<ZLimb>>)
    ensures r.Ok? <==> forall i :: 0 <= i < limbCount ==> LimbEntry(buf, arrayOffset, i, t, localPrefix, base, s2f).Ok?
    ensures r.Ok? ==> |r.value| == limbCount
    ensures r.Ok? ==> forall i :: 0 <= i < limbCount ==>
              r.value[i] == LimbEntry(buf, arrayOffset, i, t, localPrefix, base, s2f).value
    ensures r.Err? ==> exists i :: 0 <= i < limbCount && LimbEntry(buf, arrayOffset, i, t, localPrefix, base, s2f).Err?
                         && r.error == LimbEntry(buf, arrayOffset, i, t, localPrefix, base, s2f).error
  {
    var entry := (i: nat) => LimbEntry(buf, arrayOffset, i, t, localPrefix, base, s2f);
    r := WalkEntries(limbCount, entry);
    assert forall i: nat :: entry(i) == LimbEntry(buf, arrayOffset, i, t, localPrefix, base, s2f);
    if r.Err? {
      var k :| 0 <= k < limbCount && entry(k).Err? && r.error == entry(k).error;
      assert LimbEntry(buf, arrayOffset, k, t, localPrefix, base, s2f).Err?;
    }
  }

  /** Reads entries `0 .. n - 1` in order, stopping at the first error. */
  method WalkEntries(n: nat, entry: nat -> Result<ZLimb>) returns (r: Result<seq<ZLimb>>)
    ensures r.Ok? <==> forall i :: 0 <= i < n ==> entry(i).Ok?
    ensures r.Ok? ==> |r.value| == n && forall i :: 0 <= i < n ==> r.value[i] == entry(i).value
    ensures r.Err? ==> exists i :: 0 <= i < n && entry(i).Err? && r.error == entry(i).error
  {
    var limbs: seq<ZLimb> := [];
    var i := 0;
    while i < n
      invariant 0 <= i <= n && |limbs| == i
      invariant forall j :: 0 <= j < i ==> entry(j) == Ok(limbs[j])
    {
      var e := entry(i);
      if e.Err? {
        return Err(e.error);
      }
      limbs := limbs + [e.value];
      i := i + 1;
    }
    return Ok(limbs);
  }

  /** A skeleton: its name, offset, types, header fields and limbs. */
  datatype ZSkeleton = ZSkeleton(
    name: string,
    offset: nat,
    skelType: SkeletonType,
    limbType: LimbType,
    fields: SkeletonFields,
    limbs: seq<ZLimb>)

  /** The skeleton constructor: the header, then the limb walk over the
      array its pointer converts to, with the limb type the same element
      names. */
  method NewSkeleton(name: string, typeAttr: Option<string>, limbTypeAttr: Option<string>,
                     buf: Buffer, at: nat, base: nat, s2f: Seg2FilespaceFn) returns (r: Result<ZSkeleton>)
    ensures r.Ok? ==> ParseSkeletonHeader(buf, at).Ok? && r.value.fields == ParseSkeletonHeader(buf, at).value
    ensures r.Ok? ==> r.value.name == name && r.value.offset == at
    ensures r.Ok? ==> r.value.skelType == SkeletonTypeAttr(Normal, typeAttr) && r.value.limbType == LimbTypeAttr(limbTypeAttr)
    ensures r.Ok? ==> |r.value.limbs| == r.value.fields.limbCount
    ensures r.Ok? ==> forall i :: 0 <= i < |r.value.limbs| ==>
              LimbEntry(buf, s2f(r.value.fields.limbsArrayAddress, base), i,
                        r.value.limbType, LocalPrefix(name), base, s2f).Ok? &&
              r.value.limbs[i] == LimbEntry(buf, s2f(r.value.fields.limbsArrayAddress, base), i,
                                            r.value.limbType, LocalPrefix(name), base, s2f).value
    ensures ParseSkeletonHeader(buf, at).Err? ==> r.Err?
    ensures r.Ok? <==> (ParseSkeletonHeader(buf, at).Ok? &&
              var fields := ParseSkeletonHeader(buf, at).value;
              forall i :: 0 <= i < fields.limbCount ==>
                LimbEntry(buf, s2f(fields.limbsArrayAddress, base), i, LimbTypeAttr(limbTypeAttr), LocalPrefix(name), base, s2f).Ok?)
    ensures r.Ok? ==> forall i :: 0 <= i < |r.value.limbs| ==>
              r.value.limbs[i].name == LimbName(LocalPrefix(name), r.value.limbs[i].segAddress, base, s2f)
  {
    var fields :- ParseSkeletonHeader(buf, at);
    var limbType := LimbTypeAttr(limbTypeAttr);
    var limbs :- WalkLimbs(buf, s2f(fields.limbsArrayAddress, base), fields.limbCount, limbType,
                           LocalPrefix(name), base, s2f);
    return Ok(ZSkeleton(name, at, SkeletonTypeAttr(Normal, typeAttr), limbType, fields, limbs));
  }

  /** One line of the limb table. */
  function TableEntry(name: string): string {
    "    &" + name + ","
  }

  /** The table lines for a list of names. */
  function TableEntries(names: seq<string>): (lines: seq<string>)
    ensures |lines| == |names|
    ensures forall i :: 0 <= i < |names| ==> lines[i] == TableEntry(names[i])
  {
    seq(|names|, i requires 0 <= i < |names| => TableEntry(names[i]))
  }

  /** The limb table's text, built as the source builds it: each limb's
      entry followed by a line break except the last.  It is the entries
      joined by line breaks. */
  method LimbTableText(names: seq<string>) returns (text: string)
    ensures text == Join(TableEntries(names), "\n")
  {
    var entries := TableEntries(names);
    text := "";
    var i := 0;
    while i < |names|
      invariant 0 <= i <= |names|
      invariant i == 0 ==> text == ""
      invariant 0 < i < |names| ==> text == Join(entries[..i], "\n") + "\n"
      invariant i == |names| && i > 0 ==> text == Join(entries[..i], "\n")
    {
      var line := TableEntry(names[i]);
      if i != |names| - 1 {
        line := line + "\n";
      }
      if i > 0 {
        assert entries[..i + 1][..i] == entries[..i];
      }
      text := text + line;
      i := i + 1;
    }
    assert entries[..|names|] == entries;
  }

  /** `ZLimb::GetFileAddress`: the file offset the limb is declared at. */
  function LimbAddress(limb: ZLimb, base: nat, s2f: Seg2FilespaceFn): nat {
    s2f(limb.segAddress, base)
  }

  /** The declaration a limb's output adds: its type's size and name, the
      limb's own name and the entry text. */
  function LimbDecl(limb: ZLimb, text: string): Decl {
    Decl(AlignNone, PadNone, LimbSize(limb.limbType), LimbTypeName(limb.limbType), limb.name, Scalar, text)
  }

  /** The file offsets of a list of limbs. */
  function LimbAddresses(limbs: seq<ZLimb>, base: nat, s2f: Seg2FilespaceFn): set<nat> {
    set i | 0 <= i < |limbs| :: LimbAddress(limbs[i], base, s2f)
  }

  /** No earlier limb of the list shares limb `i`'s address. */
  predicate FirstAt(limbs: seq<ZLimb>, i: nat, base: nat, s2f: Seg2FilespaceFn)
    requires i < |limbs|
  {
    forall j :: 0 <= j < i ==> LimbAddress(limbs[j], base, s2f) != LimbAddress(limbs[i], base, s2f)
  }

  /** No later limb of the list shares limb `i`'s address. */
  predicate LastAt(limbs: seq<ZLimb>, i: nat, base: nat, s2f: Seg2FilespaceFn)
    requires i < |limbs|
  {
    forall j :: i < j < |limbs| ==> LimbAddress(limbs[j], base, s2f) != LimbAddress(limbs[i], base, s2f)
  }

  /** Every entry of `t` at an offset outside `a` is kept in `r`. */
  ghost predicate KeepsOthers(t: DeclTable, r: DeclTable, a: set<nat>) {
    forall k :: k in t && k !in a ==> k in r && r[k] == t[k]
  }

  /** A limb whose address was already declared only changes that
      declaration's text. */
  ghost predicate PatchesDeclared(limbs: seq<ZLimb>, base: nat, s2f: Seg2FilespaceFn, t: DeclTable, r: DeclTable) {
    forall i :: 0 <= i < |limbs| && LimbAddress(limbs[i], base, s2f) in t ==>
      var a := LimbAddress(limbs[i], base, s2f); a in r && r[a] == t[a].(text := r[a].text)
  }

  /** At a free address, the first limb there gives the declaration. */
  ghost predicate NamedByFirst(limbs: seq<ZLimb>, base: nat, s2f: Seg2FilespaceFn, t: DeclTable, r: DeclTable) {
    forall i :: 0 <= i < |limbs| && LimbAddress(limbs[i], base, s2f) !in t && FirstAt(limbs, i, base, s2f) ==>
      var a := LimbAddress(limbs[i], base, s2f); a in r && r[a] == LimbDecl(limbs[i], r[a].text)
  }

  /** The last limb at an address gives that declaration's text. */
  ghost predicate TextByLast(limbs: seq<ZLimb>, entryText: ZLimb -> string, base: nat, s2f: Seg2FilespaceFn, r: DeclTable) {
    forall i :: 0 <= i < |limbs| && LastAt(limbs, i, base, s2f) ==>
      LimbAddress(limbs[i], base, s2f) in r && r[LimbAddress(limbs[i], base, s2f)].text == entryText(limbs[i])
  }

  /** The limb loop of `ZSkeleton::GetSourceOutputCode`: each limb's
      `ZLimb::GetSourceOutputCode` in order, which patches the text of the
      declaration at the limb's address or declares the limb there.
      `entryText` is the text a limb prints.  The first limb at an address
      that was free names its declaration, and the last limb there sets its
      text. */
  function LimbOutputs(limbs: seq<ZLimb>, entryText: ZLimb -> string, base: nat, s2f: Seg2FilespaceFn,
                       t: DeclTable): (r: DeclTable)
    ensures r.Keys == t.Keys + LimbAddresses(limbs, base, s2f)
    ensures KeepsOthers(t, r, LimbAddresses(limbs, base, s2f))
    ensures PatchesDeclared(limbs, base, s2f, t, r)
    ensures NamedByFirst(limbs, base, s2f, t, r)
    ensures TextByLast(limbs, entryText, base, s2f, r)
    decreases |limbs|
  {
    if |limbs| == 0 then t
    else
      var n := |limbs| - 1;
      var prev := LimbOutputs(limbs[..n], entryText, base, s2f, t);
      var r := DeclareOrPatch(prev, LimbAddress(limbs[n], base, s2f), LimbDecl(limbs[n], entryText(limbs[n])));
      LimbOutputsStep(limbs, base, s2f);
      KeepsOthersStep(limbs, base, s2f, t, prev, r);
      PatchesDeclaredStep(limbs, base, s2f, t, prev, entryText(limbs[n]), r);
      NamedByFirstStep(limbs, base, s2f, t, prev, entryText(limbs[n]), r);
      TextByLastStep(limbs, entryText, base, s2f, t, prev, r);
      r
  }

  /** The addresses of a list are those of all but its last limb, and the
      last limb's. */
  lemma LimbOutputsStep(limbs: seq<ZLimb>, base: nat, s2f: Seg2FilespaceFn)
    requires |limbs| > 0
    ensures var n := |limbs| - 1;
      LimbAddresses(limbs, base, s2f) == LimbAddresses(limbs[..n], base, s2f) + {LimbAddress(limbs[n], base, s2f)}
  {
    var n := |limbs| - 1;
    forall a | a in LimbAddresses(limbs, base, s2f)
      ensures a in LimbAddresses(limbs[..n], base, s2f) + {LimbAddress(limbs[n], base, s2f)}
    {
      var i :| 0 <= i < |limbs| && LimbAddress(limbs[i], base, s2f) == a;
      if i < n {
        assert limbs[..n][i] == limbs[i];
      }
    }
    forall a | a in LimbAddresses(limbs[..n], base, s2f)
      ensures a in LimbAddresses(limbs, base, s2f)
    {
      var i :| 0 <= i < n && LimbAddress(limbs[..n][i], base, s2f) == a;
      assert limbs[..n][i] == limbs[i];
    }
  }

  lemma KeepsOthersStep(limbs: seq<ZLimb>, base: nat, s2f: Seg2FilespaceFn, t: DeclTable, prev: DeclTable, r: DeclTable)
    requires |limbs| > 0
    requires var n := |limbs| - 1;
      && LimbAddresses(limbs, base, s2f) == LimbAddresses(limbs[..n], base, s2f) + {LimbAddress(limbs[n], base, s2f)}
      && KeepsOthers(t, prev, LimbAddresses(limbs[..n], base, s2f))
      && OnlyChangedAt(prev, r, LimbAddress(limbs[n], base, s2f))
    ensures KeepsOthers(t, r, LimbAddresses(limbs, base, s2f))
  {
  }

  lemma PatchesDeclaredStep(limbs: seq<ZLimb>, base: nat, s2f: Seg2FilespaceFn, t: DeclTable, prev: DeclTable,
                            text: string, r: DeclTable)
    requires |limbs| > 0
    requires var n := |limbs| - 1;
      && LimbAddresses(limbs, base, s2f) == LimbAddresses(limbs[..n], base, s2f) + {LimbAddress(limbs[n], base, s2f)}
      && KeepsOthers(t, prev, LimbAddresses(limbs[..n], base, s2f))
      && PatchesDeclared(limbs[..n], base, s2f, t, prev)
      && r == DeclareOrPatch(prev, LimbAddress(limbs[n], base, s2f), LimbDecl(limbs[n], text))
      && t.Keys <= prev.Keys
    ensures PatchesDeclared(limbs, base, s2f, t, r)
  {
    var n := |limbs| - 1;
    var init := limbs[..n];
    var an := LimbAddress(limbs[n], base, s2f);
    forall i | 0 <= i < |limbs| && LimbAddress(limbs[i], base, s2f) in t
      ensures var a := LimbAddress(limbs[i], base, s2f); a in r && r[a] == t[a].(text := r[a].text)
    {
      var a := LimbAddress(limbs[i], base, s2f);
      if a == an {
        if a in LimbAddresses(init, base, s2f) {
          var j :| 0 <= j < n && LimbAddress(init[j], base, s2f) == a;
        }
      } else {
        assert init[i] == limbs[i];
      }
    }
  }

  lemma NamedByFirstStep(limbs: seq<ZLimb>, base: nat, s2f: Seg2FilespaceFn, t: DeclTable, prev: DeclTable,
                         text: string, r: DeclTable)
    requires |limbs| > 0
    requires var n := |limbs| - 1;
      && prev.Keys == t.Keys + LimbAddresses(limbs[..n], base, s2f)
      && NamedByFirst(limbs[..n], base, s2f, t, prev)
      && r == DeclareOrPatch(prev, LimbAddress(limbs[n], base, s2f), LimbDecl(limbs[n], text))
    ensures NamedByFirst(limbs, base, s2f, t, r)
  {
    var n := |limbs| - 1;
    var init := limbs[..n];
    var an := LimbAddress(limbs[n], base, s2f);
    forall i | 0 <= i < |limbs| && LimbAddress(limbs[i], base, s2f) !in t && FirstAt(limbs, i, base, s2f)
      ensures var a := LimbAddress(limbs[i], base, s2f); a in r && r[a] == LimbDecl(limbs[i], r[a].text)
    {
      if i < n {
        assert init[i] == limbs[i];
        assert FirstAt(init, i, base, s2f) by {
          forall j | 0 <= j < i ensures LimbAddress(init[j], base, s2f) != LimbAddress(init[i], base, s2f) {
            assert init[j] == limbs[j];
          }
        }
      } else {
        assert an !in LimbAddresses(init, base, s2f) by {
          forall j | 0 <= j < n ensures LimbAddress(init[j], base, s2f) != an {
            assert init[j] == limbs[j];
          }
        }
      }
    }
  }

  lemma TextByLastStep(limbs: seq<ZLimb>, entryText: ZLimb -> string, base: nat, s2f: Seg2FilespaceFn,
                       t: DeclTable, prev: DeclTable, r: DeclTable)
    requires |limbs| > 0
    requires var n := |limbs| - 1;
      && TextByLast(limbs[..n], entryText, base, s2f, prev)
      && r == DeclareOrPatch(prev, LimbAddress(limbs[n], base, s2f), LimbDecl(limbs[n], entryText(limbs[n])))
    ensures TextByLast(limbs, entryText, base, s2f, r)
  {
    var n := |limbs| - 1;
    var init := limbs[..n];
    forall i | 0 <= i < |limbs| && LastAt(limbs, i, base, s2f)
      ensures LimbAddress(limbs[i], base, s2f) in r && r[LimbAddress(limbs[i], base, s2f)].text == entryText(limbs[i])
    {
      if i < n {
        assert init[i] == limbs[i];
        assert LastAt(init, i, base, s2f) by {
          forall j | i < j < n ensures LimbAddress(init[j], base, s2f) != LimbAddress(init[i], base, s2f) {
            assert init[j] == limbs[j];
          }
        }
      }
    }
  }

  /** The names the limb table refers to: the declaration name at each
      limb's file address. */
  function LimbTableNames(limbs: seq<ZLimb>, base: nat, s2f: Seg2FilespaceFn, t: DeclTable): (names: seq<string>)
    ensures |names| == |limbs|
    ensures forall i :: 0 <= i < |limbs| ==> names[i] == DeclarationName(t, s2f(limbs[i].segAddress, base))
  {
    seq(|limbs|, i requires 0 <= i < |limbs| => DeclarationName(t, s2f(limbs[i].segAddress, base)))
  }

  /** The earliest limb that shares limb `i`'s address. */
  lemma {:induction false} FirstSame(limbs: seq<ZLimb>, i: nat, base: nat, s2f: Seg2FilespaceFn) returns (j: nat)
    requires i < |limbs|
    ensures j <= i && LimbAddress(limbs[j], base, s2f) == LimbAddress(limbs[i], base, s2f)
    ensures FirstAt(limbs, j, base, s2f)
    decreases i
  {
    if FirstAt(limbs, i, base, s2f) {
      j := i;
    } else {
      var k :| 0 <= k < i && LimbAddress(limbs[k], base, s2f) == LimbAddress(limbs[i], base, s2f);
      j := FirstSame(limbs, k, base, s2f);
    }
  }

  /** What the limb table reads back after the limbs' output: a limb whose
      address was declared beforehand is referred to by that declaration's
      name, any other by the name of the first limb at its address. */
  lemma TableNamesAfterOutputs(limbs: seq<ZLimb>, entryText: ZLimb -> string, base: nat, s2f: Seg2FilespaceFn,
                               t: DeclTable, i: nat)
    requires i < |limbs|
    ensures var names := LimbTableNames(limbs, base, s2f, LimbOutputs(limbs, entryText, base, s2f, t));
      var a := LimbAddress(limbs[i], base, s2f);
      && (a in t ==> names[i] == t[a].varName)
      && (a !in t ==> exists j :: 0 <= j <= i && LimbAddress(limbs[j], base, s2f) == a
                                && FirstAt(limbs, j, base, s2f) && names[i] == limbs[j].name)
  {
    var r := LimbOutputs(limbs, entryText, base, s2f, t);
    var a := LimbAddress(limbs[i], base, s2f);
    if a in t {
      assert r[a] == t[a].(text := r[a].text);
    } else {
      var j := FirstSame(limbs, i, base, s2f);
      assert r[a] == LimbDecl(limbs[j], r[a].text);
    }
  }

  /** For the limbs the skeleton constructor reads, named after their file
      address, and no address declared beforehand, the limb table refers to
      each limb by its own name. */
  lemma TableNamesAreLimbNames(limbs: seq<ZLimb>, localPrefix: string, entryText: ZLimb -> string, base: nat,
                               s2f: Seg2FilespaceFn, t: DeclTable)
    requires forall i :: 0 <= i < |limbs| ==> limbs[i].name == LimbName(localPrefix, limbs[i].segAddress, base, s2f)
    requires forall i :: 0 <= i < |limbs| ==> LimbAddress(limbs[i], base, s2f) !in t
    ensures var names := LimbTableNames(limbs, base, s2f, LimbOutputs(limbs, entryText, base, s2f, t));
      forall i :: 0 <= i < |limbs| ==> names[i] == limbs[i].name
  {
    forall i | 0 <= i < |limbs|
      ensures LimbTableNames(limbs, base, s2f, LimbOutputs(limbs, entryText, base, s2f, t))[i] == limbs[i].name
    {
      TableNamesAfterOutputs(limbs, entryText, base, s2f, t, i);
    }
  }

  /** The header text: the limb array's name and count, and for Flex the
      display-list count; nothing for Skin. */
  function SkeletonHeaderText(skel: ZSkeleton): (s: string)
    ensures skel.skelType == SkinSkeleton <==> s == ""
    ensures skel.skelType == Normal ==> s == LocalPrefix(skel.name) + "Limbs, " + Dec(skel.fields.limbCount)
    ensures skel.skelType == Flex ==>
              s == LocalPrefix(skel.name) + "Limbs, " + Dec(skel.fields.limbCount) + ", " + Dec(skel.fields.dListCount)
  {
    match skel.skelType
    case Normal => LocalPrefix(skel.name) + "Limbs, " + Dec(skel.fields.limbCount)
    case Flex => LocalPrefix(skel.name) + "Limbs, " + Dec(skel.fields.limbCount) + ", " + Dec(skel.fields.dListCount)
    case SkinSkeleton => ""
  }

  /** `ZSkeleton::GetSourceOutputCode`: the limbs' output first; then the
      limb table, declared only when nothing is declared at the array's
      offset by then, naming each limb by the declaration at its address;
      then the header, (re)declared at the skeleton's offset. */
  method SkeletonOutput(skel: ZSkeleton, entryText: ZLimb -> string, base: nat, s2f: Seg2FilespaceFn,
                        t: DeclTable) returns (r: DeclTable)
    ensures var arr := s2f(skel.fields.limbsArrayAddress, base);
      r.Keys == LimbOutputs(skel.limbs, entryText, base, s2f, t).Keys + {arr, skel.offset}
    ensures var t0 := LimbOutputs(skel.limbs, entryText, base, s2f, t);
      forall k :: k in t0 && k != skel.offset ==> r[k] == t0[k]
    ensures var arr := s2f(skel.fields.limbsArrayAddress, base);
      var t0 := LimbOutputs(skel.limbs, entryText, base, s2f, t);
      arr !in t0 && arr != skel.offset ==>
        && r[arr].kind == Array(skel.fields.limbCount)
        && r[arr].size == 4 * skel.fields.limbCount
        && r[arr].typeName == "static " + LimbTypeName(skel.limbType) + "*"
        && r[arr].varName == LocalPrefix(skel.name) + "Limbs"
        && r[arr].text == Join(TableEntries(LimbTableNames(skel.limbs, base, s2f, t0)), "\n")
    ensures r[skel.offset] == Decl(Align16, PadNone, SkeletonSize(skel.skelType), SkeletonTypeName(skel.skelType),
                                   skel.name, Scalar, SkeletonHeaderText(skel))
  {
    var t0 := LimbOutputs(skel.limbs, entryText, base, s2f, t);
    r := TableAndHeader(skel, base, s2f, t0);
  }

  /** The part of `ZSkeleton::GetSourceOutputCode` after the limbs'
      output: the table if its offset is free, then the header. */
  method TableAndHeader(skel: ZSkeleton, base: nat, s2f: Seg2FilespaceFn, t0: DeclTable) returns (r: DeclTable)
    ensures var arr := s2f(skel.fields.limbsArrayAddress, base);
      r.Keys == t0.Keys + {arr, skel.offset}
    ensures forall k :: k in t0 && k != skel.offset ==> r[k] == t0[k]
    ensures var arr := s2f(skel.fields.limbsArrayAddress, base);
      arr !in t0 && arr != skel.offset ==>
        && r[arr].kind == Array(skel.fields.limbCount)
        && r[arr].size == 4 * skel.fields.limbCount
        && r[arr].typeName == "static " + LimbTypeName(skel.limbType) + "*"
        && r[arr].varName == LocalPrefix(skel.name) + "Limbs"
        && r[arr].text == Join(TableEntries(LimbTableNames(skel.limbs, base, s2f, t0)), "\n")
    ensures r[skel.offset] == Decl(Align16, PadNone, SkeletonSize(skel.skelType), SkeletonTypeName(skel.skelType),
                                   skel.name, Scalar, SkeletonHeaderText(skel))
  {
    var arr := s2f(skel.fields.limbsArrayAddress, base);
    var t1 := t0;
    if arr !in t0 {
      var text := LimbTableText(LimbTableNames(skel.limbs, base, s2f, t0));
      t1 := AddDeclarationArray(t0, arr, AlignNone, 4 * skel.fields.limbCount,
                                "static " + LimbTypeName(skel.limbType) + "*", LocalPrefix(skel.name) + "Limbs",
                                skel.fields.limbCount, text);
    }
    r := AddDeclaration(t1, skel.offset, Align16, PadNone, SkeletonSize(skel.skelType), SkeletonTypeName(skel.skelType),
                        skel.name, SkeletonHeaderText(skel));
  }
}
