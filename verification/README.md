# ZAPD pointer resolution, declaration table and record decoders in Dafny

ZAPD reads binary assets, decodes fixed-layout records from them and writes C
declarations. This project models the core of that engine as pure functions
over an immutable byte buffer (`Buffer = seq<Byte>`), a declaration table
(`DeclTable = map<nat, Decl>`, keyed by file offset) and a segment registry.
The core covers:

- resolving segmented pointers to names: `Globals`, `Segments`;
- the declaration table's add, placeholder and "declare or patch the text"
  updates: `Declarations`;
- big-endian field reads that fail instead of reading past the buffer:
  `Bytes`;
- `printf`-style hex and decimal rendering, with parsers that read the
  rendering back: `Text`;
- the message control-code tables and the end-marker scanners: `MessageTables`,
  `Message`, `MessageHeader`;
- the skeleton and limb decoders and the limb walk: `Skeleton`;
- the room mesh command with all three mesh header types, its polygon
  display-list records and background images: `SetMesh`;
- the JPEG background scan and padding: `Background`;
- fixed-point matrices: `Mtx`;
- the room exit list: `SetExitList`.

Every decoder returns `Result`. A read past the end of the buffer is
`Err(OutOfRange(..))`, as the source's bounds-checked `.at` reads throw there.
Code whose body lives outside these files is a parameter:

- `Seg2Filespace` is the function `s2f: (pointer, base) -> offset`;
- `GetDeclarationSizeFromNeighbor` is `NeighbourSizeFn`;
- the segment descriptor loader is `load: path -> LoadOutcome`.

`GETSEGNUM` is the top byte of a 32-bit pointer. `GETSEGOFFSET` is the low 24
bits.

Where a file and the design text disagree, the model follows the code:

- `ZMessage.cpp` accepts the encoding string `"Jap"`, while its header's enum
  says `Jpn`. The model uses the enum's `Jpn` and accepts `"Jap"` for a message
  and `"Jpn"` for a message header.
- A `PolygonDlist2`'s unresolved `opa` is printed as the whole pointer, but an
  unresolved `xlu` as its 24-bit offset only (`UnresolvedDlist2Names`).
- For a mesh header of type 0 with no entries, the source reads the
  declaration at `dListStart` without checking that one exists. The model
  returns `Err(MissingDeclaration(..))` there.

## Model

| member | source | states |
|---|---|---|
| Globals.GetSegmentedPtrName | ZAPD/Globals.cpp:203-244 | A zero pointer is "NULL" with success. Otherwise the current file is tried when the segment is its own. Other registered segments try their files in registration order, and the first file with a declaration wins. Then the symbol map, keyed by the full pointer, gives "&"+name. A pointer that misses everything gives the raw 0x%08X and reports failure. The result resolves iff one of these stages hits. |
| Globals.SameSegmentMissSkipsRegisteredFiles | ZAPD/Globals.cpp:213-235 | For a pointer in the current file's segment, the answer does not depend on the files registered for that segment. A miss goes straight to the symbol map. |
| Globals.SymbolMapKeyedByFullPointer | ZAPD/Globals.cpp:235-243 | Two pointers with the same offset in different segments are told apart by the symbol map: one resolves, the other falls through to hex. |
| Globals.AddSegment | ZAPD/Globals.cpp:187-196 | The segment list stays duplicate-free and keeps its order, and the segment is in it afterwards. The file is appended to that segment's list. Every other segment's list is unchanged, and the segment's path is recorded. |
| Globals.HasSegment | ZAPD/Globals.cpp:198-201 | True exactly when the segment is in the segment list. |
| Globals.Find | ZAPD/Globals.cpp:191 | Returns the first index holding the value, or the length when no element does. |
| Globals.FindSymbolSegRef | ZAPD/Globals.cpp:39-78 | An unconfigured segment gives "ERROR" and leaves the registry alone. A segment that already has a file list is never reloaded. For a segment without one, a failed load gives "ERROR" and changes nothing; a descriptor with no `File` element leaves an empty list; a loaded file becomes the segment's only file. Past loading, the name is the first declaring file's name for the full pointer, else "ERROR". The registry stays valid, and the symbol map is never touched. |
| Globals.FirstDeclarationName | ZAPD/Globals.cpp:70-77 | The first file in the list with a declaration at the address names the segmented pointer `(seg << 24) \| address`. When no file has one, the name is "ERROR". |
| Globals.FindSymbolSegRefLoadsOnce | ZAPD/Globals.cpp:41-44 | After one lookup has got past loading, a second lookup in that segment ignores the loader and changes nothing. |
| Globals.FirstFile | ZAPD/Globals.cpp:70-74 | Returns the first file satisfying the test, with none before it, or None when no file satisfies it. |
| Globals.DeclarationPtrName | ZAPD/Globals.cpp:216 | A file's name for a pointer into it is the pointer name of the declaration at the converted offset. |
| Globals.EnsureFileList | ZAPD/Globals.cpp:70 | Indexing the file-list map creates an empty list for the segment. No segment's files change, and validity is kept. |
| Segments.SegNum | ZAPD/Globals.cpp:211 | The segment number is below 0x100. |
| Segments.SegPtrSplit | ZAPD/Globals.cpp:211 | A pointer is rebuilt exactly from its segment number and its 24-bit offset. |
| Segments.SegPtrParts | ZAPD/Globals.cpp:73 | A pointer built from a segment and an offset gives back that segment and that offset. |
| Segments.SegPtrOf | ZAPD/Globals.cpp:73 | `(seg << 24) \| address` is the segmented pointer for an in-range segment and offset. |
| Declarations.DeclareOrPatch | ZAPD/ZMtx.cpp:97-102 | Only the offset's entry changes. An existing declaration keeps everything but its text; otherwise the new declaration is added whole. |
| Declarations.DeclareOrPatchIdempotent | ZAPD/ZMtx.cpp:97-102 | Doing the same output twice gives the same table as doing it once. |
| Declarations.DeclareOrPatchLatestTextWins | ZAPD/ZMessage.cpp:121-130 | After two outputs at one offset, the declaration is the first one added, carrying the second one's text. |
| Declarations.AddDeclarationPlaceholder | ZAPD/ZRoom/Commands/SetExitList.cpp:12-13 | A placeholder is added only where nothing is declared yet. An existing declaration is kept. |
| Declarations.RawPointer | ZAPD/Globals.cpp:242 | "0x" then hex digits that parse back to the pointer, exactly 10 characters for a 32-bit value. |
| Bytes.ReadBE | ZAPD/ZMtx.cpp:25-41 | A read succeeds iff the field lies inside the buffer. Its value is the field's big-endian encoding read back. |
| Bytes.ReadU32BE | ZAPD/ZRoom/Commands/SetMesh.cpp:209-210 | Succeeds iff four bytes remain. The value is below 2^32 and re-encodes to those four bytes. |
| Bytes.ReadS16BE | ZAPD/ZSkeleton.cpp:73-75 | The signed read is the two's-complement view of the field: its value is in the int16 range and wraps back to the field's bytes. |
| Bytes.ReadHalfwords | ZAPD/ZRoom/Commands/SetExitList.cpp:26-34 | Reading n halfwords at stride 2 succeeds iff they all lie inside the buffer, and value k is the halfword at offset + 2k. |
| Bytes.ReadEncodedHalfwords | ZAPD/ZRoom/Commands/SetExitList.cpp:26-34 | Reading back encoded halfwords gives the original values, wherever they sit in the buffer. |
| Bytes.DecodeEncode | ZAPD/ZMtx.cpp:25-41 | Decoding the big-endian encoding of a value that fits gives the value back. |
| Bytes.EncodeDecode | ZAPD/ZMtx.cpp:25-41 | Re-encoding the value of a byte field gives back the field's bytes. |
| MessageTables.HalvesRecombine | ZAPD/ZMessage.h:10-11 | For every 16-bit x, upper*256 + lower == x, and both halves are below 256. |
| MessageTables.AsciiMacro | ZAPD/ZMessage.h:72-107 | Every code is below 0x20 and takes at most 3 argument bytes. BACKGROUND (0x15) is the only 3-byte code. The line break is 0x01 and the end marker 0x02, both with no arguments; the text colour code 0x05 takes 1. Every code below 0x20 except 0x00 and 0x03 is in the table. |
| MessageTables.JpnMacro | ZAPD/ZMessage.h:108-143 | Each halfword code is paired with a byte-encoding code that has the same macro name and argument count. The end marker is 0x8170, the line break 0x000A and the text colour code 0x000B. |
| MessageTables.JpnPairingIsBijective | ZAPD/ZMessage.h:72-143 | The pairing between the two tables is a bijection. It covers every byte-encoding macro except UNUSED_1 (0x0D) and UNUSED_2 (0x11). |
| MessageTables.ColorMacro | ZAPD/ZMessage.h:165-175 | Defined exactly on 0..7: 0 is DEFAULT, 3 is BLUE and 7 is WHITE. |
| MessageTables.SpecialCharacter | ZAPD/ZMessage.h:144-164 | Defined exactly on 0x96 and 0x9F..0xAB, and disjoint from every control code. |
| Message.ParseEncodingAttr | ZAPD/ZMessage.cpp:35-55 | "Jap" selects Jpn and any other value Ascii. A missing attribute keeps the current encoding. |
| Message.ScanAscii | ZAPD/ZMessage.cpp:62-70 | Succeeds iff a 0x02 follows the start. The result is the buffer from the start through the first 0x02: it ends in 0x02 and has none earlier. Otherwise the read runs off the buffer. |
| Message.ScanJpn | ZAPD/ZMessage.cpp:71-79 | Succeeds iff an 0x8170 halfword follows at stride 2. The result holds the halfwords through the first one, in order, and ends in 0x8170 with none earlier. |
| Message.ScanAsciiFirstMarker | ZAPD/ZMessage.cpp:62-70 | Conversely, a buffer whose first 0x02 after the start is at position n scans to exactly those n bytes. |
| Message.HelloScansToSixBytes | ZAPD/ZMessage.cpp:62-70 | "HELLO" followed by 0x02 scans to six bytes, and the message's raw size is 6. |
| Message.ParseMessage | ZAPD/ZMessage.cpp:58-80 | The message's encoding selects the scan: it stores the bytes for Ascii and the halfwords for Jpn. The message fails exactly when the scan does. |
| Message.NewMessage | ZAPD/ZMessage.cpp:17-28 | Named prefix+"Message_"+offset, with the given encoding. Ascii succeeds iff the byte scan does and holds the scanned bytes; Jpn likewise holds the scanned halfwords. Cn reads nothing and succeeds. |
| Message.AsciiRawSizeIsConsumed | ZAPD/ZMessage.cpp:96-106 | A byte message's raw size and its length both equal the number of bytes the scan consumed. |
| Message.JpnRawSizeIsConsumed | ZAPD/ZMessage.cpp:96-106 | A halfword message's raw size is twice its halfword count. That many bytes lie inside the buffer and end at the first end marker. Its length is 0. |
| Message.SourceTypeName | ZAPD/ZMessage.cpp:135-145 | "char*" for Ascii and "ERROR" for Cn. The halfword encoding is not handled (an error). |
| Message.MessageBody | ZAPD/ZMessage.cpp:108-133 | Non-Ascii messages have an empty body. Ascii is a quoted C string of the bytes up to the first zero byte. |
| Message.BodyKeepsEveryByte | ZAPD/ZMessage.cpp:115 | A message without zero bytes keeps every byte in its body. |
| Message.MessageOutput | ZAPD/ZMessage.cpp:121-130 | An existing declaration only has its text replaced. Otherwise an array is added whose count is the message length and whose size is the raw size. |
| Message.ExtractMessage | ZAPD/ZMessage.cpp:82-94 | Parses with the attribute's encoding. The declaration at its offset is an unaligned array under the message's name, with the raw size, the encoding's type name, the message length as count, and empty text. |
| Message.MessageName | ZAPD/ZMessage.cpp:24 | The prefix, then "Message_", then hex digits that parse back to the offset. |
| MessageHeader.HeaderEncodingAttr | ZAPD/ZMessageHeader.cpp:39-63 | "Jpn" and "Cn" select their encodings and every other value Ascii. A missing attribute keeps the default. |
| MessageHeader.ParseHeaderFields | ZAPD/ZMessageHeader.cpp:66-89 | Succeeds iff the record fits. The box type is at +0 and the y position at +1. The icon is at +2: a halfword for Jpn, a byte otherwise. Four halfwords follow it and end exactly at the header size, which is 0x0C for Jpn and 0x0B otherwise. |
| MessageHeader.ParseEncodedHeader | ZAPD/ZMessageHeader.cpp:66-89 | Parsing an encoded header gives its fields back, whatever surrounds it. |
| MessageHeader.NewHeader | ZAPD/ZMessageHeader.cpp:6-17 | The embedded message starts at the header's offset plus the header size for its encoding. It is exactly the message the prefix constructor reads there with the header's encoding and the header's name as prefix. |
| MessageHeader.HeaderFromPrefix | ZAPD/ZMessageHeader.cpp:19-32 | A header built from a prefix takes the default name, and its message is named after that. |
| MessageHeader.HeaderAndMessageApart | ZAPD/ZMessageHeader.cpp:6-17 | The message starts right after the header. The header's fields come from the bytes before the message alone: parsing the buffer cut at the message's start gives the same fields. |
| MessageHeader.DefaultName | ZAPD/ZMessageHeader.cpp:166-169 | The prefix, then "MsgHeader_", then hex digits that parse back to the offset. |
| MessageHeader.HeaderTypeName | ZAPD/ZMessageHeader.cpp:171-178 | "MessageHeaderJpn" iff the encoding is Jpn, else "MessageHeader". |
| MessageHeader.IconDigits | ZAPD/ZMessageHeader.cpp:133-140 | The icon is printed with 4 hex digits iff Jpn, else 2. |
| MessageHeader.HeaderBody | ZAPD/ZMessageHeader.cpp:128-145 | Every field appears at a fixed column, in hex that reads back to the field's value. The columns after the icon shift by two for Jpn. |
| MessageHeader.DeclareHeader | ZAPD/ZMessageHeader.cpp:117-126 | Declares the header with its encoding's size and type name, under its own name or, if that is empty, the default name. |
| MessageHeader.HeaderOutput | ZAPD/ZMessageHeader.cpp:147-164 | Outputs the message first. Then an existing declaration at the header only has its text replaced; otherwise the header is declared with its body. If the message's output left a declaration at the header's offset, that declaration keeps everything but its text, which becomes the header body. |
| MessageHeader.ExtractHeader | ZAPD/ZMessageHeader.cpp:91-101 | Parses with the attribute's encoding. It declares at its offset an unaligned scalar of the encoding's header size and type name, under its name or else the default name, with empty text. |
| Skeleton.LimbTypeAttr | ZAPD/ZSkeleton.cpp:48-68 | "LOD" and "Skin" select their types. A missing or other value gives Standard. |
| Skeleton.LimbTypeName | ZAPD/ZSkeleton.cpp:178-189 | StandardLimb, LodLimb and SkinLimb, one for each type. |
| Skeleton.ParseLimb | ZAPD/ZSkeleton.cpp:71-97 | Succeeds iff the limb's size (0x0C Standard, 0x10 LOD and Skin) fits. Signed translations are at +0/+2/+4, the child at +6 and the sibling at +7. Standard reads the display list at +8. LOD also reads the far list at +12. Skin reads a signed type at +8 and the segment at +12. |
| Skeleton.LodExtendsStandard | ZAPD/ZSkeleton.cpp:80-90 | By the switch's fall-through, a LOD limb reads everything a Standard limb reads, plus the far list. |
| Skeleton.ParseLimbExactly | ZAPD/ZSkeleton.cpp:71-97 | Any buffer laid out with a limb's fields for its type parses to exactly those fields. |
| Skeleton.ParseLimbLayout | ZAPD/ZSkeleton.cpp:71-97 | A parsed limb's fields are the values stored at their offsets. The fields its type does not read are 0. |
| Skeleton.LimbDListRef | ZAPD/ZSkeleton.cpp:196-221 | A zero pointer is NULL. An already declared target gives its name and nothing new. Otherwise a display list is named prefix+limbPrefix+"LimbDL_"+offset. |
| Skeleton.SkeletonTypeAttr | ZAPD/ZSkeleton.cpp:489-506 | "Flex" and "Skin" select their types. "Normal" keeps the current type, and a missing attribute gives Normal. |
| Skeleton.SkeletonTypeName | ZAPD/ZSkeleton.cpp:629-640 | "FlexSkeletonHeader" iff Flex, else "SkeletonHeader". |
| Skeleton.ParseSkeletonHeader | ZAPD/ZSkeleton.cpp:531-538 | The limb array pointer is a u32 at +0, the limb count a byte at +4 and the display-list count a byte at +8. |
| Skeleton.LocalPrefix | ZAPD/ZSkeleton.cpp:455-456 | The name with its first character replaced by 's'. |
| Skeleton.LimbEntry | ZAPD/ZSkeleton.cpp:458-470 | Limb i's pointer is read at array + 4i. The limb is parsed at that pointer's file offset and named after it. |
| Skeleton.WalkLimbs | ZAPD/ZSkeleton.cpp:458-470 | Succeeds iff every one of the limbCount entries parses, and yields exactly those limbs in order. A failure is the error of one failing entry. |
| Skeleton.NewSkeleton | ZAPD/ZSkeleton.cpp:446-471 | Succeeds iff the header reads and every one of its limbCount entries does. The skeleton holds the parsed header, the attribute-selected types and exactly limbCount limbs from its array. Each limb is named localPrefix+"Limb_"+its file offset. |
| Skeleton.LimbTableText | ZAPD/ZSkeleton.cpp:587-607 | One "    &name," line per limb, joined by line breaks. |
| Skeleton.SkeletonHeaderText | ZAPD/ZSkeleton.cpp:609-621 | Normal prints the table and the limb count; Flex adds the display-list count; Skin prints nothing. |
| Skeleton.SkeletonOutput | ZAPD/ZSkeleton.cpp:572-627 | First the limbs' outputs run (LimbOutputs). Then the limb table is declared only if its offset is still free: byte size 4*limbCount, count limbCount, named localPrefix+"Limbs". Its text names, for each limb, the declaration at the limb's address after those outputs. The header is declared with its type's size and name. Every other entry left by the limbs' outputs is unchanged. |
| Skeleton.TableAndHeader | ZAPD/ZSkeleton.cpp:585-626 | Over any table: the limb table only if its offset is free, with the names declared at the limbs' addresses, then the header. Only those two offsets change. |
| Skeleton.LimbOutputs | ZAPD/ZSkeleton.cpp:124-160 | Each limb in order patches the text at its file address or declares itself there. Afterwards the keys are the old ones plus the limbs' addresses, and other entries are unchanged. A previously declared address keeps everything but its text. A free address is declared by the first limb there, with its type's size and name and the limb's name. The text is the last limb's there. |
| Skeleton.TableNamesAfterOutputs | ZAPD/ZSkeleton.cpp:581-600 | After the limbs' outputs, the table names a limb whose address was declared before by that declaration's name. It names any other limb by the name of the first limb at its address. |
| Skeleton.TableNamesAreLimbNames | ZAPD/ZSkeleton.cpp:581-600 | For limbs named after their file address and no address declared before, the table names every limb by its own name, never "ERROR". |
| Mtx.ParseMtx | ZAPD/ZMtx.cpp:21-42 | Succeeds iff 64 bytes fit. intPart[i][j] is the halfword at +2(4i+j), and fracPart[i][j] is the one at +32+2(4i+j). |
| Mtx.ParseEncodedMtx | ZAPD/ZMtx.cpp:21-42 | Parsing an encoded matrix gives it back, so the 64 bytes are exactly what parsing consumes. |
| Mtx.RowsFlatten | ZAPD/ZMtx.cpp:25-41 | Splitting 16 values into rows inverts flattening them. |
| Mtx.AllRows | ZAPD/ZMtx.cpp:69-90 | Eight rows: the four intPart rows, then the four fracPart rows. |
| Mtx.RowTextLayout | ZAPD/ZMtx.cpp:69-90 | Each row line has its four values right-aligned in six-column cells at fixed positions. |
| Mtx.MtxBodyLines | ZAPD/ZMtx.cpp:67-91 | The body is a line break and then eight fixed-width lines, one per row, in order. |
| Mtx.MtxDecl | ZAPD/ZMtx.cpp:56-65 | 8-byte alignment, size 64, type "MatrixInternal", under the name or the default prefix+"Mtx_"+offset. |
| Mtx.MtxOutput | ZAPD/ZMtx.cpp:93-105 | An existing declaration only has its text replaced; otherwise the matrix is declared with its body. |
| Mtx.ExtractMtx | ZAPD/ZMtx.cpp:44-49 | Parses the matrix and declares it with empty text at its offset. |
| Mtx.NewMtx | ZAPD/ZMtx.cpp:12-19 | The name is prefix+"Mtx_" and the index field's value from before the call, not the offset read. Succeeds iff 64 bytes fit at the offset. The matrix read there is declared at that offset with empty text under that name. |
| Mtx.NewMtxNameIgnoresOffset | ZAPD/ZMtx.cpp:16 | Two matrices made at different offsets from the same prior field value are declared under the same name. |
| Background.EoiWord | ZAPD/ZBackground.cpp:47-51 | The halfword at a position is 0xFFD9 iff the bytes there are FF D9. |
| Background.ScanEoi | ZAPD/ZBackground.cpp:40-56 | Succeeds iff an FF D9 pair follows the start. The data runs from the start through the first pair, ends in FF D9 and has no earlier pair. Otherwise the read runs off the buffer. |
| Background.PadJpeg | ZAPD/ZBackground.cpp:58-75 | Appends only zero bytes, keeps the data as a prefix and reaches max(length, 0x25800) unless the file is compact. |
| Background.WordIsRead | ZAPD/ZBackground.cpp:139-147 | Word i is the big-endian u64 at byte 8i. |
| Background.WordCount | ZAPD/ZBackground.cpp:139-147 | The number of whole words: floor(length / 8). |
| Background.BodyDropsTail | ZAPD/ZBackground.cpp:139-147 | The trailing length mod 8 bytes do not affect the body. |
| Background.BackgroundBody | ZAPD/ZBackground.cpp:135-152 | The loop prints every whole word in order as 0x%016X, with a line break after every eighth. |
| Background.BackgroundDecl | ZAPD/ZBackground.cpp:107-116 | A u64 array with 8-byte alignment, size 0x25800 and count 0. |
| Background.BackgroundOutput | ZAPD/ZBackground.cpp:154-169 | An existing declaration only has its text replaced; otherwise the background is declared with its body. |
| Background.NewBackground | ZAPD/ZBackground.cpp:27-38 | Named prefix+"Background_"+offset, holding exactly the scanned data. |
| Background.ExtractBackground | ZAPD/ZBackground.cpp:77-86 | Scans the data and declares the background with empty text at its offset. |
| SetMesh.ParsePolygonDlist | ZAPD/ZRoom/Commands/SetMesh.cpp:191-211 | Succeeds iff 8 bytes fit. opa is the u32 at +0 and xlu the one at +4. |
| SetMesh.ParsePolygonDlistExactly | ZAPD/ZRoom/Commands/SetMesh.cpp:207-211 | Any buffer laid out with given opa and xlu parses to exactly them. |
| SetMesh.DlistPtrText | ZAPD/ZRoom/Commands/SetMesh.cpp:261-284 | 0 is "NULL", a declared target is its name, and anything else is the raw pointer as 0x%08X. |
| SetMesh.PolygonDlistElementIsIndented | ZAPD/ZRoom/Commands/SetMesh.cpp:247-300 | The array-element form is the standalone form indented one level and braced. |
| SetMesh.PolygonDlistOutput | ZAPD/ZRoom/Commands/SetMesh.cpp:302-315 | An existing declaration only has its text replaced. Otherwise an 8-byte "PolygonDlist" is declared under its name or the default one. |
| SetMesh.ParseBgImage | ZAPD/ZRoom/Commands/SetMesh.cpp:346-365 | Succeeds iff the fields fit. The standalone form reads unk_00 at +0 and id at +2 and shifts every shared field by 4. The sub-struct form starts at +0. |
| SetMesh.ParseBgImageLayout | ZAPD/ZRoom/Commands/SetMesh.cpp:356-364 | The parsed fields are exactly the values stored at their offsets. |
| SetMesh.ParseBgImageExactly | ZAPD/ZRoom/Commands/SetMesh.cpp:346-365 | Any buffer laid out with a background's fields parses to exactly that background. |
| SetMesh.MakeBackground | ZAPD/ZRoom/Commands/SetMesh.cpp:367-381 | A zero source adds nothing. Otherwise the JPEG at the source's offset is scanned and declared there. |
| SetMesh.NewBgImage | ZAPD/ZRoom/Commands/SetMesh.cpp:332-344 | Succeeds iff the record reads and, for a non-zero source, the JPEG at the source's offset scans; the table does not matter. The record is the one parsed. A zero source leaves the table unchanged. Otherwise only the source's offset changes, where the background the background constructor makes is declared with empty text. |
| SetMesh.BgSourceText | ZAPD/ZRoom/Commands/SetMesh.cpp:407-421 | A zero source is "NULL" and a declared source its name. An undeclared one prints "NULL" followed by the raw pointer, as the `+=` there does. |
| SetMesh.BgSourceResolved | ZAPD/ZRoom/Commands/SetMesh.cpp:407-421 | Once a background image has been built, its source is declared, so the body names it and the "NULL"+hex branch cannot show. |
| SetMesh.BgImageElementIsIndented | ZAPD/ZRoom/Commands/SetMesh.cpp:388-461 | The array-element form is the standalone lines indented one level and braced. |
| SetMesh.PolygonType1Formats | ZAPD/ZRoom/Commands/SetMesh.cpp:550-561 | Format 1 is size 0x20 "MeshHeader1Single" and format 2 size 0x10 "MeshHeader1Multi". Any other format is size 0x20 "ERROR". |
| SetMesh.ParsePolygonType1Header | ZAPD/ZRoom/Commands/SetMesh.cpp:537-548 | The type is at +0, the format at +1 and the display list at +4. Only format 2 reads the count at +8 and the list at +0x0C. |
| SetMesh.ParsePolygonType1HeaderExactly | ZAPD/ZRoom/Commands/SetMesh.cpp:537-548 | Any buffer laid out with a header's fields parses to exactly that header. |
| SetMesh.NewBgImageList | ZAPD/ZRoom/Commands/SetMesh.cpp:507-517 | Succeeds iff every element from k to count can be made. Element j is exactly the standalone record parsed at list + 0x1C*(k+j), named after that offset, with its source declared in the final table. Declarations are only added. |
| SetMesh.DeclareBgImageList | ZAPD/ZRoom/Commands/SetMesh.cpp:519-526 | Declares the image array only if absent: size 0x1C*count, count elements, named after the first image. It fails exactly when nothing is declared there and the list is empty. |
| SetMesh.BgImageListAt | ZAPD/ZRoom/Commands/SetMesh.cpp:507-526 | Succeeds iff every element can be made and an empty list is already declared. It holds exactly count elements, each the record parsed at its slot. The list offset is declared afterwards. |
| SetMesh.NewPolygonType1 | ZAPD/ZRoom/Commands/SetMesh.cpp:478-535 | Succeeds iff the header reads with format 1 or 2, the display-list record fits when its pointer is non-zero, and the format's backgrounds can be made; an empty format 2 list must already be declared. Any other format is the UnknownFormat error. Format 1 holds the sub-struct record parsed at +8. Format 2 with a list holds exactly count elements, each the record parsed at its slot, and the list is declared. |
| SetMesh.PolygonType1DlistRef | ZAPD/ZRoom/Commands/SetMesh.cpp:581-596 | A zero pointer is "NULL". Otherwise the record is declared first if absent and referred to as "&"+its name. |
| SetMesh.PolygonType1Decl | ZAPD/ZRoom/Commands/SetMesh.cpp:563-572 | Size and type name are those of the format. |
| SetMesh.PolygonType1Output | ZAPD/ZRoom/Commands/SetMesh.cpp:632-645 | After the body's display-list declaration, an existing declaration only has its text replaced; otherwise the record is declared. Only the record and its display list change. |
| SetMesh.PolygonType1DlistResolved | ZAPD/ZRoom/Commands/SetMesh.cpp:581-596 | A non-zero display list always ends up declared, and the body names that declaration. |
| SetMesh.PolygonType1ListResolved | ZAPD/ZRoom/Commands/SetMesh.cpp:607-620 | After construction, a multi record's list is declared, so the body prints its name, never raw hex. |
| SetMesh.ParsePolygonDlist2Layout | ZAPD/ZRoom/Commands/SetMesh.cpp:671-680 | Signed x, y, z, unk_06 at +0/+2/+4/+6, then opa at +8 and xlu at +12. |
| SetMesh.ParsePolygonDlist2Exactly | ZAPD/ZRoom/Commands/SetMesh.cpp:671-680 | Any buffer laid out with an entry's fields parses to exactly that entry. |
| SetMesh.OpaName | ZAPD/ZRoom/Commands/SetMesh.cpp:701-714 | "NULL", the declaration's name at the offset, or the whole pointer. |
| SetMesh.XluName | ZAPD/ZRoom/Commands/SetMesh.cpp:716-729 | "NULL", the declaration's name at the offset, or only the 24-bit offset. |
| SetMesh.UnresolvedDlist2Names | ZAPD/ZRoom/Commands/SetMesh.cpp:712-727 | For the same unresolved pointer, opa's text reads back as the pointer and xlu's as its offset. They differ whenever the segment is non-zero. |
| SetMesh.ParsePolygonDlist2s | ZAPD/ZRoom/Commands/SetMesh.cpp:753-759 | Reads the remaining entries at 0x10 stride, succeeding iff the last one fits. |
| SetMesh.NewPolygonType2 | ZAPD/ZRoom/Commands/SetMesh.cpp:744-760 | Type and num are at +0/+1, start and end at +4/+8. Exactly num entries are read from start's offset at 0x10 stride. It fails iff the record or the last entry is out of range. |
| SetMesh.PolygonDlist2Entries | ZAPD/ZRoom/Commands/SetMesh.cpp:768-773 | One "    { ... }," line per entry, in order. |
| SetMesh.DeclarePolygonDlist2Array | ZAPD/ZRoom/Commands/SetMesh.cpp:764-784 | No entries means nothing is declared. Otherwise an array of 16*num bytes and num elements is declared at start's offset. |
| SetMesh.PolygonType2References | ZAPD/ZRoom/Commands/SetMesh.cpp:762-787 | After the array, the 4-byte "terminatorMaybe" is declared at end's offset, and nothing else changes. |
| SetMesh.PolygonType2ListName | ZAPD/ZRoom/Commands/SetMesh.cpp:789-805 | "NULL", "&" + the declared name at start's offset, or that offset in hex. |
| SetMesh.MeshType2Output | ZAPD/ZRoom/Commands/SetMesh.cpp:98-106 | After the references, the 0x0C-byte "PolygonType2" record is declared at the command's offset, named room+"PolygonType2_"+offset. |
| SetMesh.MeshType2NamesItsArray | ZAPD/ZRoom/Commands/SetMesh.cpp:762-808 | The record's body names the array it declared, unless end's offset coincides with start's. Then the terminator overwrites the array and is named instead. |
| SetMesh.ParseMeshHeader0 | ZAPD/ZRoom/Commands/SetMesh.cpp:23-30 | The count is the signed byte at +1. Start and end are the converted pointers at +4 and +8. |
| SetMesh.MeshEntries | ZAPD/ZRoom/Commands/SetMesh.cpp:39-54 | Entry i is the display-list record at start + 8i, named after its offset. |
| SetMesh.ParseMeshEntries | ZAPD/ZRoom/Commands/SetMesh.cpp:39-54 | The loop succeeds iff every entry fits. Its text is the entries' element bodies, concatenated in order. |
| SetMesh.MeshHeader0EntriesName | ZAPD/ZRoom/Commands/SetMesh.cpp:67-73 | "NULL" for a zero start and the entry array's name when there are entries. Otherwise it is the name declared at start; a missing declaration is an error. |
| SetMesh.DeclareMeshEntryArray | ZAPD/ZRoom/Commands/SetMesh.cpp:39-61 | Only a positive count declares the array: 8*count bytes, count elements, at start. |
| SetMesh.MeshHeader0Output | ZAPD/ZRoom/Commands/SetMesh.cpp:63-91 | Declares the 12-byte header at the command's offset. It then declares the terminator at start + 8*count, wrapped to 32 bits. Nothing else changes. |
| SetMesh.MeshHeader0NamesItsEntries | ZAPD/ZRoom/Commands/SetMesh.cpp:39-73 | With a positive count, the header's entries name is the array declared at start. |
| SetMesh.NewMeshHeader0 | ZAPD/ZRoom/Commands/SetMesh.cpp:22-91 | Succeeds iff the header reads, its entries fit and the header output succeeds. A header or entry out of range is an OutOfRange error. Otherwise the result is the header output over the entries' text. |
| SetMesh.MeshType1 | ZAPD/ZRoom/Commands/SetMesh.cpp:92-97 | Succeeds iff the record constructs. The result is the record's output over the table its constructor left. |
| SetMesh.MeshType2 | ZAPD/ZRoom/Commands/SetMesh.cpp:98-106 | Succeeds iff the record reads, and then declares it with its body. |
| SetMesh.DeclareMesh | ZAPD/ZRoom/Commands/SetMesh.cpp:15-108 | Dispatches on the byte at the offset. Type 0 succeeds iff its constructor does, and is then the header output over the entries' text. Type 1 succeeds iff the record constructs, and is then the record's output. Type 2 declares the record with its body. All three declare the header at the offset. Any other type leaves the table unchanged. An offset past the buffer is an error. |
| SetExitList.NewSetExitList | ZAPD/ZRoom/Commands/SetExitList.cpp:9-14 | A placeholder is reserved only when the list offset is non-zero. |
| SetExitList.ExitCount | ZAPD/ZRoom/Commands/SetExitList.cpp:25 | The count is half the neighbour size, rounded down, and 0 when the size is not positive. |
| SetExitList.ExitLine | ZAPD/ZRoom/Commands/SetExitList.cpp:38-39 | Each line is 12 characters, and its four hex digits read back to the exit. |
| SetExitList.ExitListTextRoundTrip | ZAPD/ZRoom/Commands/SetExitList.cpp:36-40 | The text has exactly one fixed-width line per exit, and reading the lines back gives the exits in order. |
| SetExitList.ExitListPass1 | ZAPD/ZRoom/Commands/SetExitList.cpp:21-48 | Succeeds iff all count halfwords fit. Declares a "u16" array with 4-byte alignment, 2*count bytes and count elements at the offset. Its text reads back to the halfwords at stride 2. The command body names the array. |

## Left out

- XML and configuration input: tinyxml2, `ReadConfigFile`, `GenSymbolMap`, and the file reads in `ParseBinaryFile` and `Save`. Only the attribute-string mappings are modelled. The symbol map and the segment paths are given maps, and the descriptor loader is the `load` parameter.
- Display lists: `ZDisplayList`, `GetDListLength`, `GenDListDeclarations` and display-list output. Their code is not part of this model. A limb's new display list is only named (`Skeleton.LimbDListRef`).
- The buffer-erasing "Syotes" loop at ZAPD/ZRoom/Commands/SetMesh.cpp:33-37, which mutates the shared buffer for one room.
- The bodies of `Seg2Filespace`, `GetDeclarationSizeFromNeighbor`, `ZFile::AddDeclaration*` and `BitConverter` are not part of this model. The first two are parameters. The table and the reads are written to the behaviour the callers rely on.
- `GetMacro`, `IsLineBreak`, `GetBytesPerCode`, message padding and the Cn encoding's contents: they are declared but not implemented in the files modelled.
- The skin limb type-4 sub-structures (ZAPD/ZSkeleton.cpp:254-438): long print formatting, unrelated to decoding.
- `Skeleton.SkeletonOutput`: a limb's entry text (`ZLimb::GetSourceOutputCode`, ZAPD/ZSkeleton.cpp:126-150) is the `entryText` parameter. The display-list declarations that building it adds are not made, because the display-list code is not part of this model.
- `Skeleton.WalkLimbs`: the source steps `ptr` as a `uint32_t` (ZAPD/ZSkeleton.cpp:458-469). `LimbSlot` does not wrap it, because a limb array reaching 4 GiB cannot fit in the buffer.
- `SetExitList.ExitListPass1`: the source steps its read pointer as a `uint32_t`. The model does not wrap it, because a list reaching 4 GiB cannot fit in the buffer.
- `SetMesh.ParseMeshEntries`: the entry offsets wrap at 2^32 as in the source, but the room name and the display-list lookups are parameters. Display-list declarations for each entry are not made.
- `SetExitList.ExitListPass1`: the command's own hex words come from `GetCommandHex`, which is passed in as text.
- Destructors, `new`/`delete` ownership, stderr warnings and the `Globals::Instance` singleton: the game and the registry are passed explicitly.
- `Mtx.NewMtx`: the value `rawDataIndex` holds before the constructor reads is set by `ZResource`, which is not part of this model, so it is the `priorIndex` parameter. `ExtractFromFile` is modelled as the read at the offset.
