/** The segment registry and the naming of segmented pointers.

    The registry records which segment numbers have files (`segments`, in
    first-registration order), the files registered for each segment, in
    registration order (`segmentRefFiles`), the configured descriptor path of
    each segment (`segmentRefs`) and the external symbol map keyed by full
    segmented pointer.  The process-wide singleton of the source is passed
    explicitly, and the XML descriptor loader is the oracle `load`.
 */
module Globals {
  import opened Wrappers
  import opened Segments
  import opened Declarations

  /** A file as the registry sees it: the segment it exports, the address its
      data is loaded at, the descriptor it came from and its declarations. */
  datatype ZFile = ZFile(segment: int, baseAddress: nat, xmlFilePath: string, decls: DeclTable)

  datatype Registry = Registry(
    segments: seq<int>,
    segmentRefs: map<int, string>,
    segmentRefFiles: map<int, seq<ZFile>>,
    symbolMap: map<nat, string>)

  ghost predicate NoDuplicates(s: seq<int>) {
    forall i, j :: 0 <= i < j < |s| ==> s[i] != s[j]
  }

  /** Every listed segment has a file list, and no segment is listed twice. */
  ghost predicate Valid(reg: Registry) {
    && NoDuplicates(reg.segments)
    && forall s :: s in reg.segments ==> s in reg.segmentRefFiles
  }

  /** `segmentRefFiles[segment]`, with the empty list for a segment that has none. */
  function FilesOf(reg: Registry, segment: int): seq<ZFile> {
    if segment in reg.segmentRefFiles then reg.segmentRefFiles[segment] else []
  }

  /** `std::find`: the index of the first `x`, or `|s|` when there is none. */
  function Find(s: seq<int>, x: int): (i: nat)
    ensures i <= |s|
    ensures i < |s| ==> s[i] == x
    ensures forall j :: 0 <= j < i ==> s[j] != x
  {
    if |s| == 0 then 0 else if s[0] == x then 0 else 1 + Find(s[1..], x)
  }

  /** `Globals::HasSegment`. */
  function HasSegment(reg: Registry, segment: int): (r: bool)
    ensures r <==> segment in reg.segments
  {
    Find(reg.segments, segment) != |reg.segments|
  }

  /** `Globals::AddSegment`: lists the segment once, appends the file to the
      end of that segment's file list and leaves every other list alone. */
  function AddSegment(reg: Registry, segment: int, file: ZFile): (r: Registry)
    ensures Valid(reg) ==> Valid(r)
    ensures segment in r.segments && |reg.segments| <= |r.segments| && r.segments[..|reg.segments|] == reg.segments
    ensures forall s :: s in r.segments <==> s in reg.segments || s == segment
    ensures segment in r.segmentRefFiles
    ensures r.segmentRefFiles[segment] == FilesOf(reg, segment) + [file]
    ensures forall s :: s != segment ==> FilesOf(r, s) == FilesOf(reg, s)
    ensures forall s :: s != segment ==> (s in r.segmentRefFiles <==> s in reg.segmentRefFiles)
    ensures r.segmentRefs == reg.segmentRefs[segment := file.xmlFilePath]
    ensures r.symbolMap == reg.symbolMap
  {
    var segments := if HasSegment(reg, segment) then reg.segments else reg.segments + [segment];
    var files := if segment in reg.segmentRefFiles then reg.segmentRefFiles else reg.segmentRefFiles[segment := []];
    Registry(
      segments,
      reg.segmentRefs[segment := file.xmlFilePath],
      files[segment := files[segment] + [file]],
      reg.symbolMap)
  }

  /** The index of the first file satisfying `hit`, in list order. */
  function FirstFile(files: seq<ZFile>, hit: ZFile -> bool): (r: Option<nat>)
    ensures r.Some? ==> r.value < |files| && hit(files[r.value])
    ensures r.Some? ==> forall j :: 0 <= j < r.value ==> !hit(files[j])
    ensures r.None? ==> forall j :: 0 <= j < |files| ==> !hit(files[j])
  {
    if |files| == 0 then None
    else if hit(files[0]) then Some(0)
    else match FirstFile(files[1..], hit)
      case None => None
      case Some(i) => Some(i + 1)
  }

  /** The file declares something at the file offset `p` converts to under
      that file's own base address. */
  predicate Declares(s2f: Seg2FilespaceFn, p: U32, f: ZFile) {
    s2f(p, f.baseAddress) in f.decls
  }

  /** `ZFile::GetDeclarationPtrName`: how the source refers to the
      declaration `p` points at in `f`. */
  function DeclarationPtrName(f: ZFile, p: U32, s2f: Seg2FilespaceFn): (name: string)
    ensures Declares(s2f, p, f) ==> name == PtrNameOf(f.decls[s2f(p, f.baseAddress)])
  {
    var off := s2f(p, f.baseAddress);
    if off in f.decls then PtrNameOf(f.decls[off]) else RawPointer(p)
  }

  /** The outcome of naming a pointer: whether it resolved, and the text. */
  datatype Named = Named(resolved: bool, name: string)

  /** Some file stage of the chain finds a declaration for `p`: the current
      file when `p` is in its segment, otherwise some file registered for
      `p`'s segment. */
  ghost predicate FileStageHits(reg: Registry, p: U32, current: ZFile, s2f: Seg2FilespaceFn) {
    if SegNum(p) == current.segment then Declares(s2f, p, current)
    else
      && SegNum(p) in reg.segments
      && exists i :: 0 <= i < |FilesOf(reg, SegNum(p))| && Declares(s2f, p, FilesOf(reg, SegNum(p))[i])
  }

  /** `Globals::GetSegmentedPtrName`: null, then the current file, then the
      files registered for the segment in registration order, then the
      symbol map, then raw hex with failure. */
  function GetSegmentedPtrName(reg: Registry, p: U32, current: ZFile, s2f: Seg2FilespaceFn): (r: Named)
    ensures p == 0 ==> r == Named(true, "NULL")
    ensures p != 0 && SegNum(p) == current.segment && Declares(s2f, p, current) ==>
              r == Named(true, DeclarationPtrName(current, p, s2f))
    ensures p != 0 && SegNum(p) != current.segment && SegNum(p) in reg.segments ==>
              forall i :: (0 <= i < |FilesOf(reg, SegNum(p))| && Declares(s2f, p, FilesOf(reg, SegNum(p))[i])
                           && forall j :: 0 <= j < i ==> !Declares(s2f, p, FilesOf(reg, SegNum(p))[j])) ==>
                r == Named(true, DeclarationPtrName(FilesOf(reg, SegNum(p))[i], p, s2f))
    ensures p != 0 && !FileStageHits(reg, p, current, s2f) && p in reg.symbolMap ==>
              r == Named(true, "&" + reg.symbolMap[p])
    ensures p != 0 && !FileStageHits(reg, p, current, s2f) && p !in reg.symbolMap ==>
              r == Named(false, RawPointer(p))
    ensures r.resolved <==> p == 0 || FileStageHits(reg, p, current, s2f) || p in reg.symbolMap
  {
    if p == 0 then Named(true, "NULL")
    else
      var segment := SegNum(p);
      var hit: Option<string> :=
        if segment == current.segment then
          if Declares(s2f, p, current) then Some(DeclarationPtrName(current, p, s2f)) else None
        else if HasSegment(reg, segment) then
          var files := FilesOf(reg, segment);
          match FirstFile(files, (f: ZFile) => Declares(s2f, p, f))
          case Some(i) => Some(DeclarationPtrName(files[i], p, s2f))
          case None => None
        else None;
      if hit.Some? then Named(true, hit.value)
      else if p in reg.symbolMap then Named(true, "&" + reg.symbolMap[p])
      else Named(false, RawPointer(p))
  }

  /** A pointer into the current file's segment that the file does not
      declare never consults the other files registered for that segment:
      the answer does not depend on the file lists at all. */
  lemma SameSegmentMissSkipsRegisteredFiles(reg1: Registry, reg2: Registry, p: U32, current: ZFile,
                                            s2f: Seg2FilespaceFn)
    requires SegNum(p) == current.segment
    requires reg1.symbolMap == reg2.symbolMap
    ensures GetSegmentedPtrName(reg1, p, current, s2f) == GetSegmentedPtrName(reg2, p, current, s2f)
  {
  }

  /** The symbol map is keyed by the full pointer: two pointers with the same
      offset in different segments that both fall through to it are named
      independently. */
  lemma SymbolMapKeyedByFullPointer(reg: Registry, p: U32, q: U32, current: ZFile, s2f: Seg2FilespaceFn)
    requires p != 0 && q != 0 && SegOffset(p) == SegOffset(q) && SegNum(p) != SegNum(q)
    requires !FileStageHits(reg, p, current, s2f) && !FileStageHits(reg, q, current, s2f)
    requires p in reg.symbolMap && q !in reg.symbolMap
    ensures GetSegmentedPtrName(reg, p, current, s2f).resolved
    ensures !GetSegmentedPtrName(reg, q, current, s2f).resolved
  {
  }

  /** What the descriptor loader makes of a segment's configured path: the
      file could not be read or had no root, it had no `File` element, or it
      produced a file (with its placeholder declarations already made). */
  datatype LoadOutcome = LoadFailed | NoFileElement | Loaded(file: ZFile)

  datatype Lookup = Lookup(name: string, registry: Registry)

  /** `segmentRefFiles[segment]` used as an lvalue: creates an empty list for
      a segment that has none. */
  function EnsureFileList(reg: Registry, segment: int): (r: Registry)
    ensures segment in r.segmentRefFiles && FilesOf(r, segment) == FilesOf(reg, segment)
    ensures forall s :: FilesOf(r, s) == FilesOf(reg, s)
    ensures Valid(reg) ==> Valid(r)
  {
    if segment in reg.segmentRefFiles then reg
    else reg.(segmentRefFiles := reg.segmentRefFiles[segment := []])
  }

  /** `files[i]` is the first of `files` with a declaration at `a`. */
  predicate FirstDeclarer(files: seq<ZFile>, i: nat, a: nat) {
    && i < |files| && a in files[i].decls
    && forall j :: 0 <= j < i ==> a !in files[j].decls
  }

  /** `Globals::FindSymbolSegRef`: names `symbolAddress` through the files of
      a configured segment, loading that segment's descriptor only when the
      segment has no file list yet. */
  function FindSymbolSegRef(reg: Registry, segNumber: int, symbolAddress: U32,
                            load: string -> LoadOutcome, s2f: Seg2FilespaceFn): (r: Lookup)
    ensures segNumber !in reg.segmentRefs ==> r == Lookup("ERROR", reg)
    ensures segNumber in reg.segmentRefFiles ==> r.registry == reg
    ensures Valid(reg) ==> Valid(r.registry)
    ensures r.registry.symbolMap == reg.symbolMap
    ensures r.name != "ERROR" ==> segNumber in r.registry.segmentRefFiles
    ensures segNumber in reg.segmentRefs && segNumber !in reg.segmentRefFiles ==>
              (load(reg.segmentRefs[segNumber]).LoadFailed? <==> r.registry == reg && segNumber !in r.registry.segmentRefFiles)
    ensures segNumber in reg.segmentRefs && segNumber !in reg.segmentRefFiles ==>
      match load(reg.segmentRefs[segNumber])
      case LoadFailed => r == Lookup("ERROR", reg)
      case NoFileElement => segNumber in r.registry.segmentRefFiles && FilesOf(r.registry, segNumber) == []
      case Loaded(f) => r.registry == AddSegment(reg, segNumber, f) && FilesOf(r.registry, segNumber) == [f]
    ensures segNumber in reg.segmentRefs && segNumber in r.registry.segmentRefFiles ==>
      r.name == FirstDeclarationName(FilesOf(r.registry, segNumber), segNumber, symbolAddress, s2f)
  {
    if segNumber !in reg.segmentRefs then Lookup("ERROR", reg)
    else
      var loaded: Option<Registry> :=
        if segNumber in reg.segmentRefFiles then Some(reg)
        else match load(reg.segmentRefs[segNumber])
          case LoadFailed => None
          case NoFileElement => Some(reg)
          case Loaded(f) => Some(AddSegment(reg, segNumber, f));
      if loaded.None? then Lookup("ERROR", reg)
      else
        var reg' := EnsureFileList(loaded.value, segNumber);
        Lookup(FirstDeclarationName(FilesOf(reg', segNumber), segNumber, symbolAddress, s2f), reg')
  }

  /** The name the lookup loop gives `symbolAddress`: the first file with a
      declaration there names the full pointer; with none, "ERROR". */
  function FirstDeclarationName(files: seq<ZFile>, segNumber: int, symbolAddress: U32, s2f: Seg2FilespaceFn): (name: string)
    ensures (forall i :: 0 <= i < |files| ==> symbolAddress !in files[i].decls) ==> name == "ERROR"
    ensures forall i: nat :: FirstDeclarer(files, i, symbolAddress) ==>
      name == DeclarationPtrName(files[i], SegPtrOf(segNumber, symbolAddress), s2f)
  {
    match FirstFile(files, (f: ZFile) => symbolAddress in f.decls)
    case Some(k) =>
      FirstDeclarerIs(files, symbolAddress, k);
      DeclarationPtrName(files[k], SegPtrOf(segNumber, symbolAddress), s2f)
    case None => "ERROR"
  }

  /** Only one file is the first with a declaration at `a`. */
  lemma FirstDeclarerIs(files: seq<ZFile>, a: nat, k: nat)
    requires FirstDeclarer(files, k, a)
    ensures forall i: nat :: FirstDeclarer(files, i, a) ==> i == k
  {
  }

  /** Once a lookup has got past loading, a repeat lookup in the same segment
      does not load again: it ignores the loader and leaves the registry as
      the first lookup left it. */
  lemma FindSymbolSegRefLoadsOnce(reg: Registry, segNumber: int, a1: U32, a2: U32,
                                  load1: string -> LoadOutcome, load2: string -> LoadOutcome,
                                  s2f: Seg2FilespaceFn)
    requires segNumber in reg.segmentRefs
    requires segNumber in reg.segmentRefFiles || !load1(reg.segmentRefs[segNumber]).LoadFailed?
    ensures var first := FindSymbolSegRef(reg, segNumber, a1, load1, s2f);
      && segNumber in first.registry.segmentRefFiles
      && FindSymbolSegRef(first.registry, segNumber, a2, load2, s2f).registry == first.registry
      && FindSymbolSegRef(first.registry, segNumber, a2, load2, s2f)
         == FindSymbolSegRef(first.registry, segNumber, a2, load1, s2f)
  {
  }
}
