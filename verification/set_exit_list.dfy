/** The room command that lists a room's exits: an array of 16-bit exit
    values whose length comes from the gap to the next declaration. */
module SetExitList {
  import opened Wrappers
  import opened Bytes
  import opened Text
  import opened Declarations

  /** `ZRoom::GetDeclarationSizeFromNeighbor`: the byte size the room
      infers for the declaration at an offset from the table around it.
      Its body is not part of this model. */
  type NeighbourSizeFn = (DeclTable, nat) -> int

  /** The constructor reserves the list's offset, unless the command
      carries a null list. */
  function NewSetExitList(t: DeclTable, off: nat): (r: DeclTable)
    ensures off == 0 ==> r == t
    ensures off != 0 ==> OnlyChangedAt(t, r, off) && (off in t ==> r == t) && (off !in t ==> r[off] == PLACEHOLDER)
  {
    if off != 0 then AddDeclarationPlaceholder(t, off) else t
  }

  /** The number of exits: the neighbour-derived byte size halved with C's
      truncating division; a negative size makes the read loop run zero
      times. */
  function ExitCount(neighbourSize: int): (n: nat)
    ensures neighbourSize <= 0 ==> n == 0
    ensures neighbourSize > 0 ==> 2 * n <= neighbourSize < 2 * n + 2
  {
    if neighbourSize > 0 then neighbourSize / 2 else 0
  }

  function ExitListName(room: string, off: nat): string {
    room + "ExitList0x" + HexPad(off, 6)
  }

  /** One exit's line: `    0x%04X,` and a line break. */
  function ExitLine(exit: nat): (line: string)
    requires exit < 0x1_0000
    ensures |line| == EXIT_LINE_LEN
    ensures line[6..10] == HexPad(exit, 4) && ParseHex(line[6..10]) == exit
  {
    var digits := HexPad(exit, 4);
    assert exit < Pow16(4) by { assert Pow16(4) == 0x1_0000; }
    var line := "    0x" + digits + ",\n";
    assert line[6..10] == digits;
    line
  }

  const EXIT_LINE_LEN: nat := 12

  predicate AllExits(exits: seq<nat>) {
    forall i :: 0 <= i < |exits| ==> exits[i] < 0x1_0000
  }

  /** The lines of the array's text, one per exit in read order. */
  function ExitLines(exits: seq<nat>): (lines: seq<string>)
    requires AllExits(exits)
    ensures |lines| == |exits|
    ensures forall i :: 0 <= i < |exits| ==> lines[i] == ExitLine(exits[i])
  {
    seq(|exits|, i requires 0 <= i < |exits| => ExitLine(exits[i]))
  }

  function ExitListText(exits: seq<nat>): string
    requires AllExits(exits)
  {
    Concat(ExitLines(exits))
  }

  /** Reads one value back from a line: the four digits after `    0x`. */
  function ExitLineValue(line: string): Option<nat>
    requires |line| == EXIT_LINE_LEN
  {
    if IsHex(line[6..10]) then Some(ParseHex(line[6..10])) else None
  }

  /** Reads the values back from `n` lines of the array's text; `None` when
      a line does not hold hex digits where the value goes. */
  function ParseExitListText(s: string, n: nat): (exits: Option<seq<nat>>)
    requires |s| == EXIT_LINE_LEN * n
    ensures exits.Some? ==> |exits.value| == n
  {
    var rows := Split(s, EXIT_LINE_LEN, n);
    if forall i :: 0 <= i < n ==> ExitLineValue(rows[i]).Some?
    then Some(seq(n, i requires 0 <= i < n => ExitLineValue(rows[i]).value))
    else None
  }

  /** The text holds exactly one fixed-width line per exit, and reading the
      lines back gives the exits in order. */
  lemma ExitListTextRoundTrip(exits: seq<nat>)
    requires AllExits(exits)
    ensures |ExitListText(exits)| == EXIT_LINE_LEN * |exits|
    ensures ParseExitListText(ExitListText(exits), |exits|) == Some(exits)
  {
    var lines := ExitLines(exits);
    SplitConcat(lines, EXIT_LINE_LEN);
    var rows := Split(ExitListText(exits), EXIT_LINE_LEN, |exits|);
    assert rows == lines;
    forall i | 0 <= i < |exits|
      ensures ExitLineValue(rows[i]) == Some(exits[i])
    {
      assert rows[i] == ExitLine(exits[i]);
    }
    var back := seq(|exits|, i requires 0 <= i < |exits| => ExitLineValue(rows[i]).value);
    assert back == exits;
  }

  /** `GetBodySourceCode`: the command's own words, then the list's
      address by name. */
  function ExitListCommandBody(commandHex: string, room: string, off: nat): string {
    commandHex + ", 0x00, (u32)&" + ExitListName(room, off)
  }

  /** `GenerateExterns`. */
  function ExitListExtern(room: string, off: nat): string {
    "extern u16 " + ExitListName(room, off) + "[];\n"
  }

  /** `GenerateSourceCodePass1`: reserves the offset, asks the room for
      the size up to the next declaration, reads one halfword
      per exit at stride 2 and declares them as one `u16` array; returns
      the command's body, which names that array. */
  function ExitListPass1(commandHex: string, room: string, buf: Buffer, off: nat, sizeFromNeighbour: NeighbourSizeFn,
                         t: DeclTable): (r: Result<(string, DeclTable)>)
    ensures var n := ExitCount(sizeFromNeighbour(AddDeclarationPlaceholder(t, off), off));
      r.Ok? <==> n == 0 || off + 2 * n <= |buf|
    ensures r.Err? ==> r.error.OutOfRange?
    ensures r.Ok? ==>
      var (body, t1) := r.value;
      var n := ExitCount(sizeFromNeighbour(AddDeclarationPlaceholder(t, off), off));
      && OnlyChangedAt(t, t1, off)
      && t1[off].alignment == Align4 && t1[off].size == 2 * n && t1[off].typeName == "u16"
      && t1[off].varName == ExitListName(room, off) && t1[off].kind == Array(n)
      && |t1[off].text| == EXIT_LINE_LEN * n
      && ParseExitListText(t1[off].text, n).Some?
      && (forall k :: 0 <= k < n ==> ParseExitListText(t1[off].text, n).value[k] == HalfwordAt(buf, off + 2 * k))
      && body == commandHex + ", 0x00, (u32)&" + t1[off].varName
  {
    var t0 := AddDeclarationPlaceholder(t, off);
    var n := ExitCount(sizeFromNeighbour(t0, off));
    match ReadHalfwords(buf, off, n)
    case Err(e) => Err(e)
    case Ok(exits) =>
      ExitListTextRoundTrip(exits);
      var t1 := AddDeclarationArray(t0, off, Align4, 2 * n, "u16", ExitListName(room, off), n, ExitListText(exits));
      Ok((ExitListCommandBody(commandHex, room, off), t1))
  }
}
