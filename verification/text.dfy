/** The slice of `printf` formatting the emitters use: `%X` with a minimum
    zero-padded width, `%i` with a minimum space-padded width, and string
    concatenation.  Hexadecimal output is paired with a parser so that every
    rendered number can be read back.
 */
module Text {

  /** 16^n. */
  function Pow16(n: nat): (r: nat)
    ensures r >= 1
  {
    if n == 0 then 1 else 16 * Pow16(n - 1)
  }

  /** The upper-case digit `printf("%X")` writes for `d`. */
  function HexChar(d: nat): (c: char)
    requires d < 16
    ensures IsHexChar(c)
  {
    if d < 10 then ('0' as int + d) as char else ('A' as int + d - 10) as char
  }

  predicate IsHexChar(c: char) {
    '0' <= c <= '9' || 'A' <= c <= 'F'
  }

  predicate IsHex(s: string) {
    forall i :: 0 <= i < |s| ==> IsHexChar(s[i])
  }

  function HexValue(c: char): (d: nat)
    requires IsHexChar(c)
    ensures d < 16 && HexChar(d) == c
  {
    if c <= '9' then c as int - '0' as int else c as int - 'A' as int + 10
  }

  /** The shortest upper-case hexadecimal spelling of `n` (`"0"` for zero). */
  function HexDigits(n: nat): (s: string)
    ensures |s| >= 1 && IsHex(s)
    decreases n
  {
    if n < 16 then [HexChar(n)] else HexDigits(n / 16) + [HexChar(n % 16)]
  }

  /** The value of a hexadecimal spelling, most significant digit first. */
  function ParseHex(s: string): nat
    requires IsHex(s)
  {
    if |s| == 0 then 0 else ParseHex(s[..|s| - 1]) * 16 + HexValue(s[|s| - 1])
  }

  lemma {:induction false} ParseHexDigits(n: nat)
    ensures ParseHex(HexDigits(n)) == n
    decreases n
  {
    if n >= 16 {
      var s := HexDigits(n);
      assert s[..|s| - 1] == HexDigits(n / 16);
      ParseHexDigits(n / 16);
    }
  }

  lemma {:induction false} HexDigitsFit(n: nat, k: nat)
    requires 1 <= k && n < Pow16(k)
    ensures |HexDigits(n)| <= k
    decreases n
  {
    if n >= 16 {
      assert n / 16 < Pow16(k - 1);
      HexDigitsFit(n / 16, k - 1);
    }
  }

  lemma HexDigitsFitWhen(n: nat, k: nat)
    ensures 1 <= k && n < Pow16(k) ==> |HexDigits(n)| <= k
  {
    if 1 <= k && n < Pow16(k) {
      HexDigitsFit(n, k);
    }
  }

  function Repeat(c: char, k: nat): (s: string)
    ensures |s| == k && forall i :: 0 <= i < k ==> s[i] == c
  {
    if k == 0 then "" else Repeat(c, k - 1) + [c]
  }

  lemma {:induction false} ParseHexLeadingZeros(k: nat, s: string)
    requires IsHex(s)
    ensures IsHex(Repeat('0', k) + s)
    ensures ParseHex(Repeat('0', k) + s) == ParseHex(s)
    decreases |s|
  {
    var z := Repeat('0', k);
    if |s| == 0 {
      assert z + s == z;
      ZerosParseToZero(k);
    } else {
      var init := s[..|s| - 1];
      assert (z + s)[..|z + s| - 1] == z + init;
      ParseHexLeadingZeros(k, init);
    }
  }

  lemma {:induction false} ZerosParseToZero(k: nat)
    ensures ParseHex(Repeat('0', k)) == 0
  {
    if k > 0 {
      assert Repeat('0', k)[..k - 1] == Repeat('0', k - 1);
      ZerosParseToZero(k - 1);
    }
  }

  /** `printf("%0<width>X", n)`: at least `width` digits, zero-padded on the
      left.  The text reads back as `n`, and it is exactly `width` digits long
      whenever `n` fits in that many. */
  function HexPad(n: nat, width: nat): (s: string)
    ensures IsHex(s) && ParseHex(s) == n
    ensures |s| >= width && |s| >= 1
    ensures 1 <= width && n < Pow16(width) ==> |s| == width
  {
    var d := HexDigits(n);
    ParseHexDigits(n);
    ParseHexLeadingZeros(if |d| < width then width - |d| else 0, d);
    HexDigitsFitWhen(n, width);
    Repeat('0', if |d| < width then width - |d| else 0) + d
  }

  /** The decimal digits of a natural number. */
  function DecDigits(n: nat): (s: string)
    ensures |s| >= 1
    ensures forall i :: 0 <= i < |s| ==> '0' <= s[i] <= '9'
    decreases n
  {
    if n < 10 then [('0' as int + n) as char]
    else DecDigits(n / 10) + [('0' as int + n % 10) as char]
  }

  /** 10^k. */
  function Pow10(k: nat): (r: nat)
    ensures r >= 1
  {
    if k == 0 then 1 else 10 * Pow10(k - 1)
  }

  /** A number below 10^k has at most k decimal digits. */
  lemma {:induction false} DecDigitsFit(n: nat, k: nat)
    requires 1 <= k && n < Pow10(k)
    ensures |DecDigits(n)| <= k
  {
    if n >= 10 {
      assert k >= 2;
      assert n / 10 < Pow10(k - 1);
      DecDigitsFit(n / 10, k - 1);
    }
  }

  /** `printf("%i", i)`. */
  function Dec(i: int): (s: string)
    ensures |s| >= 1
    ensures (s[0] == '-') <==> i < 0
  {
    if i < 0 then "-" + DecDigits(-i) else DecDigits(i)
  }

  /** `printf("%<width>s")`: right-aligned in at least `width` columns. */
  function PadLeft(s: string, width: nat): (r: string)
    ensures |r| == if |s| < width then width else |s|
  {
    Repeat(' ', if |s| < width then width - |s| else 0) + s
  }

  /** The padded text ends in the text, after spaces only. */
  lemma PadLeftEnds(s: string, width: nat)
    ensures var r := PadLeft(s, width);
      && r[|r| - |s|..] == s
      && forall i :: 0 <= i < |r| - |s| ==> r[i] == ' '
  {
  }

  /** The strings of `ss`, one after another. */
  function Concat(ss: seq<string>): (s: string)
  {
    if |ss| == 0 then "" else Concat(ss[..|ss| - 1]) + ss[|ss| - 1]
  }

  /** `printf("0x%0<width>X", n)`. */
  function Hex(n: nat, width: nat): (s: string)
    ensures |s| >= 2 + width && s[..2] == "0x" && IsHex(s[2..]) && ParseHex(s[2..]) == n
  {
    var digits := HexPad(n, width);
    assert ("0x" + digits)[2..] == digits;
    "0x" + digits
  }

  /** The text with four more spaces of indentation after every line break. */
  function IndentLines(s: string): (r: string)
    ensures '\n' !in s ==> r == s
  {
    if |s| == 0 then ""
    else (if s[0] == '\n' then "\n    " else [s[0]]) + IndentLines(s[1..])
  }

  /** None of the lines holds a line break. */
  predicate AllOneLine(lines: seq<string>) {
    forall i :: 0 <= i < |lines| ==> '\n' !in lines[i]
  }

  lemma AllOneLineFive(a: string, b: string, c: string, d: string, e: string)
    requires '\n' !in a && '\n' !in b && '\n' !in c && '\n' !in d && '\n' !in e
    ensures AllOneLine([a, b, c, d, e])
  {
  }

  lemma AllOneLineConcat(a: seq<string>, b: seq<string>)
    requires AllOneLine(a) && AllOneLine(b)
    ensures AllOneLine(a + b)
  {
    forall i | 0 <= i < |a + b|
      ensures '\n' !in (a + b)[i]
    {
      if i >= |a| {
        assert (a + b)[i] == b[i - |a|];
      }
    }
  }

  /** Two values of an initialiser line, each followed by a comma. */
  function TwoValues(a: string, b: string): (r: string)
    ensures '\n' !in a && '\n' !in b ==> '\n' !in r
  {
    a + ", " + b + ", "
  }

  /** Hex and decimal renderings are printed on one line. */
  lemma HexOneLine(n: nat, width: nat)
    ensures '\n' !in Hex(n, width)
  {
    var s := Hex(n, width);
    forall i | 0 <= i < |s|
      ensures s[i] != '\n'
    {
      if i >= 2 {
        assert s[i] == s[2..][i - 2];
      } else {
        assert s[i] == s[..2][i];
      }
    }
  }

  lemma DecOneLine(i: int)
    ensures '\n' !in Dec(i)
  {
    if i < 0 {
      assert Dec(i) == "-" + DecDigits(-i);
    }
  }

  lemma HexPairOneLine(a: nat, wa: nat, b: nat, wb: nat)
    ensures '\n' !in TwoValues(Hex(a, wa), Hex(b, wb))
  {
    HexOneLine(a, wa);
    HexOneLine(b, wb);
  }

  lemma DecPairOneLine(a: int, b: int)
    ensures '\n' !in TwoValues(Dec(a), Dec(b))
  {
    DecOneLine(a);
    DecOneLine(b);
  }

  /** Indenting a text indents its parts. */
  lemma {:induction false} IndentConcat(a: string, b: string)
    ensures IndentLines(a + b) == IndentLines(a) + IndentLines(b)
  {
    if |a| > 0 {
      var head := if a[0] == '\n' then "\n    " else [a[0]];
      assert (a + b)[0] == a[0];
      assert (a + b)[1..] == a[1..] + b;
      IndentConcat(a[1..], b);
      assert IndentLines(a + b) == head + IndentLines(a[1..] + b);
      assert IndentLines(a) == head + IndentLines(a[1..]);
    } else {
      assert a + b == b;
    }
  }

  /** Lines joined by an indented line break, indented: the lines joined
      by a line break indented twice as deep. */
  lemma IndentJoinedLines(lines: seq<string>)
    requires forall i :: 0 <= i < |lines| ==> '\n' !in lines[i]
    ensures IndentLines(Join(lines, "\n    ")) == Join(lines, "\n        ")
  {
    assert "\n" + "    " == "\n    ";
    assert "\n    " + "    " == "\n        ";
    IndentJoinParts(lines, "    ", "\n    ", "\n        ");
  }

  /** `IndentJoin` with the two separators named. */
  lemma IndentJoinParts(lines: seq<string>, sp: string, sep: string, deeper: string)
    requires forall i :: 0 <= i < |lines| ==> '\n' !in lines[i]
    requires '\n' !in sp && sep == "\n" + sp && deeper == "\n    " + sp
    ensures IndentLines(Join(lines, sep)) == Join(lines, deeper)
  {
    IndentJoin(lines, sp);
  }

  /** A text framed by an indented line break before it and a line break
      after it, indented: the text indented with both breaks one level
      deeper. */
  lemma IndentFramed(x: string)
    ensures IndentLines("\n    " + x + "\n") == "\n        " + IndentLines(x) + "\n    "
  {
    IndentNewline();
    assert "\n" + "    " == "\n    ";
    assert "\n    " + "    " == "\n        ";
    IndentFramedParts("\n", "    ", "\n    ", "\n        ", x);
  }

  /** `IndentFramed` over named parts: the break `nl` gains the padding
      `sp`, which itself has no break. */
  lemma IndentFramedParts(nl: string, sp: string, nl4: string, nl8: string, x: string)
    requires nl4 == nl + sp && nl8 == nl4 + sp
    requires IndentLines(nl) == nl4 && IndentLines(sp) == sp
    ensures IndentLines(nl4 + x + nl) == nl8 + IndentLines(x) + nl4
  {
    IndentConcat(nl4 + x, nl);
    IndentConcat(nl4, x);
    IndentConcat(nl, sp);
  }

  /** A line break alone gains four spaces. */
  lemma IndentNewline()
    ensures IndentLines("\n") == "\n    "
  {
    assert "\n"[1..] == "";
  }

  /** Strings joined with a separator between consecutive ones. */
  function Join(ss: seq<string>, sep: string): string {
    if |ss| == 0 then "" else if |ss| == 1 then ss[0] else Join(ss[..|ss| - 1], sep) + sep + ss[|ss| - 1]
  }

  /** Lines joined by line breaks followed by `sp`, indented, are the lines
      joined by line breaks followed by four more spaces and `sp`. */
  lemma {:induction false} IndentJoin(lines: seq<string>, sp: string)
    requires forall i :: 0 <= i < |lines| ==> '\n' !in lines[i]
    requires '\n' !in sp
    ensures IndentLines(Join(lines, "\n" + sp)) == Join(lines, "\n    " + sp)
  {
    if |lines| > 1 {
      var init := lines[..|lines| - 1];
      var last := lines[|lines| - 1];
      IndentJoin(init, sp);
      IndentConcat(Join(init, "\n" + sp) + ("\n" + sp), last);
      IndentConcat(Join(init, "\n" + sp), "\n" + sp);
      IndentConcat("\n", sp);
      assert IndentLines("\n") == "\n    ";
    }
  }

  lemma ConcatSnoc(ss: seq<string>, s: string)
    ensures Concat(ss + [s]) == Concat(ss) + s
  {
    assert (ss + [s])[..|ss|] == ss;
  }

  /** The text `s` cut into `n` rows of width `w`, the inverse of `Concat`
      for rows of one width. */
  function Split(s: string, w: nat, n: nat): (rows: seq<string>)
    requires |s| == w * n
    ensures |rows| == n && forall i :: 0 <= i < n ==> |rows[i]| == w
    decreases n
  {
    if n == 0 then []
    else
      assert w * n == w * (n - 1) + w;
      Split(s[..|s| - w], w, n - 1) + [s[|s| - w..]]
  }

  /** Cutting a text with one more row after it gives one more row. */
  lemma SplitSnoc(a: string, b: string, w: nat, n: nat)
    requires |a| == w * n && |b| == w
    ensures |a + b| == w * (n + 1)
    ensures Split(a + b, w, n + 1) == Split(a, w, n) + [b]
  {
    assert w * (n + 1) == w * n + w;
    var s := a + b;
    assert s[..|s| - w] == a;
    assert s[|s| - w..] == b;
  }

  /** Cutting rows of one width, written one after another, gives the rows
      back. */
  lemma {:induction false} SplitConcat(ss: seq<string>, w: nat)
    requires forall i :: 0 <= i < |ss| ==> |ss[i]| == w
    ensures |Concat(ss)| == w * |ss|
    ensures Split(Concat(ss), w, |ss|) == ss
  {
    if |ss| > 0 {
      var init := ss[..|ss| - 1];
      var last := ss[|ss| - 1];
      SplitConcat(init, w);
      assert Concat(ss) == Concat(init) + last;
      SplitSnoc(Concat(init), last, w, |init|);
      assert init + [last] == ss;
    }
  }
}
