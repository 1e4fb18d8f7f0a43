/** The message codec's tables: control codes with their macro names and
    argument sizes for the byte (Ascii) and halfword (Jpn) encodings of
    Ocarina of Time text, the special characters and the text colours.

    The tables are data; the lookups below state the facts about them the
    rest of the codec relies on, and the lemmas relate the tables to each
    other.
 */
module MessageTables {
  import opened Wrappers

  /** A control code's macro name and the number of argument bytes after it. */
  datatype Macro = Macro(name: string, argBytes: nat)

  const ASCII_LINEBREAK: nat := 0x01
  const ASCII_ENDMARKER: nat := 0x02
  const ASCII_TEXTCOLOR: nat := 0x05
  const JPN_LINEBREAK: nat := 0x000A
  const JPN_ENDMARKER: nat := 0x8170
  const JPN_TEXTCOLOR: nat := 0x000B

  /** `SHORT_UPPERHALF`: bits 8..15. */
  function UpperHalf(x: nat): (h: nat)
    ensures h < 0x100
    ensures x < 0x1_0000 ==> h == x / 0x100
  {
    (x / 0x100) % 0x100
  }

  /** `SHORT_LOWERHALF`: bits 0..7. */
  function LowerHalf(x: nat): (l: nat)
    ensures l < 0x100
  {
    x % 0x100
  }

  /** The two halves of a 16-bit code put back together give the code. */
  lemma HalvesRecombine(x: nat)
    requires x < 0x1_0000
    ensures UpperHalf(x) * 0x100 + LowerHalf(x) == x
  {
  }

  /** `formatCodeMacrosAsciiOoT`: the Ascii table lookup.  Every control
      code is below 0x20, takes at most three argument bytes, and only
      BACKGROUND takes three; the line break and the end marker take none and
      the colour code takes one. */
  function AsciiMacro(code: nat): (r: Option<Macro>)
    ensures r.Some? ==> code < 0x20 && r.value.argBytes <= 3
    ensures r.Some? ==> (r.value.argBytes == 3 <==> r.value.name == "MSGCODE_BACKGROUND")
    ensures r.Some? ==> (r.value.argBytes == 3 <==> code == 0x15)
    ensures code == ASCII_LINEBREAK ==> r == Some(Macro("MSGCODE_LINEBREAK", 0))
    ensures code == ASCII_ENDMARKER ==> r == Some(Macro("MSGCODE_ENDMARKER", 0))
    ensures code == ASCII_TEXTCOLOR ==> r == Some(Macro("MSGCODE_TEXTCOLOR", 1))
    ensures code < 0x20 && code != 0x00 && code != 0x03 ==> r.Some?
  {
    match code
    case 0x01 => Some(Macro("MSGCODE_LINEBREAK", 0))
    case 0x02 => Some(Macro("MSGCODE_ENDMARKER", 0))
    case 0x04 => Some(Macro("MSGCODE_BOXBREAK", 0))
    case 0x05 => Some(Macro("MSGCODE_TEXTCOLOR", 1))
    case 0x06 => Some(Macro("MSGCODE_INDENT", 1))
    case 0x07 => Some(Macro("MSGCODE_NEXTMSGID", 2))
    case 0x08 => Some(Macro("MSGCODE_INSTANT_ON", 0))
    case 0x09 => Some(Macro("MSGCODE_INSTANT_OFF", 0))
    case 0x0A => Some(Macro("MSGCODE_KEEPOPEN", 0))
    case 0x0B => Some(Macro("MSGCODE_UNKEVENT", 0))
    case 0x0C => Some(Macro("MSGCODE_DELAY_BOXBREAK", 1))
    case 0x0D => Some(Macro("MSGCODE_UNUSED_1", 0))
    case 0x0E => Some(Macro("MSGCODE_DELAY_FADEOUT", 1))
    case 0x0F => Some(Macro("MSGCODE_PLAYERNAME", 0))
    case 0x10 => Some(Macro("MSGCODE_BEGINOCARINA", 0))
    case 0x11 => Some(Macro("MSGCODE_UNUSED_2", 0))
    case 0x12 => Some(Macro("MSGCODE_PLAYSOUND", 2))
    case 0x13 => Some(Macro("MSGCODE_ITEMICON", 1))
    case 0x14 => Some(Macro("MSGCODE_TEXTSPEED", 1))
    case 0x15 => Some(Macro("MSGCODE_BACKGROUND", 3))
    case 0x16 => Some(Macro("MSGCODE_MARATHONTIME", 0))
    case 0x17 => Some(Macro("MSGCODE_HORSERACETIME", 0))
    case 0x18 => Some(Macro("MSGCODE_HORSEBACKARCHERYSCORE", 0))
    case 0x19 => Some(Macro("MSGCODE_GOLDSKULLTULATOTAL", 0))
    case 0x1A => Some(Macro("MSGCODE_NOSKIP", 0))
    case 0x1B => Some(Macro("MSGCODE_TWOCHOICE", 0))
    case 0x1C => Some(Macro("MSGCODE_THREECHOICE", 0))
    case 0x1D => Some(Macro("MSGCODE_FISHSIZE", 0))
    case 0x1E => Some(Macro("MSGCODE_HIGHSCORE", 1))
    case 0x1F => Some(Macro("MSGCODE_TIME", 0))
    case _ => None
  }

  /** For each Jpn control code, the Ascii code of the same control
      function; checked against both tables by `JpnMacro`. */
  function JpnToAscii(code: nat): Option<nat>
  {
    match code
    case 0x000A => Some(0x01)
    case 0x8170 => Some(0x02)
    case 0x81A5 => Some(0x04)
    case 0x000B => Some(0x05)
    case 0x86C7 => Some(0x06)
    case 0x81CB => Some(0x07)
    case 0x8189 => Some(0x08)
    case 0x818A => Some(0x09)
    case 0x86C8 => Some(0x0A)
    case 0x819F => Some(0x0B)
    case 0x81A3 => Some(0x0C)
    case 0x819E => Some(0x0E)
    case 0x874F => Some(0x0F)
    case 0x81F0 => Some(0x10)
    case 0x81F3 => Some(0x12)
    case 0x819A => Some(0x13)
    case 0x86C9 => Some(0x14)
    case 0x86B3 => Some(0x15)
    case 0x8791 => Some(0x16)
    case 0x8792 => Some(0x17)
    case 0x879B => Some(0x18)
    case 0x86A3 => Some(0x19)
    case 0x8199 => Some(0x1A)
    case 0x81BC => Some(0x1B)
    case 0x81B8 => Some(0x1C)
    case 0x86A4 => Some(0x1D)
    case 0x869F => Some(0x1E)
    case 0x81A1 => Some(0x1F)
    case _ => None
  }

  /** The inverse pairing, from an Ascii code to its Jpn code. */
  function AsciiToJpn(code: nat): Option<nat>
  {
    match code
    case 0x01 => Some(0x000A)
    case 0x02 => Some(0x8170)
    case 0x04 => Some(0x81A5)
    case 0x05 => Some(0x000B)
    case 0x06 => Some(0x86C7)
    case 0x07 => Some(0x81CB)
    case 0x08 => Some(0x8189)
    case 0x09 => Some(0x818A)
    case 0x0A => Some(0x86C8)
    case 0x0B => Some(0x819F)
    case 0x0C => Some(0x81A3)
    case 0x0E => Some(0x819E)
    case 0x0F => Some(0x874F)
    case 0x10 => Some(0x81F0)
    case 0x12 => Some(0x81F3)
    case 0x13 => Some(0x819A)
    case 0x14 => Some(0x86C9)
    case 0x15 => Some(0x86B3)
    case 0x16 => Some(0x8791)
    case 0x17 => Some(0x8792)
    case 0x18 => Some(0x879B)
    case 0x19 => Some(0x86A3)
    case 0x1A => Some(0x8199)
    case 0x1B => Some(0x81BC)
    case 0x1C => Some(0x81B8)
    case 0x1D => Some(0x86A4)
    case 0x1E => Some(0x869F)
    case 0x1F => Some(0x81A1)
    case _ => None
  }

  /** `formatCodeMacrosJpnOoT`: the Jpn table lookup.  Every macro it knows
      is the Ascii macro, with the same argument count, of the paired Ascii
      code. */
  function JpnMacro(code: nat): (r: Option<Macro>)
    ensures r.Some? <==> JpnToAscii(code).Some?
    ensures r.Some? ==> code < 0x1_0000 && AsciiMacro(JpnToAscii(code).value) == r
    ensures code == JPN_LINEBREAK ==> r == Some(Macro("MSGCODE_LINEBREAK", 0))
    ensures code == JPN_ENDMARKER ==> r == Some(Macro("MSGCODE_ENDMARKER", 0))
    ensures code == JPN_TEXTCOLOR ==> r == Some(Macro("MSGCODE_TEXTCOLOR", 1))
  {
    match code
    case 0x000A => Some(Macro("MSGCODE_LINEBREAK", 0))
    case 0x8170 => Some(Macro("MSGCODE_ENDMARKER", 0))
    case 0x81A5 => Some(Macro("MSGCODE_BOXBREAK", 0))
    case 0x000B => Some(Macro("MSGCODE_TEXTCOLOR", 1))
    case 0x86C7 => Some(Macro("MSGCODE_INDENT", 1))
    case 0x81CB => Some(Macro("MSGCODE_NEXTMSGID", 2))
    case 0x8189 => Some(Macro("MSGCODE_INSTANT_ON", 0))
    case 0x818A => Some(Macro("MSGCODE_INSTANT_OFF", 0))
    case 0x86C8 => Some(Macro("MSGCODE_KEEPOPEN", 0))
    case 0x819F => Some(Macro("MSGCODE_UNKEVENT", 0))
    case 0x81A3 => Some(Macro("MSGCODE_DELAY_BOXBREAK", 1))
    case 0x819E => Some(Macro("MSGCODE_DELAY_FADEOUT", 1))
    case 0x874F => Some(Macro("MSGCODE_PLAYERNAME", 0))
    case 0x81F0 => Some(Macro("MSGCODE_BEGINOCARINA", 0))
    case 0x81F3 => Some(Macro("MSGCODE_PLAYSOUND", 2))
    case 0x819A => Some(Macro("MSGCODE_ITEMICON", 1))
    case 0x86C9 => Some(Macro("MSGCODE_TEXTSPEED", 1))
    case 0x86B3 => Some(Macro("MSGCODE_BACKGROUND", 3))
    case 0x8791 => Some(Macro("MSGCODE_MARATHONTIME", 0))
    case 0x8792 => Some(Macro("MSGCODE_HORSERACETIME", 0))
    case 0x879B => Some(Macro("MSGCODE_HORSEBACKARCHERYSCORE", 0))
    case 0x86A3 => Some(Macro("MSGCODE_GOLDSKULLTULATOTAL", 0))
    case 0x8199 => Some(Macro("MSGCODE_NOSKIP", 0))
    case 0x81BC => Some(Macro("MSGCODE_TWOCHOICE", 0))
    case 0x81B8 => Some(Macro("MSGCODE_THREECHOICE", 0))
    case 0x86A4 => Some(Macro("MSGCODE_FISHSIZE", 0))
    case 0x869F => Some(Macro("MSGCODE_HIGHSCORE", 1))
    case 0x81A1 => Some(Macro("MSGCODE_TIME", 0))
    case _ => None
  }

  /** The pairing is one-to-one and covers every Ascii control function
      except the two unused ones, so the Jpn table has exactly the Ascii
      table's macros minus `MSGCODE_UNUSED_1` and `MSGCODE_UNUSED_2`. */
  lemma JpnPairingIsBijective(a: nat, j: nat)
    ensures AsciiToJpn(a).Some? <==> AsciiMacro(a).Some? && a != 0x0D && a != 0x11
    ensures AsciiToJpn(a).Some? ==> JpnToAscii(AsciiToJpn(a).value) == Some(a)
    ensures JpnToAscii(j).Some? ==> AsciiToJpn(JpnToAscii(j).value) == Some(j)
    ensures AsciiMacro(0x0D) == Some(Macro("MSGCODE_UNUSED_1", 0))
    ensures AsciiMacro(0x11) == Some(Macro("MSGCODE_UNUSED_2", 0))
  {
    AsciiSidePairing(a);
    JpnSidePairing(j);
  }

  /** The Ascii side of `JpnPairingIsBijective`. */
  lemma AsciiSidePairing(a: nat)
    ensures AsciiToJpn(a).Some? <==> AsciiMacro(a).Some? && a != 0x0D && a != 0x11
    ensures AsciiToJpn(a).Some? ==> JpnToAscii(AsciiToJpn(a).value) == Some(a)
  {
  }

  /** The Jpn side of `JpnPairingIsBijective`. */
  lemma JpnSidePairing(j: nat)
    ensures JpnToAscii(j).Some? ==> AsciiToJpn(JpnToAscii(j).value) == Some(j)
  {
  }

  /** `colorMacrosOoT`: total on 0..7 and nothing else. */
  function ColorMacro(code: nat): (r: Option<string>)
    ensures r.Some? <==> code <= 7
    ensures code == 0 ==> r == Some("DEFAULT")
    ensures code == 3 ==> r == Some("BLUE")
    ensures code == 7 ==> r == Some("WHITE")
  {
    match code
    case 0 => Some("DEFAULT")
    case 1 => Some("RED")
    case 2 => Some("GREEN")
    case 3 => Some("BLUE")
    case 4 => Some("LIGHTBLUE")
    case 5 => Some("PINK")
    case 6 => Some("YELLOW")
    case 7 => Some("WHITE")
    case _ => None
  }

  /** `specialCharactersOoT`: 0x96 and the run 0x9F..0xAB, none of which is
      a control code. */
  function SpecialCharacter(code: nat): (r: Option<string>)
    ensures r.Some? <==> code == 0x96 || 0x9F <= code <= 0xAB
    ensures r.Some? ==> AsciiMacro(code).None?
  {
    match code
    case 0x96 => Some("MSGCODE_E_ACUTE_LOWERCASE")
    case 0x9F => Some("MSGCODE_A_BTN")
    case 0xA0 => Some("MSGCODE_B_BTN")
    case 0xA1 => Some("MSGCODE_C_BTN")
    case 0xA2 => Some("MSGCODE_L_BTN")
    case 0xA3 => Some("MSGCODE_R_BTN")
    case 0xA4 => Some("MSGCODE_Z_BTN")
    case 0xA5 => Some("MSGCODE_CUP_BTN")
    case 0xA6 => Some("MSGCODE_CDOWN_BTN")
    case 0xA7 => Some("MSGCODE_CLEFT_BTN")
    case 0xA8 => Some("MSGCODE_CRIGHT_BTN")
    case 0xA9 => Some("MSGCODE_TARGET_ICON")
    case 0xAA => Some("MSGCODE_STICK")
    case 0xAB => Some("MSGCODE_DPAD")
    case _ => None
  }
}
