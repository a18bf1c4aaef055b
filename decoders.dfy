/** What the driver makes of the registers it reads: the serial number,
    the firmware version, a group's selection flags and busy state, and
    the fault and blocked checks. */
module Decoders {
  import opened Bits
  import opened Wrappers
  import opened Registers
  import opened Decimal
  import opened Transport

  /** `reg >> 8` of a 16-bit register */
  function HighByte(w: Word): (b: Byte)
    ensures b == w / 256
  {
    Pow2Table();
    Shr(w, 8)
  }

  /** `a & 0xFF` keeps the low byte. */
  lemma AndByteMask(a: nat)
    ensures And(a, 0xFF) == a % 256
  {
    Pow2Table();
    AndLowMask(a, 8);
  }

  /** Masking a byte with `0xFF` leaves it as it is. */
  lemma AndByteIdentity(b: nat)
    requires b < 256
    ensures And(b, 0xFF) == b
  {
    AndByteMask(b);
  }

  /** `reg & 0xFF` */
  function LowByte(w: Word): (b: Byte)
    ensures b == w % 256
  {
    AndByteMask(w);
    And(w, 0xFF)
  }

  // ---------------------------------------------------------------------
  // Serial number

  const NUL: char := '\0'

  /** Each register gives two characters, the high byte first. */
  function SerialChars(regs: seq<Word>): (s: string)
    ensures |s| == 2 * |regs|
  {
    if regs == [] then []
    else [HighByte(regs[0]) as char, LowByte(regs[0]) as char] + SerialChars(regs[1..])
  }

  /** Register `i` supplies characters `2i` (its high byte) and `2i + 1`
      (its low byte). */
  lemma {:induction false} SerialCharsAt(regs: seq<Word>, i: nat)
    requires i < |regs|
    ensures SerialChars(regs)[2 * i] == HighByte(regs[i]) as char
    ensures SerialChars(regs)[2 * i + 1] == LowByte(regs[i]) as char
  {
    if i > 0 {
      SerialCharsAt(regs[1..], i - 1);
    }
  }

  /** `s.rstrip('\x00')` */
  function StripTrailingNul(s: string): (t: string)
    ensures t <= s
    ensures t == [] || t[|t| - 1] != NUL
    ensures forall i :: |t| <= i < |s| ==> s[i] == NUL
  {
    if s != [] && s[|s| - 1] == NUL then StripTrailingNul(s[..|s| - 1]) else s
  }

  /** The three properties of `StripTrailingNul` single out its result. */
  lemma StripTrailingNulUnique(s: string, t: string)
    requires t <= s
    requires t == [] || t[|t| - 1] != NUL
    requires forall i :: |t| <= i < |s| ==> s[i] == NUL
    ensures t == StripTrailingNul(s)
  {
  }

  /** `get_serial_number`'s string from the registers read. */
  function DecodeSerial(regs: seq<Word>): (serial: string)
    ensures serial <= SerialChars(regs)
    ensures serial == [] || serial[|serial| - 1] != NUL
    ensures forall i :: |serial| <= i < 2 * |regs| ==> SerialChars(regs)[i] == NUL
  {
    StripTrailingNul(SerialChars(regs))
  }

  predicate IsByteText(s: string)
  {
    forall i :: 0 <= i < |s| ==> s[i] as int < 256
  }

  /** The registers a device holding the text `s` reports, two characters
      per register, the first in the high byte. */
  function PackSerial(s: string): (regs: seq<Word>)
    requires |s| % 2 == 0 && IsByteText(s)
    ensures |regs| == |s| / 2
  {
    if s == [] then []
    else [(s[0] as int) * 256 + s[1] as int] + PackSerial(s[2..])
  }

  lemma {:induction false} SerialCharsPack(s: string)
    requires |s| % 2 == 0 && IsByteText(s)
    ensures SerialChars(PackSerial(s)) == s
  {
    if s != [] {
      var reg := (s[0] as int) * 256 + s[1] as int;
      var regs := PackSerial(s);
      assert regs == [reg] + PackSerial(s[2..]);
      assert regs[1..] == PackSerial(s[2..]);
      assert HighByte(reg) as char == s[0] && LowByte(reg) as char == s[1];
      SerialCharsPack(s[2..]);
      assert s == [s[0], s[1]] + s[2..];
    }
  }

  function NulPadding(n: nat): (p: string)
    ensures |p| == n && forall i :: 0 <= i < n ==> p[i] == NUL
  {
    seq(n, _ => NUL)
  }

  /** A serial number padded with NULs to the register width reads back as
      itself. */
  lemma SerialRoundTrip(text: string, width: nat)
    requires |text| <= width && width % 2 == 0 && IsByteText(text)
    requires text == [] || text[|text| - 1] != NUL
    ensures DecodeSerial(PackSerial(text + NulPadding(width - |text|))) == text
  {
    var padded := text + NulPadding(width - |text|);
    SerialCharsPack(padded);
    StripTrailingNulUnique(padded, text);
  }

  /** A 17-character serial in the ten serial registers, padded with
      three NULs. */
  lemma SerialExample()
    ensures DecodeSerial(PackSerial("S50-QSS-0001-XXXX" + NulPadding(3))) == "S50-QSS-0001-XXXX"
  {
    SerialRoundTrip("S50-QSS-0001-XXXX", 20);
  }

  // ---------------------------------------------------------------------
  // Firmware version

  datatype FirmwareVersion = FirmwareVersion(major: Byte, minor: Byte)

  /** `major = (reg >> 8) & 0xFF`, `minor = reg & 0xFF` */
  function DecodeFirmware(reg: Word): (v: FirmwareVersion)
    ensures v.major * 256 + v.minor == reg
  {
    var high, low := HighByte(reg), LowByte(reg);
    AndByteIdentity(high);
    FirmwareVersion(And(high, 0xFF), low)
  }

  /** `f"{major}.{minor}"` */
  function VersionString(v: FirmwareVersion): (s: string)
    ensures '.' in s
  {
    Format(v.major) + "." + Format(v.minor)
  }

  function IndexOfDot(s: string): (k: nat)
    ensures k <= |s| && (k < |s| ==> s[k] == '.')
    ensures forall i :: 0 <= i < k ==> s[i] != '.'
  {
    if s == [] || s[0] == '.' then 0 else 1 + IndexOfDot(s[1..])
  }

  /** Reads a version string back into the register it came from. */
  function ParseFirmware(s: string): (r: Option<Word>)
  {
    var k := IndexOfDot(s);
    if k < |s| && AllDigits(s[..k]) && AllDigits(s[k + 1..]) then
      var major, minor := Parse(s[..k]), Parse(s[k + 1..]);
      if major < 256 && minor < 256 then Some(major * 256 + minor) else None
    else None
  }

  lemma FirmwareStringRoundTrip(reg: Word)
    ensures ParseFirmware(VersionString(DecodeFirmware(reg))) == Some(reg)
  {
    var v := DecodeFirmware(reg);
    var a, b := Format(v.major), Format(v.minor);
    var s := VersionString(v);
    assert s == a + "." + b;
    assert forall i :: 0 <= i < |a| ==> s[i] == a[i] && IsDigit(a[i]);
    assert s[|a|] == '.';
    assert IndexOfDot(s) == |a|;
    assert s[..|a|] == a && s[|a| + 1..] == b;
    ParseFormat(v.major);
    ParseFormat(v.minor);
  }

  /** Different registers give different version strings. */
  lemma FirmwareStringInjective(r1: Word, r2: Word)
    requires VersionString(DecodeFirmware(r1)) == VersionString(DecodeFirmware(r2))
    ensures r1 == r2
  {
    FirmwareStringRoundTrip(r1);
    FirmwareStringRoundTrip(r2);
  }

  // ---------------------------------------------------------------------
  // Group selection and busy state

  datatype GroupSelection = GroupSelection(
    singleShort: bool,
    singleLong: bool,
    doubleShort: bool,
    doubleLong: bool,
    continuousFlow: bool,
    singleMedium: bool,
    doubleMedium: bool,
    purge: bool)
  {
    /** The flags in bit order, bit 0 first. */
    function Flags(): (f: seq<bool>)
      ensures |f| == 8
    {
      [singleShort, singleLong, doubleShort, doubleLong,
       continuousFlow, singleMedium, doubleMedium, purge]
    }

    predicate AnyFlag()
    {
      exists k :: 0 <= k < 8 && Flags()[k]
    }
  }

  /** `bool(status & mask)` for each of the eight masks `0x01 .. 0x80` */
  function DecodeSelection(status: Word): (sel: GroupSelection)
  {
    GroupSelection(
      And(status, 0x01) != 0,
      And(status, 0x02) != 0,
      And(status, 0x04) != 0,
      And(status, 0x08) != 0,
      And(status, 0x10) != 0,
      And(status, 0x20) != 0,
      And(status, 0x40) != 0,
      And(status, 0x80) != 0)
  }

  /** Flag `k` of the selection is bit `k` of the status register. */
  lemma SelectionBit(status: Word, k: nat)
    requires k < 8
    ensures DecodeSelection(status).Flags()[k] == TestBit(status, k)
  {
    Pow2Table();
    AndSingleBitNonZero(status, k);
  }

  /** The flags in bit order, least significant first, of the `n` low bits. */
  function LowBitList(w: nat, n: nat): (bits: seq<bool>)
    ensures |bits| == n
    ensures forall k :: 0 <= k < n ==> bits[k] == TestBit(w, k)
  {
    if n == 0 then []
    else
      var rest := LowBitList(w / 2, n - 1);
      assert forall k :: 1 <= k < n ==> TestBit(w, k) == TestBit(w / 2, k - 1);
      [w % 2 == 1] + rest
  }

  /** The number whose bits, least significant first, are `bits`. */
  function BitListValue(bits: seq<bool>): (v: nat)
    ensures v < Pow2(|bits|)
  {
    if bits == [] then 0 else (if bits[0] then 1 else 0) + 2 * BitListValue(bits[1..])
  }

  lemma {:induction false} BitListValueOfLowBits(w: nat, n: nat)
    ensures BitListValue(LowBitList(w, n)) == w % Pow2(n)
  {
    if n > 0 {
      var bits := LowBitList(w, n);
      assert bits[1..] == LowBitList(w / 2, n - 1);
      BitListValueOfLowBits(w / 2, n - 1);
      DivModHalf(w, Pow2(n - 1));
    }
  }

  lemma {:induction false} LowBitsOfBitListValue(bits: seq<bool>)
    ensures LowBitList(BitListValue(bits), |bits|) == bits
  {
    if bits != [] {
      var v := BitListValue(bits);
      var rest := BitListValue(bits[1..]);
      assert v / 2 == rest && (v % 2 == 1) == bits[0];
      LowBitsOfBitListValue(bits[1..]);
      assert LowBitList(v, |bits|) == [bits[0]] + bits[1..];
    }
  }

  /** The selection flags are exactly the low byte of the status word. */
  lemma {:induction false} SelectionIsLowByte(status: Word)
    ensures DecodeSelection(status).Flags() == LowBitList(status, 8)
    ensures BitListValue(DecodeSelection(status).Flags()) == status % 256
  {
    forall k | 0 <= k < 8
      ensures DecodeSelection(status).Flags()[k] == LowBitList(status, 8)[k]
    {
      SelectionBit(status, k);
    }
    BitListValueOfLowBits(status, 8);
    Pow2Table();
  }

  /** The register value that carries a given selection: its inverse. */
  function EncodeSelection(sel: GroupSelection): (status: Word)
    ensures status < 256
  {
    Pow2Table();
    BitListValue(sel.Flags())
  }

  lemma SelectionRoundTrip(sel: GroupSelection)
    ensures DecodeSelection(EncodeSelection(sel)) == sel
  {
    var status := EncodeSelection(sel);
    SelectionIsLowByte(status);
    LowBitsOfBitListValue(sel.Flags());
    assert DecodeSelection(status).Flags() == sel.Flags();
  }

  /** Bits 8..15 of the status register do not affect the selection. */
  lemma SelectionIgnoresHighByte(s1: Word, s2: Word)
    requires s1 % 256 == s2 % 256
    ensures DecodeSelection(s1) == DecodeSelection(s2)
  {
    SelectionIsLowByte(s1);
    SelectionIsLowByte(s2);
    var f1, f2 := DecodeSelection(s1).Flags(), DecodeSelection(s2).Flags();
    LowBitsOfBitListValue(f1);
    LowBitsOfBitListValue(f2);
    assert f1 == f2;
  }

  /** `(status & 0xFF) != 0` */
  predicate IsBusyStatus(status: Word)
  {
    And(status, 0xFF) != 0
  }

  /** A group is busy exactly when one of its selection flags is set, that
      is when the low byte of its status register is nonzero. */
  lemma BusyIffAnyFlag(status: Word)
    ensures IsBusyStatus(status) == DecodeSelection(status).AnyFlag()
    ensures IsBusyStatus(status) == (status % 256 != 0)
  {
    Pow2Table();
    AndLowMask(status, 8);
    LowBitsNonZero(status, 8);
    forall k | 0 <= k < 8
      ensures DecodeSelection(status).Flags()[k] == TestBit(status, k)
    {
      SelectionBit(status, k);
    }
  }

  // ---------------------------------------------------------------------
  // Decoding a whole reply, as each getter does

  function SerialNumberOf(reply: Reply): (r: Option<string>)
    ensures r.Some? <==> reply.Answer?
    ensures r.Some? ==> |r.value| <= 2 * |reply.registers|
  {
    match reply
    case Failed => None
    case Answer(regs) => Some(DecodeSerial(regs))
  }

  function FirmwareVersionOf(reply: Reply): (r: Option<string>)
    ensures r.Some? <==> FirstRegister(reply).Some?
    ensures r.Some? ==> ParseFirmware(r.value) == Some(FirstRegister(reply).value)
  {
    match FirstRegister(reply)
    case None => None
    case Some(reg) =>
      FirmwareStringRoundTrip(reg);
      Some(VersionString(DecodeFirmware(reg)))
  }

  function SelectionOf(reply: Reply): (r: Option<GroupSelection>)
    ensures r.Some? <==> FirstRegister(reply).Some?
    ensures r.Some? ==> EncodeSelection(r.value) == FirstRegister(reply).value % 256
  {
    match FirstRegister(reply)
    case None => None
    case Some(status) =>
      SelectionIsLowByte(status);
      Some(DecodeSelection(status))
  }

  /** `result.registers[0] == 1`, used for the sensor fault and the
      machine-blocked registers */
  function IsOneOf(reply: Reply): (r: Option<bool>)
    ensures r.Some? <==> FirstRegister(reply).Some?
    ensures r == Some(true) <==> FirstRegister(reply) == Some(1)
  {
    match FirstRegister(reply)
    case None => None
    case Some(w) => Some(w == 1)
  }

  function BusyOf(reply: Reply): (r: Option<bool>)
    ensures r.Some? <==> FirstRegister(reply).Some?
    ensures r == Some(true) <==> FirstRegister(reply).Some? && FirstRegister(reply).value % 256 != 0
  {
    match FirstRegister(reply)
    case None => None
    case Some(status) =>
      BusyIffAnyFlag(status);
      Some(IsBusyStatus(status))
  }

  /** `is_group_busy` and `get_group_selection` agree on the same reply:
      both fail together, and busy means some flag is set. */
  lemma BusyAgreesWithSelection(reply: Reply)
    ensures BusyOf(reply).Some? == SelectionOf(reply).Some?
    ensures BusyOf(reply).Some? ==> BusyOf(reply).value == SelectionOf(reply).value.AnyFlag()
  {
    if FirstRegister(reply).Some? {
      BusyIffAnyFlag(FirstRegister(reply).value);
    }
  }
}
