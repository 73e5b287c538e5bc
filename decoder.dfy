/**
 * process_modbus_value_formatted of src/main.c: reassemble the registers a
 * mapping's data type occupies, reject the SMA "NaN" sentinels, then turn the
 * raw value into an OPC UA variant according to the mapping's format.
 *
 * Floats are modelled as exact reals: the single-precision rounding of
 * (float) casts and of the 0.1f scale factors is not modelled.
 */
module Decoder {
  import opened Registers
  import opened Text
  import opened Config

  // SMA Modbus profile "NaN" values, one per register layout.
  const SMA_NAN_S16: nat := 0x8000
  const SMA_NAN_S32: nat := 0x8000_0000
  const SMA_NAN_U16: nat := 0xFFFF
  const SMA_NAN_U32: nat := 0xFFFF_FFFF
  const SMA_NAN_U64: nat := 0xFFFF_FFFF_FFFF_FFFF

  /** Seconds from 1601-01-01 (OPC UA DateTime epoch) to 1970-01-01. */
  const EPOCH_OFFSET_SECONDS: nat := 11644473600
  /** OPC UA DateTime counts 100 ns ticks. */
  const TICKS_PER_SECOND: nat := 10000000
  const INT64_LIMIT: nat := 0x8000_0000_0000_0000

  /** The OPC UA built-in type a variant carries (its UA_TYPES entry). */
  datatype UaType = UaFloat | UaInt32 | UaString | UaDateTime

  /** A decoded scalar, as UA_Variant_setScalar stores it. */
  datatype Variant =
    | FloatV(x: real)
    | Int32V(i: int)
    | StrV(s: string)
    | DateTimeV(ticks: int)
  {
    function Type(): UaType {
      match this
      case FloatV(_) => UaFloat
      case Int32V(_) => UaInt32
      case StrV(_) => UaString
      case DateTimeV(_) => UaDateTime
    }
  }

  /** Why the decoder returned false. */
  datatype Rejection = UnsupportedType | NotANumber | NoFormat

  datatype DecodeResult = Decoded(value: Variant) | Rejected(why: Rejection)

  function Sentinel(t: DataType): nat {
    match t
    case U16 => SMA_NAN_U16
    case S16 => SMA_NAN_S16
    case U32 => SMA_NAN_U32
    case S32 => SMA_NAN_S32
    case U64 => SMA_NAN_U64
  }

  /** Registers the decoder reads for a data_type text: none for an unsupported one. */
  function RegistersRead(dataType: string): nat {
    match ParseDataType(dataType)
    case Some(t) => Width(t)
    case None => 0
  }

  /** The reassembled unsigned value (uint64_t raw_value). */
  function RawValue(regs: seq<uint16>, t: DataType): (raw: nat)
    requires |regs| >= Width(t)
    ensures raw < WordSpan(Width(t))
  {
    BigEndian(regs[..Width(t)])
  }

  /** U16/S16 use regs[0]; U32/S32 are regs[0] << 16 | regs[1]; U64 is four words, high first. */
  lemma RawValueLayout(regs: seq<uint16>, t: DataType)
    requires |regs| >= Width(t)
    ensures t == U16 || t == S16 ==> RawValue(regs, t) == regs[0]
    ensures t == U32 || t == S32 ==> RawValue(regs, t) == regs[0] as int * 0x1_0000 + regs[1]
    ensures t == U64 ==>
              RawValue(regs, t) == regs[0] as int * 0x1_0000_0000_0000 + regs[1] as int * 0x1_0000_0000
                                   + regs[2] as int * 0x1_0000 + regs[3]
  {
    match t
    case U16 =>
      assert regs[..1] == [regs[0]] && [regs[0]][..0] == [];
    case S16 =>
      assert regs[..1] == [regs[0]] && [regs[0]][..0] == [];
    case U32 =>
      assert regs[..2] == [regs[0], regs[1]];
      BigEndianTwo(regs[0], regs[1]);
    case S32 =>
      assert regs[..2] == [regs[0], regs[1]];
      BigEndianTwo(regs[0], regs[1]);
    case U64 =>
      assert regs[..4] == [regs[0], regs[1], regs[2], regs[3]];
      BigEndianFour(regs[0], regs[1], regs[2], regs[3]);
  }

  /** Only the registers of the type's width matter; the rest of the buffer is never read. */
  lemma RawValueReadsPrefix(a: seq<uint16>, b: seq<uint16>, t: DataType)
    requires |a| >= Width(t) && |b| >= Width(t) && a[..Width(t)] == b[..Width(t)]
    ensures RawValue(a, t) == RawValue(b, t)
  {
  }

  // ------------------------------------------------------------ FIXn

  function Pow10(n: nat): (p: nat)
    ensures p >= 1
  {
    if n == 0 then 1 else 10 * Pow10(n - 1)
  }

  /** The loop of lines 86-88 runs decimal_places times, i.e. not at all for n <= 0. */
  function FixPlaces(decimalPlaces: int): nat {
    if decimalPlaces > 0 then decimalPlaces else 0
  }

  /**
   * The scale loop: starting from 1, multiply by 0.1 decimal_places times.
   */
  method FixScale(decimalPlaces: int) returns (scale: real)
    ensures scale * Pow10(FixPlaces(decimalPlaces)) as real == 1.0
    ensures decimalPlaces <= 0 ==> scale == 1.0
  {
    scale := 1.0;
    var i := 0;
    while i < decimalPlaces
      invariant 0 <= i <= FixPlaces(decimalPlaces)
      invariant scale * Pow10(i) as real == 1.0
    {
      scale := scale * 0.1;
      i := i + 1;
    }
  }

  /** The value FIX was meant to scale: two's complement for S16 and S32. */
  function SignedRaw(raw: nat, t: DataType): (v: int)
    requires raw < WordSpan(Width(t))
  {
    WordSpanValues();
    match t
    case S16 => AsInt16(raw)
    case S32 => AsInt32(raw)
    case _ => raw
  }

  /**
   * FIXn with the signed data types sign-extended (the corrected reading):
   * multiplying by 10^n gives back the register value, two's complement for
   * S16 and S32 and unsigned otherwise.
   */
  function FixValue(raw: nat, t: DataType, decimalPlaces: int): (v: real)
    requires raw < WordSpan(Width(t))
    ensures v * Pow10(FixPlaces(decimalPlaces)) as real == SignedRaw(raw, t) as real
  {
    DivThenMul(SignedRaw(raw, t) as real, Pow10(FixPlaces(decimalPlaces)) as real);
    SignedRaw(raw, t) as real / Pow10(FixPlaces(decimalPlaces)) as real
  }

  /**
   * FIXn as written: (int64_t) of the zero-extended uint64_t raw value, so
   * S16 and S32 are scaled as unsigned numbers.
   */
  function FixValueAsWritten(raw: nat, decimalPlaces: int): real {
    raw as real / Pow10(FixPlaces(decimalPlaces)) as real
  }

  // ------------------------------------------------------------ FW

  function ReleaseChar(release: nat): char {
    if release == 3 then 'B' else if release == 4 then 'R' else '?'
  }

  /** The four bytes of the low 32 bits of raw, most significant first. */
  function FwMajor(raw: nat): nat { Low32(raw) / 0x100_0000 }
  function FwMinor(raw: nat): nat { Low32(raw) / 0x1_0000 % 0x100 }
  function FwBuild(raw: nat): nat { Low32(raw) / 0x100 % 0x100 }
  function FwRelease(raw: nat): nat { Low32(raw) % 0x100 }

  /** "%x.%x.%d.%c" of major, minor, build and the release letter. */
  function FirmwareString(raw: nat): string {
    Hex(FwMajor(raw)) + "." + Hex(FwMinor(raw)) + "." + Dec(FwBuild(raw)) + "." + [ReleaseChar(FwRelease(raw))]
  }

  /** The four bytes are the bytes of the 32-bit value. */
  lemma FwBytes(raw: nat)
    ensures FwMajor(raw) < 0x100 && FwMinor(raw) < 0x100 && FwBuild(raw) < 0x100
    ensures Low32(raw)
      == FwMajor(raw) * 0x100_0000 + FwMinor(raw) * 0x1_0000 + FwBuild(raw) * 0x100 + FwRelease(raw)
  {
    var v := Low32(raw);
    var v1, b0 := v / 0x100, v % 0x100;
    var v2, b1 := v1 / 0x100, v1 % 0x100;
    var v3, b2 := v2 / 0x100, v2 % 0x100;
    assert v == v1 * 0x100 + b0;
    assert v1 == v2 * 0x100 + b1;
    assert v2 == v3 * 0x100 + b2;
    assert v == v2 * 0x1_0000 + (b1 * 0x100 + b0);
    assert v / 0x1_0000 == v2;
    assert v == v3 * 0x100_0000 + (b2 * 0x1_0000 + b1 * 0x100 + b0);
    assert v / 0x100_0000 == v3;
  }

  /** The fields a reader of a "%x.%x.%d.%c" string recovers. */
  datatype FirmwareVersion = FirmwareVersion(major: nat, minor: nat, build: nat, release: char)

  /** The pieces of s between occurrences of sep. */
  function SplitOn(s: string, sep: char): (parts: seq<string>)
    ensures |parts| >= 1
  {
    if s == [] then [[]]
    else
      var rest := SplitOn(s[1..], sep);
      if s[0] == sep then [[]] + rest else [[s[0]] + rest[0]] + rest[1..]
  }

  lemma {:induction false} SplitOnNoSep(a: string, sep: char)
    requires sep !in a
    ensures SplitOn(a, sep) == [a]
  {
    if a != [] {
      SplitOnNoSep(a[1..], sep);
      assert [a[0]] + a[1..] == a;
    }
  }

  lemma {:induction false} SplitOnJoin(a: string, sep: char, b: string)
    requires sep !in a
    ensures SplitOn(a + [sep] + b, sep) == [a] + SplitOn(b, sep)
  {
    if a == [] {
      assert a + [sep] + b == [sep] + b;
      assert ([sep] + b)[1..] == b;
    } else {
      var s := a + [sep] + b;
      assert s[1..] == a[1..] + [sep] + b;
      SplitOnJoin(a[1..], sep, b);
      assert [a[0]] + a[1..] == a;
    }
  }

  lemma DigitsHaveNoDot(s: string, radix: nat)
    requires AllDigitsOf(s, radix)
    ensures '.' !in s
  {
  }

  /** Reads a firmware string back into its fields, if it has the "%x.%x.%d.%c" shape. */
  function ParseFirmware(s: string): Option<FirmwareVersion> {
    var parts := SplitOn(s, '.');
    if |parts| == 4 && AllDigitsOf(parts[0], 16) && AllDigitsOf(parts[1], 16)
       && AllDigitsOf(parts[2], 10) && |parts[3]| == 1
    then Some(FirmwareVersion(ParseDigits(parts[0], 16), ParseDigits(parts[1], 16),
                              ParseDigits(parts[2], 10), parts[3][0]))
    else None
  }

  /**
   * The firmware string loses nothing but the release byte's value beyond
   * its letter: major, minor and build read back exactly.
   */
  lemma FirmwareRoundTrip(raw: nat)
    ensures ParseFirmware(FirmwareString(raw))
         == Some(FirmwareVersion(FwMajor(raw), FwMinor(raw), FwBuild(raw), ReleaseChar(FwRelease(raw))))
  {
    var h1, h2, d := Hex(FwMajor(raw)), Hex(FwMinor(raw)), Dec(FwBuild(raw));
    var c := [ReleaseChar(FwRelease(raw))];
    DigitsHaveNoDot(h1, 16);
    DigitsHaveNoDot(h2, 16);
    DigitsHaveNoDot(d, 10);
    SplitFour(h1, h2, d, c);
    ParseRender(FwMajor(raw), 16);
    ParseRender(FwMinor(raw), 16);
    ParseRender(FwBuild(raw), 10);
  }

  /** Four dot-free pieces joined by dots split back into those pieces. */
  lemma SplitFour(h1: string, h2: string, d: string, c: string)
    requires '.' !in h1 && '.' !in h2 && '.' !in d && |c| == 1 && c[0] != '.'
    ensures SplitOn(h1 + "." + h2 + "." + d + "." + c, '.') == [h1, h2, d, c]
  {
    assert h1 + "." + h2 + "." + d + "." + c == h1 + ['.'] + (h2 + ['.'] + (d + ['.'] + c));
    SplitOnJoin(h1, '.', h2 + ['.'] + (d + ['.'] + c));
    SplitOnJoin(h2, '.', d + ['.'] + c);
    SplitOnJoin(d, '.', c);
    SplitOnNoSep(c, '.');
  }

  /** Firmware words that differ in major, minor or build render differently. */
  lemma FirmwareStringDistinguishes(a: nat, b: nat)
    requires FirmwareString(a) == FirmwareString(b)
    ensures FwMajor(a) == FwMajor(b) && FwMinor(a) == FwMinor(b) && FwBuild(a) == FwBuild(b)
    ensures ReleaseChar(FwRelease(a)) == ReleaseChar(FwRelease(b))
  {
    FirmwareRoundTrip(a);
    FirmwareRoundTrip(b);
  }

  /** 0x01020304 reads "1.2.3.R". */
  lemma FirmwareExample()
    ensures FirmwareString(0x0102_0304) == "1.2.3.R"
  {
    var raw := 0x0102_0304;
    assert FwMajor(raw) == 1 && FwMinor(raw) == 2 && FwBuild(raw) == 3 && FwRelease(raw) == 4;
    assert Hex(1) == "1" && Hex(2) == "2" && Dec(3) == "3";
  }

  /** Major and minor are printed in lowercase hexadecimal, the build in decimal. */
  lemma FirmwareExampleHex()
    ensures FirmwareString(0xFF0B_1E03) == "ff.b.30.B"
  {
    var raw := 0xFF0B_1E03;
    assert FwMajor(raw) == 255 && FwMinor(raw) == 11 && FwBuild(raw) == 30 && FwRelease(raw) == 3;
    assert Hex(15) == "f" && Hex(255) == Hex(15) + [DigitChar(15)];
    assert Hex(11) == "b";
    assert Dec(3) == "3" && Dec(30) == Dec(3) + [DigitChar(0)];
  }

  // ------------------------------------------------------------ DT / TM

  /** (unix_timestamp + 11644473600) * 10000000 with unix_timestamp = (uint32_t) raw. */
  function DateTimeTicks(raw: nat): (ticks: nat)
    ensures ticks < INT64_LIMIT
  {
    (Low32(raw) + EPOCH_OFFSET_SECONDS) * TICKS_PER_SECOND
  }

  /** The ticks denote exactly the Unix second count, shifted to 1601. */
  lemma DateTimeTicksInverse(raw: nat)
    ensures DateTimeTicks(raw) % TICKS_PER_SECOND == 0
    ensures DateTimeTicks(raw) / TICKS_PER_SECOND - EPOCH_OFFSET_SECONDS == Low32(raw)
  {
  }

  /** Later Unix times give later DateTimes. */
  lemma DateTimeTicksMonotone(a: nat, b: nat)
    requires Low32(a) < Low32(b)
    ensures DateTimeTicks(a) < DateTimeTicks(b)
  {
  }

  // ------------------------------------------------------------ decoding

  /**
   * The value of a format branch (lines 79-154). FIX follows the corrected
   * reading; TEMP sign-extends only for S32, as written.
   */
  function ApplyFormat(raw: nat, t: DataType, f: Format): Variant
    requires raw < WordSpan(Width(t))
  {
    WordSpanValues();
    match f
    case Fix(places) => FloatV(FixValue(raw, t, places))
    case Enum => Int32V(AsInt32(Low32(raw)))
    case Firmware => StrV(FirmwareString(raw))
    case DateTime => DateTimeV(DateTimeTicks(raw))
    case Duration => FloatV(raw as real * 1000.0)
    case Temp => FloatV((if t == S32 then AsInt32(raw) else raw) as real / 10.0)
    case Unrecognized(_) => FloatV(raw as real)
  }

  /** The format branches exactly as written: FIX does not sign-extend. */
  function ApplyFormatAsWritten(raw: nat, t: DataType, f: Format): Variant
    requires raw < WordSpan(Width(t))
  {
    if f.Fix? then FloatV(FixValueAsWritten(raw, f.places)) else ApplyFormat(raw, t, f)
  }

  /** What lines 41-76 leave for the format step. */
  datatype Prepared = Ready(t: DataType, raw: nat, format: string) | Stop(why: Rejection)

  /** Data type check, reassembly, sentinel check and NULL-format check, in that order. */
  function Prepare(regs: seq<uint16>, m: Mapping): (p: Prepared)
    requires |regs| >= RegistersRead(m.dataType)
    ensures p.Ready? ==> ParseDataType(m.dataType) == Some(p.t) && p.raw < WordSpan(Width(p.t))
  {
    match ParseDataType(m.dataType)
    case None => Stop(UnsupportedType)
    case Some(t) =>
      var raw := RawValue(regs, t);
      if raw == Sentinel(t) then Stop(NotANumber)
      else if m.format.None? then Stop(NoFormat)
      else Ready(t, raw, m.format.value)
  }

  /** process_modbus_value_formatted, with the corrected FIX branch. */
  function DecodeFormatted(regs: seq<uint16>, m: Mapping): DecodeResult
    requires |regs| >= RegistersRead(m.dataType)
  {
    match Prepare(regs, m)
    case Stop(why) => Rejected(why)
    case Ready(t, raw, f) => Decoded(ApplyFormat(raw, t, ParseFormat(f)))
  }

  /** process_modbus_value_formatted exactly as written. */
  function DecodeFormattedAsWritten(regs: seq<uint16>, m: Mapping): DecodeResult
    requires |regs| >= RegistersRead(m.dataType)
  {
    match Prepare(regs, m)
    case Stop(why) => Rejected(why)
    case Ready(t, raw, f) => Decoded(ApplyFormatAsWritten(raw, t, ParseFormat(f)))
  }

  /** Only the first RegistersRead words of the buffer reach the decoder. */
  lemma DecodeReadsPrefix(a: seq<uint16>, b: seq<uint16>, m: Mapping)
    requires |a| >= RegistersRead(m.dataType) && |b| >= RegistersRead(m.dataType)
    requires a[..RegistersRead(m.dataType)] == b[..RegistersRead(m.dataType)]
    ensures DecodeFormatted(a, m) == DecodeFormatted(b, m)
  {
    match ParseDataType(m.dataType)
    case None =>
    case Some(t) => RawValueReadsPrefix(a, b, t);
  }

  // ------------------------------------------------------------ properties

  /**
   * The decoder returns false exactly for an unsupported data type, a raw
   * value equal to its type's sentinel, or a NULL format, and the sentinel
   * check comes before (and regardless of) the format.
   */
  lemma DecodeRejectsIff(regs: seq<uint16>, m: Mapping)
    requires |regs| >= RegistersRead(m.dataType)
    ensures DecodeFormatted(regs, m) == Rejected(UnsupportedType) <==> ParseDataType(m.dataType).None?
    ensures DecodeFormatted(regs, m) == Rejected(NotANumber)
        <==> (ParseDataType(m.dataType).Some?
              && RawValue(regs, ParseDataType(m.dataType).value) == Sentinel(ParseDataType(m.dataType).value))
    ensures DecodeFormatted(regs, m) == Rejected(NoFormat)
        <==> (ParseDataType(m.dataType).Some?
              && RawValue(regs, ParseDataType(m.dataType).value) != Sentinel(ParseDataType(m.dataType).value)
              && m.format.None?)
    ensures DecodeFormatted(regs, m).Decoded?
        <==> (ParseDataType(m.dataType).Some?
              && RawValue(regs, ParseDataType(m.dataType).value) != Sentinel(ParseDataType(m.dataType).value)
              && m.format.Some?)
  {
  }

  /** Each sentinel, and only it, is rejected: the word patterns of the SMA profile. */
  lemma SentinelWords(regs: seq<uint16>, t: DataType)
    requires |regs| >= Width(t)
    ensures t == U16 ==> (RawValue(regs, t) == Sentinel(t) <==> regs[0] == 0xFFFF)
    ensures t == S16 ==> (RawValue(regs, t) == Sentinel(t) <==> regs[0] == 0x8000)
    ensures t == U32 ==> (RawValue(regs, t) == Sentinel(t) <==> regs[..2] == [0xFFFF, 0xFFFF])
    ensures t == S32 ==> (RawValue(regs, t) == Sentinel(t) <==> regs[..2] == [0x8000, 0x0000])
    ensures t == U64 ==> (RawValue(regs, t) == Sentinel(t) <==> regs[..4] == [0xFFFF, 0xFFFF, 0xFFFF, 0xFFFF])
  {
    RawValueLayout(regs, t);
    if t == U32 || t == S32 {
      assert regs[..2] == [regs[0], regs[1]];
    } else if t == U64 {
      assert regs[..4] == [regs[0], regs[1], regs[2], regs[3]];
    }
  }

  /** A FIX mapping decodes to the FIX value of its raw register content, either way it is read. */
  lemma DecodeFix(regs: seq<uint16>, m: Mapping)
    requires |regs| >= RegistersRead(m.dataType)
    requires Prepare(regs, m).Ready? && ParseFormat(Prepare(regs, m).format).Fix?
    ensures var p := Prepare(regs, m);
            && DecodeFormatted(regs, m) == Decoded(FloatV(FixValue(p.raw, p.t, ParseFormat(p.format).places)))
            && DecodeFormattedAsWritten(regs, m) == Decoded(FloatV(FixValueAsWritten(p.raw, ParseFormat(p.format).places)))
  {
  }

  lemma DivThenMul(a: real, d: real)
    requires d != 0.0
    ensures (a / d) * d == a
  {
  }

  /** Signedness of the corrected FIX value follows the register's sign bit. */
  lemma FixSign(raw: nat, t: DataType, places: int)
    requires raw < WordSpan(Width(t))
    ensures FixValue(raw, t, places) < 0.0
        <==> (t == S16 && raw >= 0x8000) || (t == S32 && raw >= 0x8000_0000)
  {
    WordSpanValues();
  }

  /** As written, FIX on S16/S32 can never produce a negative value. */
  lemma FixAsWrittenNeverNegative(raw: nat, places: int)
    ensures FixValueAsWritten(raw, places) >= 0.0
  {
  }

  /**
   * The discrepancy on a concrete input: S32 registers 0xFFFF 0xCFC7 hold
   * -12345; FIX2 should give -123.45, the code gives 42949549.51.
   */
  lemma FixSignExtensionFinding()
    ensures var m := Mapping("P", 30775, "ns=1;s=P", "S32", Some("FIX2"), 1.0, 1000, []);
            && DecodeFormattedAsWritten([0xFFFF, 0xCFC7, 0, 0], m) == Decoded(FloatV(4294954951.0 / 100.0))
            && DecodeFormatted([0xFFFF, 0xCFC7, 0, 0], m) == Decoded(FloatV(-12345.0 / 100.0))
  {
    var m := Mapping("P", 30775, "ns=1;s=P", "S32", Some("FIX2"), 1.0, 1000, []);
    var regs: seq<uint16> := [0xFFFF, 0xCFC7, 0, 0];
    FindingPrepared(regs, m);
    DecodeFix(regs, m);
    FindingValues();
  }

  /** The registers of the finding pass every check before the format step. */
  lemma FindingPrepared(regs: seq<uint16>, m: Mapping)
    requires regs == [0xFFFF, 0xCFC7, 0, 0] && m.dataType == "S32" && m.format == Some("FIX2")
    ensures Prepare(regs, m) == Ready(S32, 4294954951, "FIX2")
    ensures ParseFormat("FIX2") == Fix(2)
  {
    RawValueLayout(regs, S32);
    ParseFormatFix(2);
    assert "FIX" + Dec(2) == "FIX2";
  }

  lemma FindingValues()
    ensures FixValue(4294954951, S32, 2) == -12345.0 / 100.0
    ensures FixValueAsWritten(4294954951, 2) == 4294954951.0 / 100.0
  {
    assert Pow10(2) == 100;
    assert SignedRaw(4294954951, S32) == -12345;
  }

  /** The two readings differ only for FIX on a negative S16/S32 value. */
  lemma AsWrittenDiffersOnlyOnSignedFix(regs: seq<uint16>, m: Mapping)
    requires |regs| >= RegistersRead(m.dataType)
    ensures DecodeFormattedAsWritten(regs, m) != DecodeFormatted(regs, m)
        <==> (Prepare(regs, m).Ready? && ParseFormat(Prepare(regs, m).format).Fix?
              && SignedRaw(Prepare(regs, m).raw, Prepare(regs, m).t) < 0)
  {
    var p := Prepare(regs, m);
    if p.Ready? && ParseFormat(p.format).Fix? {
      var n := FixPlaces(ParseFormat(p.format).places);
      WordSpanValues();
      if SignedRaw(p.raw, p.t) < 0 {
        assert FixValue(p.raw, p.t, ParseFormat(p.format).places) < 0.0;
      } else {
        assert SignedRaw(p.raw, p.t) == p.raw;
      }
    }
  }

  /** ENUM: the low 32 bits as an Int32, which maps back to those bits. */
  lemma EnumInverse(raw: nat, t: DataType)
    requires raw < WordSpan(Width(t))
    ensures ApplyFormat(raw, t, Enum).Int32V?
    ensures -0x8000_0000 <= ApplyFormat(raw, t, Enum).i < 0x8000_0000
    ensures (ApplyFormat(raw, t, Enum).i + TWO32) % TWO32 == raw % TWO32
  {
  }

  /** DT/TM: a DateTime whose whole-second count is the Unix time plus the 1601 offset. */
  lemma DateTimeInverse(raw: nat, t: DataType, f: string)
    requires raw < WordSpan(Width(t))
    requires f == "DT" || f == "TM"
    ensures ApplyFormat(raw, t, ParseFormat(f)).DateTimeV?
    ensures 0 <= ApplyFormat(raw, t, ParseFormat(f)).ticks < INT64_LIMIT
    ensures ApplyFormat(raw, t, ParseFormat(f)).ticks / TICKS_PER_SECOND - EPOCH_OFFSET_SECONDS == raw % TWO32
  {
    DateTimeTicksInverse(raw);
  }

  /** Duration: seconds to milliseconds. TEMP: tenths, signed only for S32. Anything else: raw. */
  lemma ScaledFormatsInverse(raw: nat, t: DataType, text: string)
    requires raw < WordSpan(Width(t))
    ensures ApplyFormat(raw, t, Duration).x / 1000.0 == raw as real
    ensures ApplyFormat(raw, t, Temp).x * 10.0 == (if t == S32 then AsInt32(raw) else raw) as real
    ensures ApplyFormat(raw, t, Unrecognized(text)).x == raw as real
  {
    WordSpanValues();
  }

  /** Duration 5 s is 5000 ms; TEMP on S16 is not sign-extended: -15.0 degrees arrives as 6538.6. */
  lemma FormatExamples()
    ensures ApplyFormat(5, U32, Duration) == FloatV(5000.0)
    ensures ApplyFormat(0xFFFF_FF6A, S32, Temp) == FloatV(-15.0)
    ensures ApplyFormat(0xFF6A, S16, Temp) == FloatV(6538.6)
  {
    WordSpanValues();
  }

  /** The variant type is a function of the format alone. */
  lemma VariantTypeByFormat(raw: nat, t: DataType, f: Format)
    requires raw < WordSpan(Width(t))
    ensures ApplyFormat(raw, t, f).Type()
         == match f
            case Enum => UaInt32
            case Firmware => UaString
            case DateTime => UaDateTime
            case _ => UaFloat
  {
  }
}
