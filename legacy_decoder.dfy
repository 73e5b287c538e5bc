/**
 * process_modbus_value of the legacy main.c: the float-only decoder. It
 * reassembles the registers, rejects the SMA sentinels, reads S16/S32 as
 * two's complement and multiplies by the mapping's scale factor.
 */
module LegacyDecoder {
  import opened Registers
  import opened Config
  import Decoder

  /** The integer a register layout denotes: two's complement for S16/S32. */
  function Interpret(regs: seq<uint16>, t: DataType): (v: int)
    requires |regs| >= Width(t)
  {
    var raw := Decoder.RawValue(regs, t);
    WordSpanValues();
    match t
    case S16 => AsInt16(raw)
    case S32 => AsInt32(raw)
    case _ => raw
  }

  /**
   * Some(value) where the C function stores *out_value and returns true;
   * None where it returns false without writing *out_value.
   */
  function ProcessValue(regs: seq<uint16>, m: LegacyMapping): Option<real>
    requires |regs| >= Decoder.RegistersRead(m.dataType)
  {
    match ParseDataType(m.dataType)
    case None => None
    case Some(t) =>
      if Decoder.RawValue(regs, t) == Decoder.Sentinel(t) then None
      else Some(Interpret(regs, t) as real * m.scale)
  }

  /** The value written when *out_value is written; the prior value otherwise. */
  function OutValue(regs: seq<uint16>, m: LegacyMapping, prior: real): real
    requires |regs| >= Decoder.RegistersRead(m.dataType)
  {
    match ProcessValue(regs, m)
    case Some(v) => v
    case None => prior
  }

  /**
   * Only the registers the type occupies are consulted, so whatever the
   * rest of the caller's buffer holds does not change the result.
   */
  lemma ProcessValueReadsPrefix(a: seq<uint16>, b: seq<uint16>, m: LegacyMapping)
    requires |a| >= Decoder.RegistersRead(m.dataType) && |b| >= Decoder.RegistersRead(m.dataType)
    requires a[..Decoder.RegistersRead(m.dataType)] == b[..Decoder.RegistersRead(m.dataType)]
    ensures ProcessValue(a, m) == ProcessValue(b, m)
  {
    match ParseDataType(m.dataType)
    case None =>
    case Some(t) =>
      Decoder.RawValueReadsPrefix(a, b, t);
      assert Interpret(a, t) == Interpret(b, t);
      ProcessValueFailsIff(a, m, 0.0);
      ProcessValueFailsIff(b, m, 0.0);
      if ProcessValue(a, m).Some? {
        ProcessValueScales(a, m, t);
        ProcessValueScales(b, m, t);
        assert ProcessValue(b, m).Some?;
        assert ProcessValue(a, m).value == ProcessValue(b, m).value;
      }
  }

  /**
   * Failure exactly for an unsupported type (FLOAT32 included) or the type's
   * sentinel; on failure the caller's value is left as it was.
   */
  lemma ProcessValueFailsIff(regs: seq<uint16>, m: LegacyMapping, prior: real)
    requires |regs| >= Decoder.RegistersRead(m.dataType)
    ensures ProcessValue(regs, m).None?
        <==> (ParseDataType(m.dataType).None?
              || Decoder.RawValue(regs, ParseDataType(m.dataType).value)
                 == Decoder.Sentinel(ParseDataType(m.dataType).value))
    ensures ProcessValue(regs, m).None? ==> OutValue(regs, m, prior) == prior
    ensures ProcessValue(regs, m.(dataType := "FLOAT32")).None?
  {
  }

  /**
   * On success, dividing out a non-zero scale gives back the register
   * content read as a signed (S16/S32) or unsigned (U16/U32/U64) integer,
   * which in turn determines the words.
   */
  lemma ProcessValueInverse(regs: seq<uint16>, m: LegacyMapping)
    requires ParseDataType(m.dataType).Some?
    requires |regs| >= Decoder.RegistersRead(m.dataType)
    requires ProcessValue(regs, m).Some? && m.scale != 0.0
    ensures var t := ParseDataType(m.dataType).value;
            && ProcessValue(regs, m).value / m.scale == Interpret(regs, t) as real
            && ToWords((Interpret(regs, t) + WordSpan(Width(t))) % WordSpan(Width(t)), Width(t)) == regs[..Width(t)]
  {
    var t := ParseDataType(m.dataType).value;
    var x := Interpret(regs, t) as real;
    ProcessValueScales(regs, m, t);
    ScaleCancels(ProcessValue(regs, m).value, x, m.scale);
    InterpretDeterminesWords(regs, t);
  }

  lemma ProcessValueScales(regs: seq<uint16>, m: LegacyMapping, t: DataType)
    requires ParseDataType(m.dataType) == Some(t)
    requires |regs| >= Width(t)
    requires ProcessValue(regs, m).Some?
    ensures ProcessValue(regs, m).value == Interpret(regs, t) as real * m.scale
  {
  }

  /** The integer read, taken modulo the type's span, splits back into the words. */
  lemma InterpretDeterminesWords(regs: seq<uint16>, t: DataType)
    requires |regs| >= Width(t)
    ensures ToWords((Interpret(regs, t) + WordSpan(Width(t))) % WordSpan(Width(t)), Width(t)) == regs[..Width(t)]
  {
    InterpretWraps(regs, t);
    ToWordsOfBigEndian(regs[..Width(t)]);
  }

  lemma ScaleCancels(p: real, x: real, scale: real)
    requires scale != 0.0 && p == x * scale
    ensures p / scale == x
  {
  }

  /** Adding the type's modulus and reducing undoes the two's complement reading. */
  lemma InterpretWraps(regs: seq<uint16>, t: DataType)
    requires |regs| >= Width(t)
    ensures (Interpret(regs, t) + WordSpan(Width(t))) % WordSpan(Width(t)) == BigEndian(regs[..Width(t)])
  {
    WordSpanValues();
    var raw := Decoder.RawValue(regs, t);
    assert raw < WordSpan(Width(t));
    match t
    case S16 =>
    case S32 =>
    case U16 =>
      assert (raw + WORD) % WORD == raw;
    case U32 =>
      assert (raw + TWO32) % TWO32 == raw;
    case U64 =>
      assert (raw + 0x1_0000_0000_0000_0000) % 0x1_0000_0000_0000_0000 == raw;
  }

  /** Signed types are sign-extended here, unlike the formatted decoder's FIX branch. */
  lemma SignedExamples()
    ensures ProcessValue([0xFFFF, 0xCFC7], LegacyMapping("P", 0, "P", "S32", 0.01, 1000)) == Some(-123.45)
    ensures ProcessValue([0xFF6A], LegacyMapping("T", 0, "T", "S16", 0.1, 1000)) == Some(-15.0)
  {
    Decoder.RawValueLayout([0xFFFF, 0xCFC7], S32);
    Decoder.RawValueLayout([0xFF6A], S16);
  }
}
