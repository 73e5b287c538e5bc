/**
 * The in-memory configuration the gateway runs on (the records of
 * include/config.h and the legacy config.h), and the string dispatch the C
 * code performs on a mapping's data_type and format texts.
 */
module Config {
  import opened Text

  /** A C pointer that may be NULL. */
  datatype Option<T> = None | Some(value: T)

  /** One entry of a mapping's ENUM table: an int and its label. */
  datatype EnumValue = EnumValue(value: int, name: string)

  /** modbus_reg_mapping_t of include/config.h. */
  datatype Mapping = Mapping(
    name: string,
    modbusAddress: int,
    opcuaNodeId: string,
    dataType: string,
    format: Option<string>,
    scale: real,
    pollIntervalMs: int,
    enumValues: seq<EnumValue>)

  /** modbus_reg_mapping_t of the legacy config.h: no format, no ENUM table. */
  datatype LegacyMapping = LegacyMapping(
    name: string,
    modbusAddress: int,
    opcuaNodeId: string,
    dataType: string,
    scale: real,
    pollIntervalMs: int)

  /** The connection and security part of modbus_opcua_config_t. */
  datatype Settings = Settings(
    modbusIp: string,
    modbusPort: int,
    slaveId: int,
    timeoutSec: int,
    opcuaPort: int,
    username: Option<string>,
    password: Option<string>)

  /** The register layouts the decoders understand. */
  datatype DataType = U16 | S16 | U32 | S32 | U64

  /** strcmp dispatch on data_type; anything else is unsupported. */
  function ParseDataType(s: string): (t: Option<DataType>)
    ensures t.Some? <==> s == "U16" || s == "S16" || s == "U32" || s == "S32" || s == "U64"
  {
    if s == "U16" then Some(U16)
    else if s == "S16" then Some(S16)
    else if s == "U32" then Some(U32)
    else if s == "S32" then Some(S32)
    else if s == "U64" then Some(U64)
    else None
  }

  /** Number of 16-bit registers a value of the type occupies. */
  function Width(t: DataType): nat {
    match t
    case U16 => 1
    case S16 => 1
    case U32 => 2
    case S32 => 2
    case U64 => 4
  }

  /** The format a mapping's format text selects. */
  datatype Format =
    | Fix(places: int)
    | Enum
    | Firmware
    | DateTime
    | Duration
    | Temp
    | Unrecognized(text: string)

  /**
   * The dispatch of process_modbus_value_formatted, in its order: a "FIX"
   * prefix first (digit count read by atoi from the rest, 0 when nothing
   * follows), then the exact names; DT and TM are the same format.
   */
  function ParseFormat(f: string): (r: Format)
    ensures r.Fix? <==> |f| >= 3 && f[..3] == "FIX"
    ensures r.Unrecognized? ==> r.text == f
  {
    if |f| >= 3 && f[..3] == "FIX" then Fix(if |f| > 3 then Atoi(f[3..]) else 0)
    else if f == "ENUM" then Enum
    else if f == "FW" then Firmware
    else if f == "DT" || f == "TM" then DateTime
    else if f == "Duration" then Duration
    else if f == "TEMP" then Temp
    else Unrecognized(f)
  }

  /** "FIX" followed by a decimal number selects that many places. */
  lemma ParseFormatFix(n: nat)
    ensures ParseFormat("FIX" + Dec(n)) == Fix(n)
  {
    var f := "FIX" + Dec(n);
    assert f[..3] == "FIX";
    assert f[3..] == Dec(n) + [];
    AtoiOfDec(n, []);
  }
}
