/**
 * The Modbus client of src/modbus_client.c and of the legacy
 * modbus_client.c: how many registers a mapping reads, the Read Input
 * Registers request (function code 0x04) that reads them, the 0 / -1 / -2
 * return codes, and connection set-up with its clean-up on failure.
 *
 * libmodbus itself is an oracle: the device's answer to a request and the
 * outcome of creating and connecting a context are parameters.
 */
module ModbusClient {
  import opened Registers
  import opened Config
  import Decoder
  import LegacyDecoder

  /** Modbus function code "Read Input Registers". */
  const READ_INPUT_REGISTERS: nat := 0x04

  /** Registers read for a data_type text (src/modbus_client.c): 1 unless S32/U32 (2) or U64 (4). */
  function RegisterCount(dataType: string): (n: nat)
    ensures n == 1 || n == 2 || n == 4
  {
    if dataType == "S32" || dataType == "U32" then 2
    else if dataType == "U64" then 4
    else 1
  }

  /** The legacy client additionally reads FLOAT32 as two registers. */
  function LegacyRegisterCount(dataType: string): (n: nat)
    ensures n == 1 || n == 2 || n == 4
  {
    if dataType == "S32" || dataType == "U32" || dataType == "FLOAT32" then 2
    else if dataType == "U64" then 4
    else 1
  }

  /**
   * The read covers what each decoder consumes: exactly the type's width for
   * a supported type, one harmless register otherwise.
   */
  lemma RegisterCountMatchesDecoders(dataType: string)
    ensures ParseDataType(dataType).Some? ==>
              RegisterCount(dataType) == Width(ParseDataType(dataType).value)
              && LegacyRegisterCount(dataType) == RegisterCount(dataType)
    ensures ParseDataType(dataType).None? ==>
              Decoder.RegistersRead(dataType) == 0 && RegisterCount(dataType) == 1
    ensures LegacyRegisterCount(dataType) == RegisterCount(dataType) <==> dataType != "FLOAT32"
  {
  }

  /**
   * FLOAT32 is read (two registers) by the legacy client but rejected by
   * the legacy decoder, so such a mapping is never published.
   */
  lemma LegacyFloat32NeverDecoded(regs: seq<uint16>, m: LegacyMapping)
    requires m.dataType == "FLOAT32"
    ensures LegacyRegisterCount(m.dataType) == 2
    ensures LegacyDecoder.ProcessValue(regs, m).None?
  {
  }

  /** A Modbus request as libmodbus sends it. */
  datatype ReadRequest = ReadRequest(functionCode: nat, address: int, count: nat)

  /** The request for a mapping: its configured address, unchanged, and its register count. */
  function RequestFor(address: int, count: nat): (r: ReadRequest)
    ensures r.functionCode == READ_INPUT_REGISTERS && r.address == address && r.count == count
  {
    ReadRequest(READ_INPUT_REGISTERS, address, count)
  }

  /** What modbus_read_input_registers did: the registers, or -1 with errno. */
  datatype Reply = Registers(words: seq<uint16>) | Failed(eintr: bool)

  /** The device's answers: a reply to every request. */
  type Device = ReadRequest -> Reply

  /** A well-behaved library returns exactly the registers asked for. */
  predicate Answers(device: Device, req: ReadRequest) {
    device(req).Registers? ==> |device(req).words| == req.count
  }

  /** 0 on success; on failure -2 iff errno is EINTR and shutdown was requested, else -1. */
  function ReturnCode(reply: Reply, shutdownRequested: bool): (rc: int)
    ensures rc == 0 <==> reply.Registers?
    ensures rc == -2 <==> reply.Failed? && reply.eintr && shutdownRequested
    ensures rc == 0 || rc == -1 || rc == -2
  {
    match reply
    case Registers(_) => 0
    case Failed(eintr) => if eintr && shutdownRequested then -2 else -1
  }

  /** A libmodbus context (modbus_t). */
  class Context {
    var slaveId: int
    var timeoutSec: int
    var timeoutUsec: int
    var connected: bool
    var freed: bool

    /** modbus_new_tcp: a fresh, unconnected context. */
    constructor ()
      ensures !connected && !freed
    {
      connected := false;
      freed := false;
    }
  }

  /**
   * The request both clients send: Read Input Registers for count registers
   * from the configured address; on success the first count registers of
   * dest are filled in place, otherwise dest is left as it was.
   */
  method ReadInputRegisters(ctx: Context, address: int, count: nat, dest: array<uint16>,
                            device: Device, shutdownRequested: bool)
    returns (rc: int, sent: ReadRequest)
    requires dest.Length >= count
    requires Answers(device, RequestFor(address, count))
    modifies dest
    ensures sent == RequestFor(address, count)
    ensures rc == ReturnCode(device(sent), shutdownRequested)
    ensures rc == 0 ==> dest[..count] == device(sent).words
    ensures rc != 0 ==> dest[..count] == old(dest[..count])
    ensures dest[count..] == old(dest[count..])
  {
    sent := RequestFor(address, count);
    var reply := device(sent);
    if reply.Registers? {
      var i := 0;
      while i < count
        invariant 0 <= i <= count
        invariant dest[..i] == reply.words[..i]
        invariant dest[i..] == old(dest[i..])
      {
        dest[i] := reply.words[i];
        i := i + 1;
        assert dest[..i] == dest[..i - 1] + [dest[i - 1]];
      }
      assert reply.words[..count] == reply.words;
    }
    rc := ReturnCode(reply, shutdownRequested);
  }

  /** read_modbus_data of src/modbus_client.c: the register count follows the data type. */
  method ReadModbusData(ctx: Context, address: int, dataType: string, dest: array<uint16>,
                        device: Device, shutdownRequested: bool)
    returns (rc: int, sent: ReadRequest)
    requires dest.Length >= RegisterCount(dataType)
    requires Answers(device, RequestFor(address, RegisterCount(dataType)))
    modifies dest
    ensures sent == RequestFor(address, RegisterCount(dataType))
    ensures rc == ReturnCode(device(sent), shutdownRequested)
    ensures rc == 0 ==> dest[..sent.count] == device(sent).words
    ensures rc != 0 ==> dest[..sent.count] == old(dest[..sent.count])
    ensures dest[sent.count..] == old(dest[sent.count..])
  {
    rc, sent := ReadInputRegisters(ctx, address, RegisterCount(dataType), dest, device, shutdownRequested);
  }

  /** read_modbus_data of the legacy modbus_client.c: FLOAT32 also reads two registers. */
  method LegacyReadModbusData(ctx: Context, address: int, dataType: string, dest: array<uint16>,
                              device: Device, shutdownRequested: bool)
    returns (rc: int, sent: ReadRequest)
    requires dest.Length >= LegacyRegisterCount(dataType)
    requires Answers(device, RequestFor(address, LegacyRegisterCount(dataType)))
    modifies dest
    ensures sent == RequestFor(address, LegacyRegisterCount(dataType))
    ensures rc == ReturnCode(device(sent), shutdownRequested)
    ensures rc == 0 ==> dest[..sent.count] == device(sent).words
    ensures rc != 0 ==> dest[..sent.count] == old(dest[..sent.count])
    ensures dest[sent.count..] == old(dest[sent.count..])
  {
    rc, sent := ReadInputRegisters(ctx, address, LegacyRegisterCount(dataType), dest, device, shutdownRequested);
  }

  /** What creating and connecting a context did. */
  datatype ConnectEnv = ConnectEnv(created: bool, connectSucceeded: bool, eintr: bool)

  datatype ConnectOutcome = Connected | CreateFailed | Interrupted | ConnectFailed

  function ConnectOutcomeOf(env: ConnectEnv, shutdownRequested: bool): ConnectOutcome {
    if !env.created then CreateFailed
    else if env.connectSucceeded then Connected
    else if env.eintr && shutdownRequested then Interrupted
    else ConnectFailed
  }

  /**
   * Only a shutdown-interrupted connect is silent; creation and ordinary
   * connect failures are logged as errors.
   */
  lemma ConnectErrorLogged(env: ConnectEnv, shutdownRequested: bool)
    ensures ConnectOutcomeOf(env, shutdownRequested) == Interrupted
        <==> env.created && !env.connectSucceeded && env.eintr && shutdownRequested
    ensures ConnectOutcomeOf(env, shutdownRequested) == Connected <==> env.created && env.connectSucceeded
  {
  }

  /**
   * modbus_tcp_connect: create a context, set slave id and response timeout
   * (seconds, 0 microseconds), connect. Every failure after creation frees
   * the context before returning NULL.
   */
  method TcpConnect(settings: Settings, env: ConnectEnv, shutdownRequested: bool)
    returns (ctx: Context?, outcome: ConnectOutcome, errorLogged: bool, ghost created: Context?)
    ensures outcome == ConnectOutcomeOf(env, shutdownRequested)
    ensures ctx != null <==> outcome == Connected
    ensures errorLogged <==> outcome == CreateFailed || outcome == ConnectFailed
    ensures created != null ==> fresh(created)
    ensures ctx != null ==> ctx == created && ctx.connected && !ctx.freed
    ensures ctx != null ==> ctx.slaveId == settings.slaveId
                            && ctx.timeoutSec == settings.timeoutSec && ctx.timeoutUsec == 0
    ensures ctx == null ==> created == null || (created.freed && !created.connected)
  {
    if !env.created {
      return null, CreateFailed, true, null;
    }
    var c := new Context();
    created := c;
    c.slaveId := settings.slaveId;
    c.timeoutSec, c.timeoutUsec := settings.timeoutSec, 0;
    if !env.connectSucceeded {
      if env.eintr && shutdownRequested {
        c.freed := true;
        return null, Interrupted, false, created;
      }
      c.freed := true;
      return null, ConnectFailed, true, created;
    }
    c.connected := true;
    return c, Connected, false, created;
  }

  /** modbus_close followed by modbus_free. */
  method Close(ctx: Context)
    modifies ctx
    ensures !ctx.connected && ctx.freed
    ensures ctx.slaveId == old(ctx.slaveId) && ctx.timeoutSec == old(ctx.timeoutSec)
  {
    ctx.connected := false;
    ctx.freed := true;
  }
}
