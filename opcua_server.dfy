/**
 * The OPC UA side of src/opcua_server.c: the shutdown flag the signal
 * handler raises, the choice between anonymous and user/password access,
 * the variable nodes add_opcua_nodes creates (one per mapping, read-only,
 * typed by the mapping's format) and the value writes that update them.
 *
 * The open62541 address space is modelled as a map from NodeId to node;
 * UA_Server_addVariableNode keeps an existing node and UA_Server_writeValue
 * refuses an unknown id or a value of the wrong type.
 */
module OpcuaServer {
  import opened Registers
  import opened Config
  import opened Decoder

  // ------------------------------------------------------- shutdown flag

  /** shutdown_requested and shutdown_signal_num. */
  datatype FlagState = FlagState(requested: bool, signalNum: int)

  /** Both statics start at zero. */
  const INITIAL_FLAG: FlagState := FlagState(false, 0)

  /** What stop_handler does to the two statics. */
  function Handle(s: FlagState, sig: int): FlagState {
    FlagState(true, sig)
  }

  /** The flag after the handler has run once for each signal in turn. */
  function AfterSignals(sigs: seq<int>): FlagState {
    if sigs == [] then INITIAL_FLAG
    else Handle(AfterSignals(sigs[..|sigs| - 1]), sigs[|sigs| - 1])
  }

  /**
   * Shutdown is requested iff some signal has been handled, and the signal
   * number reported is the latest one, 0 before any.
   */
  lemma AfterSignalsMeaning(sigs: seq<int>)
    ensures AfterSignals(sigs).requested <==> sigs != []
    ensures AfterSignals(sigs).signalNum == if sigs == [] then 0 else sigs[|sigs| - 1]
  {
  }

  /** Nothing clears the flag: once requested, requested after any further signals. */
  lemma {:induction false} FlagMonotone(sigs: seq<int>, more: seq<int>)
    requires AfterSignals(sigs).requested
    ensures AfterSignals(sigs + more).requested
    decreases |more|
  {
    if more != [] {
      var all := sigs + more;
      assert all[..|all| - 1] == sigs + more[..|more| - 1];
      FlagMonotone(sigs, more[..|more| - 1]);
    } else {
      assert sigs + more == sigs;
    }
  }

  /** The two statics of src/opcua_server.c and the signals handled so far. */
  class ShutdownFlag {
    var requested: bool
    var signalNum: int
    ghost var handled: seq<int>

    ghost predicate Valid()
      reads this
    {
      FlagState(requested, signalNum) == AfterSignals(handled)
    }

    constructor ()
      ensures Valid() && handled == []
    {
      requested := false;
      signalNum := 0;
      handled := [];
    }

    /** stop_handler: record the signal, then raise the flag. */
    method StopHandler(sig: int)
      requires Valid()
      modifies this
      ensures Valid() && handled == old(handled) + [sig]
      ensures requested && signalNum == sig
    {
      signalNum := sig;
      requested := true;
      handled := handled + [sig];
      assert handled[..|handled| - 1] == old(handled);
    }

    /** opcua_shutdown_requested. */
    method ShutdownRequested() returns (r: bool)
      requires Valid()
      ensures r <==> handled != []
    {
      AfterSignalsMeaning(handled);
      r := requested;
    }

    /** opcua_shutdown_signal: the latest signal handled, 0 if none. */
    method ShutdownSignal() returns (sig: int)
      requires Valid()
      ensures sig == if handled == [] then 0 else handled[|handled| - 1]
    {
      AfterSignalsMeaning(handled);
      sig := signalNum;
    }
  }

  // ------------------------------------------------------ access control

  datatype AccessControl = Anonymous | UserPassword(username: string, password: string)

  /**
   * opcua_server_init's choice: a user/password login exactly when the
   * username is present and non-empty and a password is present (an empty
   * password is accepted); anonymous access otherwise.
   */
  function ConfigureAccess(settings: Settings): (ac: AccessControl)
    ensures ac.UserPassword?
        <==> settings.username.Some? && settings.username.value != [] && settings.password.Some?
    ensures ac.UserPassword? ==>
              ac.username == settings.username.value && ac.password == settings.password.value
  {
    match (settings.username, settings.password)
    case (Some(user), Some(pass)) => if user != [] then UserPassword(user, pass) else Anonymous
    case _ => Anonymous
  }

  // ---------------------------------------------------------------- nodes

  /** A NodeId: namespace index and string identifier. */
  datatype NodeId = NodeId(ns: nat, id: string)

  /** A variable node: display name, declared data type, access and value. */
  datatype Node = Node(displayName: string, dataType: UaType, readOnly: bool, value: Variant)

  datatype StatusCode = Good | BadNodeIdUnknown | BadTypeMismatch

  /** UA_NODEID_STRING(1, opcua_node_id): the id both creation and update use. */
  function NodeIdOf(opcuaNodeId: string): (id: NodeId)
    ensures id.ns == 1 && id.id == opcuaNodeId
  {
    NodeId(1, opcuaNodeId)
  }

  /**
   * The data type add_opcua_nodes declares, by strcmp on the format text:
   * ENUM is Int32, FW is String, DT and TM are DateTime, everything else
   * (Duration, FIXn, TEMP, any other text, no format) is Float.
   */
  function NodeDataType(format: Option<string>): UaType {
    match format
    case None => UaFloat
    case Some(f) =>
      if f == "ENUM" then UaInt32
      else if f == "FW" then UaString
      else if f == "DT" || f == "TM" then UaDateTime
      else if f == "Duration" then UaFloat
      else UaFloat
  }

  /** The zero value a node starts with. */
  function InitialValue(t: UaType): (v: Variant)
    ensures v.Type() == t
  {
    match t
    case UaFloat => FloatV(0.0)
    case UaInt32 => Int32V(0)
    case UaString => StrV([])
    case UaDateTime => DateTimeV(0)
  }

  /** The node created for a mapping: read-only, typed by its format, zero-valued. */
  function NewNode(m: Mapping): (n: Node)
    ensures n.readOnly && n.displayName == m.name
    ensures n.dataType == NodeDataType(m.format) && n.value.Type() == n.dataType
  {
    var t := NodeDataType(m.format);
    Node(m.name, t, true, InitialValue(t))
  }

  /** UA_Server_addVariableNode: an id already present keeps its node. */
  function AddNode(nodes: map<NodeId, Node>, m: Mapping): map<NodeId, Node> {
    if NodeIdOf(m.opcuaNodeId) in nodes then nodes else nodes[NodeIdOf(m.opcuaNodeId) := NewNode(m)]
  }

  /** The address space after adding the nodes of ms in order. */
  function AddAll(nodes: map<NodeId, Node>, ms: seq<Mapping>): map<NodeId, Node> {
    if ms == [] then nodes else AddNode(AddAll(nodes, ms[..|ms| - 1]), ms[|ms| - 1])
  }

  /** Every node the server holds is read-only and holds a value of its declared type. */
  predicate WellTyped(nodes: map<NodeId, Node>) {
    forall k :: k in nodes ==> nodes[k].readOnly && nodes[k].value.Type() == nodes[k].dataType
  }

  /** Adding nodes keeps what was there and keeps the space well typed. */
  lemma {:induction false} AddAllKeeps(nodes: map<NodeId, Node>, ms: seq<Mapping>)
    requires WellTyped(nodes)
    ensures forall k :: k in nodes ==> k in AddAll(nodes, ms) && AddAll(nodes, ms)[k] == nodes[k]
    ensures WellTyped(AddAll(nodes, ms))
  {
    if ms != [] {
      AddAllKeeps(nodes, ms[..|ms| - 1]);
    }
  }

  /** Every mapping gets a node under its id, and every new id belongs to some mapping. */
  lemma {:induction false} AddAllDomain(nodes: map<NodeId, Node>, ms: seq<Mapping>)
    ensures forall i :: 0 <= i < |ms| ==> NodeIdOf(ms[i].opcuaNodeId) in AddAll(nodes, ms)
    ensures forall k :: k in AddAll(nodes, ms) ==> k in nodes || exists i :: 0 <= i < |ms| && NodeIdOf(ms[i].opcuaNodeId) == k
  {
    if ms != [] {
      var init := ms[..|ms| - 1];
      AddAllDomain(nodes, init);
      var before := AddAll(nodes, init);
      assert AddAll(nodes, ms) == AddNode(before, ms[|ms| - 1]);
      forall i | 0 <= i < |ms| ensures NodeIdOf(ms[i].opcuaNodeId) in AddAll(nodes, ms) {
        if i < |ms| - 1 {
          assert init[i] == ms[i];
        }
      }
      forall k | k in AddAll(nodes, ms)
        ensures k in nodes || exists i :: 0 <= i < |ms| && NodeIdOf(ms[i].opcuaNodeId) == k
      {
        if k in before && k !in nodes {
          var j :| 0 <= j < |init| && NodeIdOf(init[j].opcuaNodeId) == k;
          assert ms[j] == init[j];
        }
      }
    }
  }

  /**
   * The node under a mapping's id is that mapping's own node when neither an
   * existing node nor an earlier mapping took the id.
   */
  lemma {:induction false} AddAllFirstWins(nodes: map<NodeId, Node>, ms: seq<Mapping>, i: nat)
    requires i < |ms| && NodeIdOf(ms[i].opcuaNodeId) !in nodes
    requires forall j :: 0 <= j < i ==> NodeIdOf(ms[j].opcuaNodeId) != NodeIdOf(ms[i].opcuaNodeId)
    ensures NodeIdOf(ms[i].opcuaNodeId) in AddAll(nodes, ms)
    ensures AddAll(nodes, ms)[NodeIdOf(ms[i].opcuaNodeId)] == NewNode(ms[i])
    decreases |ms|
  {
    var init := ms[..|ms| - 1];
    var before := AddAll(nodes, init);
    var m := ms[|ms| - 1];
    assert AddAll(nodes, ms) == AddNode(before, m);
    if i < |ms| - 1 {
      assert init[i] == ms[i];
      assert forall j :: 0 <= j < i ==> init[j] == ms[j];
      AddAllFirstWins(nodes, init, i);
    } else {
      assert NodeIdOf(m.opcuaNodeId) !in before by {
        AddAllDomain(nodes, init);
      }
    }
  }

  /** The status UA_Server_writeValue returns. */
  function WriteStatus(nodes: map<NodeId, Node>, id: NodeId, v: Variant): StatusCode {
    if id !in nodes then BadNodeIdUnknown
    else if v.Type() != nodes[id].dataType then BadTypeMismatch
    else Good
  }

  /** The nodes add_opcua_nodes creates in an empty server, as a fresh address space. */
  class AddressSpace {
    var nodes: map<NodeId, Node>

    constructor ()
      ensures nodes == map[]
    {
      nodes := map[];
    }

    /** add_opcua_nodes: one variable node per mapping, in table order. */
    method AddNodes(ms: seq<Mapping>)
      modifies this
      ensures nodes == AddAll(old(nodes), ms)
    {
      ghost var start := nodes;
      var i := 0;
      while i < |ms|
        invariant 0 <= i <= |ms|
        invariant nodes == AddAll(start, ms[..i])
      {
        var m := ms[i];
        var id := NodeIdOf(m.opcuaNodeId);
        if id !in nodes {
          nodes := nodes[id := NewNode(m)];
        }
        assert ms[..i + 1][..i] == ms[..i];
        i := i + 1;
      }
      assert ms[..|ms|] == ms;
    }

    /** UA_Server_writeValue: only the value of a known node, and only with its type. */
    method WriteValue(id: NodeId, v: Variant) returns (status: StatusCode)
      modifies this
      ensures status == WriteStatus(old(nodes), id, v)
      ensures status == Good ==> nodes == old(nodes)[id := old(nodes)[id].(value := v)]
      ensures status != Good ==> nodes == old(nodes)
    {
      status := WriteStatus(nodes, id, v);
      if status == Good {
        nodes := nodes[id := nodes[id].(value := v)];
      }
    }

    /** update_opcua_node_value_typed: write the variant to the mapping's node. */
    method UpdateTyped(m: Mapping, v: Variant) returns (status: StatusCode)
      modifies this
      ensures status == WriteStatus(old(nodes), NodeIdOf(m.opcuaNodeId), v)
      ensures status == Good ==> nodes == old(nodes)[NodeIdOf(m.opcuaNodeId) := old(nodes)[NodeIdOf(m.opcuaNodeId)].(value := v)]
      ensures status != Good ==> nodes == old(nodes)
    {
      status := WriteValue(NodeIdOf(m.opcuaNodeId), v);
    }

    /** update_opcua_node_value: write a Float to the mapping's node. */
    method UpdateFloat(m: Mapping, x: real) returns (status: StatusCode)
      modifies this
      ensures status == WriteStatus(old(nodes), NodeIdOf(m.opcuaNodeId), FloatV(x))
      ensures status == Good ==> nodes == old(nodes)[NodeIdOf(m.opcuaNodeId) := old(nodes)[NodeIdOf(m.opcuaNodeId)].(value := FloatV(x))]
      ensures status != Good ==> nodes == old(nodes)
    {
      status := WriteValue(NodeIdOf(m.opcuaNodeId), FloatV(x));
    }
  }

  // ------------------------------------------------- decoder / node agreement

  /** The format text the decoder dispatches on selects the node's data type. */
  lemma FormatSelectsType(f: string)
    ensures NodeDataType(Some(f)) == match ParseFormat(f)
                                     case Enum => UaInt32
                                     case Firmware => UaString
                                     case DateTime => UaDateTime
                                     case _ => UaFloat
  {
    if |f| >= 3 && f[..3] == "FIX" {
      assert f[0] == f[..3][0] == 'F';
      assert f != "ENUM" && f != "Duration";
    }
  }

  /**
   * Whatever the decoder produces for a mapping has the type of that
   * mapping's node, for the corrected and the as-written decoder alike.
   */
  lemma DecodedTypeMatchesNode(regs: seq<uint16>, m: Mapping)
    requires |regs| >= RegistersRead(m.dataType)
    ensures DecodeFormatted(regs, m).Decoded? ==>
              DecodeFormatted(regs, m).value.Type() == NodeDataType(m.format)
    ensures DecodeFormattedAsWritten(regs, m).Decoded? ==>
              DecodeFormattedAsWritten(regs, m).value.Type() == NodeDataType(m.format)
  {
    var p := Prepare(regs, m);
    if p.Ready? {
      FormatSelectsType(p.format);
      VariantTypeByFormat(p.raw, p.t, ParseFormat(p.format));
    }
  }

  /**
   * Hence every decoded value a mapping publishes is accepted by the node
   * add_opcua_nodes made for it, provided no earlier mapping used its id.
   */
  lemma TypedWriteAccepted(ms: seq<Mapping>, i: nat, regs: seq<uint16>)
    requires i < |ms| && |regs| >= RegistersRead(ms[i].dataType)
    requires forall j :: 0 <= j < i ==> NodeIdOf(ms[j].opcuaNodeId) != NodeIdOf(ms[i].opcuaNodeId)
    requires DecodeFormatted(regs, ms[i]).Decoded?
    ensures WriteStatus(AddAll(map[], ms), NodeIdOf(ms[i].opcuaNodeId), DecodeFormatted(regs, ms[i]).value) == Good
  {
    AddAllFirstWins(map[], ms, i);
    DecodedTypeMatchesNode(regs, ms[i]);
  }
}
