/**
 * The run loop of src/main.c: per-mapping next poll times (calloc'd, so all
 * zero), a Modbus connection that is present or absent, and one pass over
 * the mappings per loop iteration that polls every due mapping and may end
 * early on shutdown or on a failed read.
 *
 * The clock, the signal handler, the device and connection attempts are
 * inputs: a Probe says what the environment does while mapping i is
 * visited, a Tick what it does during one loop iteration.
 */
module Gateway {
  import opened Registers
  import opened Config
  import opened Decoder
  import opened ModbusClient
  import opened OpcuaServer

  // ------------------------------------------------------------ ENUM labels

  /** The label logged for an ENUM value: the first entry with that value, else "Unknown". */
  function EnumLabel(values: seq<EnumValue>, v: int): string {
    if values == [] then "Unknown"
    else if values[0].value == v then values[0].name
    else EnumLabel(values[1..], v)
  }

  /** The label is the name of the first matching entry, or "Unknown" when none matches. */
  lemma {:induction false} EnumLabelMeaning(values: seq<EnumValue>, v: int)
    ensures (forall k :: 0 <= k < |values| ==> values[k].value != v) ==> EnumLabel(values, v) == "Unknown"
    ensures forall k :: 0 <= k < |values| && values[k].value == v
                        && (forall l :: 0 <= l < k ==> values[l].value != v)
                        ==> EnumLabel(values, v) == values[k].name
  {
    if values != [] {
      EnumLabelMeaning(values[1..], v);
      forall k | 0 <= k < |values| && values[k].value == v
                 && (forall l :: 0 <= l < k ==> values[l].value != v)
        ensures EnumLabel(values, v) == values[k].name
      {
        if k > 0 {
          assert values[0].value != v;
          assert values[1..][k - 1] == values[k];
          forall l | 0 <= l < k - 1 ensures values[1..][l].value != v {
            assert values[1..][l] == values[l + 1];
          }
        }
      }
      if forall k :: 0 <= k < |values| ==> values[k].value != v {
        assert values[0].value != v;
        forall k | 0 <= k < |values| - 1 ensures values[1..][k].value != v {
          assert values[1..][k] == values[k + 1];
        }
      }
    }
  }

  /** The search loop of the ENUM logging branch. */
  method LookupEnumLabel(values: seq<EnumValue>, v: int) returns (text: string)
    ensures text == EnumLabel(values, v)
  {
    text := "Unknown";
    var j := 0;
    while j < |values|
      invariant 0 <= j <= |values|
      invariant EnumLabel(values, v) == EnumLabel(values[j..], v)
    {
      if values[j].value == v {
        text := values[j].name;
        return;
      }
      assert values[j..][1..] == values[j + 1..];
      j := j + 1;
    }
  }

  // --------------------------------------------------------- one poll pass

  /**
   * What happens while mapping i is visited: whether the loop-head shutdown
   * check sees the flag, what the device replies, and whether shutdown is
   * requested when read_modbus_data inspects the flag after a failure.
   */
  datatype Probe = Probe(stopSeen: bool, reply: Reply, stopAtRead: bool)

  /** One probe per mapping, and a successful read returns the registers asked for. */
  predicate ProbesFit(ms: seq<Mapping>, probes: seq<Probe>) {
    |probes| == |ms|
    && forall j :: 0 <= j < |ms| ==>
         (probes[j].reply.Registers? ==> |probes[j].reply.words| == RegisterCount(ms[j].dataType))
  }

  /** Why a pass ended, and at which mapping. */
  datatype PassEnd = Completed | StopRequested(at: nat) | ReadInterrupted(at: nat) | ReadFailed(at: nat)

  function ReadCode(p: Probe): int {
    ReturnCode(p.reply, p.stopAtRead)
  }

  /** Whether the pass, having reached mapping i, ends there. */
  function StopsAt(next0: seq<int>, now: int, probes: seq<Probe>, i: nat): Option<PassEnd>
    requires i < |next0| && i < |probes|
  {
    if probes[i].stopSeen then Some(StopRequested(i))
    else if now < next0[i] then None
    else if ReadCode(probes[i]) == 0 then None
    else if ReadCode(probes[i]) == -2 then Some(ReadInterrupted(i))
    else Some(ReadFailed(i))
  }

  /** How a pass that has reached mapping i ends. */
  function PassEndFrom(next0: seq<int>, now: int, probes: seq<Probe>, i: nat): (e: PassEnd)
    requires |next0| == |probes| && i <= |probes|
    ensures e.Completed? || (i <= e.at < |probes| && StopsAt(next0, now, probes, e.at) == Some(e))
    decreases |probes| - i
  {
    if i == |probes| then Completed
    else match StopsAt(next0, now, probes, i)
      case Some(e) => e
      case None => PassEndFrom(next0, now, probes, i + 1)
  }

  function EndIndex(e: PassEnd, n: nat): nat {
    if e.Completed? then n else e.at
  }

  /**
   * Mapping j is polled (its due time reset and a read issued) iff the pass
   * reaches it, the shutdown check there does not fire, and it is due.
   */
  predicate Polled(next0: seq<int>, now: int, probes: seq<Probe>, j: nat)
    requires |next0| == |probes| && j < |probes|
  {
    j <= EndIndex(PassEndFrom(next0, now, probes, 0), |probes|)
    && !probes[j].stopSeen && now >= next0[j]
  }

  /** The due times after a pass. */
  function NextAfterPass(ms: seq<Mapping>, next0: seq<int>, now: int, probes: seq<Probe>): (next: seq<int>)
    requires |next0| == |ms| == |probes|
    ensures |next| == |ms|
  {
    seq(|ms|, j requires 0 <= j < |ms| =>
      if Polled(next0, now, probes, j) then now + ms[j].pollIntervalMs else next0[j])
  }

  /** A value published to the server: the mapping, its node, the value and the logged ENUM label. */
  datatype Publication = Publication(index: nat, node: NodeId, value: Variant, enumText: Option<string>)

  /** The label the DEBUG line carries: only for an Int32 value of an ENUM mapping. */
  function LabelFor(m: Mapping, v: Variant): Option<string> {
    if v.Int32V? && m.format == Some("ENUM") then Some(EnumLabel(m.enumValues, v.i)) else None
  }

  /** What one successful read publishes: the decoded value, if the registers decode. */
  function DecodedPublication(m: Mapping, j: nat, words: seq<uint16>): (r: Option<Publication>)
    requires |words| == RegisterCount(m.dataType)
    ensures r.Some? ==> r.value.index == j && r.value.node == NodeIdOf(m.opcuaNodeId)
                        && r.value.value.Type() == NodeDataType(m.format)
    ensures r.Some? <==> DecodeFormatted(words, m).Decoded?
    ensures r.Some? ==> r.value.value == DecodeFormatted(words, m).value
                        && r.value.enumText == LabelFor(m, r.value.value)
  {
    RegisterCountMatchesDecoders(m.dataType);
    match DecodeFormatted(words, m)
    case Decoded(v) =>
      DecodedTypeMatchesNode(words, m);
      Some(Publication(j, NodeIdOf(m.opcuaNodeId), v, LabelFor(m, v)))
    case Rejected(_) => None
  }

  /** What mapping j would publish if polled: nothing when the read fails or the value is rejected. */
  function OutcomeOf(m: Mapping, j: nat, p: Probe): Option<Publication>
    requires p.reply.Registers? ==> |p.reply.words| == RegisterCount(m.dataType)
  {
    if p.reply.Registers? then DecodedPublication(m, j, p.reply.words) else None
  }

  /** The outcome of every mapping of the table. */
  function Outcomes(ms: seq<Mapping>, probes: seq<Probe>): (outs: seq<Option<Publication>>)
    requires ProbesFit(ms, probes)
    ensures |outs| == |ms|
  {
    if ms == [] then []
    else
      var n := |ms| - 1;
      Outcomes(ms[..n], probes[..n]) + [OutcomeOf(ms[n], n, probes[n])]
  }

  lemma {:induction false} OutcomesIndex(ms: seq<Mapping>, probes: seq<Probe>, j: nat)
    requires ProbesFit(ms, probes) && j < |ms|
    ensures Outcomes(ms, probes)[j] == OutcomeOf(ms[j], j, probes[j])
  {
    var n := |ms| - 1;
    if j < n {
      OutcomesIndex(ms[..n], probes[..n], j);
    }
  }

  /** A read that publishes: it succeeded and the registers it returned decode. */
  predicate Decodes(m: Mapping, p: Probe) {
    p.reply.Registers? && RegistersRead(m.dataType) <= |p.reply.words|
    && DecodeFormatted(p.reply.words, m).Decoded?
  }

  /**
   * What a decoding read of mapping j publishes: to the mapping's node, the
   * decoded value (of the node's declared type) and the label logged for it.
   */
  predicate PublicationFits(m: Mapping, j: nat, p: Probe, pub: Publication) {
    && Decodes(m, p)
    && pub.index == j && pub.node == NodeIdOf(m.opcuaNodeId)
    && pub.value == DecodeFormatted(p.reply.words, m).value && pub.enumText == LabelFor(m, pub.value)
    && pub.value.Type() == NodeDataType(m.format)
  }

  /** Outcomes as they relate to the table: a publication exactly when the read decodes, and the one it fits. */
  predicate OutcomesFit(ms: seq<Mapping>, probes: seq<Probe>, outs: seq<Option<Publication>>) {
    |outs| == |ms| == |probes|
    && forall j :: 0 <= j < |ms| ==>
         (outs[j].Some? <==> Decodes(ms[j], probes[j]))
         && (outs[j].Some? ==> PublicationFits(ms[j], j, probes[j], outs[j].value))
  }

  lemma OutcomesAreFit(ms: seq<Mapping>, probes: seq<Probe>)
    requires ProbesFit(ms, probes)
    ensures OutcomesFit(ms, probes, Outcomes(ms, probes))
  {
    forall j | 0 <= j < |ms|
      ensures Outcomes(ms, probes)[j] == OutcomeOf(ms[j], j, probes[j])
      ensures probes[j].reply.Registers? ==> RegistersRead(ms[j].dataType) <= |probes[j].reply.words|
    {
      OutcomesIndex(ms, probes, j);
      RegisterCountMatchesDecoders(ms[j].dataType);
    }
  }

  /** What mapping j publishes during the pass. */
  function PublicationAt(next0: seq<int>, now: int, probes: seq<Probe>, outs: seq<Option<Publication>>, j: nat)
    : Option<Publication>
    requires |next0| == |probes| == |outs| && j < |probes|
  {
    if Polled(next0, now, probes, j) then outs[j] else None
  }

  function OptionToSeq<T>(o: Option<T>): seq<T> {
    if o.Some? then [o.value] else []
  }

  /**
   * The publications of mappings 0 .. k-1: each polled mapping whose read
   * succeeded and whose registers decode, in order.
   */
  function Publications(next0: seq<int>, now: int, probes: seq<Probe>, outs: seq<Option<Publication>>, k: nat)
    : (pubs: seq<Publication>)
    requires |next0| == |probes| == |outs| && k <= |probes|
    ensures |pubs| <= k
  {
    if k == 0 then []
    else Publications(next0, now, probes, outs, k - 1) + OptionToSeq(PublicationAt(next0, now, probes, outs, k - 1))
  }

  /**
   * Only polled mappings whose read succeeded and whose registers decode are
   * published, each to its own node with the decoded value, its label and the
   * node's declared type.
   */
  lemma {:induction false} PublicationsAreDecoded(ms: seq<Mapping>, next0: seq<int>, now: int, probes: seq<Probe>,
                                                  outs: seq<Option<Publication>>, k: nat)
    requires |next0| == |ms| && OutcomesFit(ms, probes, outs) && k <= |ms|
    ensures forall p :: p in Publications(next0, now, probes, outs, k) ==>
              p.index < k && Polled(next0, now, probes, p.index)
              && PublicationFits(ms[p.index], p.index, probes[p.index], p)
  {
    if k > 0 {
      PublicationsAreDecoded(ms, next0, now, probes, outs, k - 1);
    }
  }

  /** Publications come in the order of the table, at most one per mapping. */
  lemma {:induction false} PublicationsInOrder(next0: seq<int>, now: int, probes: seq<Probe>,
                                               outs: seq<Option<Publication>>, k: nat)
    requires |next0| == |probes| == |outs| && k <= |probes|
    requires forall j :: 0 <= j < |outs| && outs[j].Some? ==> outs[j].value.index == j
    ensures forall p :: p in Publications(next0, now, probes, outs, k) ==> p.index < k
    ensures forall l, l' :: 0 <= l < l' < |Publications(next0, now, probes, outs, k)| ==>
              Publications(next0, now, probes, outs, k)[l].index < Publications(next0, now, probes, outs, k)[l'].index
  {
    if k > 0 {
      PublicationsInOrder(next0, now, probes, outs, k - 1);
      var before := Publications(next0, now, probes, outs, k - 1);
      var pubs := Publications(next0, now, probes, outs, k);
      forall l, l' | 0 <= l < l' < |pubs|
        ensures pubs[l].index < pubs[l'].index
      {
        assert pubs[l] == before[l] && pubs[l] in before;
        if l' < |before| {
          assert pubs[l'] == before[l'] && pubs[l'] in before;
        }
      }
    }
  }

  /**
   * Conversely, every polled mapping whose read succeeded and whose registers
   * decode is published, with the decoded value and its label.
   */
  lemma {:induction false} PublicationsComplete(ms: seq<Mapping>, next0: seq<int>, now: int, probes: seq<Probe>,
                                                outs: seq<Option<Publication>>, k: nat, j: nat)
    requires |next0| == |ms| && OutcomesFit(ms, probes, outs) && j < k <= |ms|
    requires Polled(next0, now, probes, j) && Decodes(ms[j], probes[j])
    ensures var v := DecodeFormatted(probes[j].reply.words, ms[j]).value;
            Publication(j, NodeIdOf(ms[j].opcuaNodeId), v, LabelFor(ms[j], v)) in Publications(next0, now, probes, outs, k)
    decreases k
  {
    if j < k - 1 {
      PublicationsComplete(ms, next0, now, probes, outs, k - 1, j);
    } else {
      assert PublicationAt(next0, now, probes, outs, j) == outs[j];
    }
  }

  /** UA_Server_writeValue of one publication. */
  function WriteOne(nodes: map<NodeId, Node>, p: Publication): map<NodeId, Node> {
    if WriteStatus(nodes, p.node, p.value) == Good then nodes[p.node := nodes[p.node].(value := p.value)]
    else nodes
  }

  /** The server's nodes after the publications are written in order. */
  function ApplyWrites(nodes: map<NodeId, Node>, pubs: seq<Publication>): map<NodeId, Node> {
    if pubs == [] then nodes
    else WriteOne(ApplyWrites(nodes, pubs[..|pubs| - 1]), pubs[|pubs| - 1])
  }

  lemma ApplyWritesSnoc(nodes: map<NodeId, Node>, pubs: seq<Publication>, extra: seq<Publication>)
    requires |extra| <= 1
    ensures ApplyWrites(nodes, pubs + extra)
         == if extra == [] then ApplyWrites(nodes, pubs) else WriteOne(ApplyWrites(nodes, pubs), extra[0])
  {
    if extra == [] {
      assert pubs + extra == pubs;
    } else {
      assert (pubs + extra)[..|pubs|] == pubs;
    }
  }

  // ------------------------------------------------------ pass properties

  lemma {:induction false} NoStopBefore(next0: seq<int>, now: int, probes: seq<Probe>, i: nat)
    requires |next0| == |probes| && i <= |probes|
    requires forall j :: 0 <= j < i ==> StopsAt(next0, now, probes, j).None?
    ensures PassEndFrom(next0, now, probes, 0) == PassEndFrom(next0, now, probes, i)
  {
    if i > 0 {
      NoStopBefore(next0, now, probes, i - 1);
    }
  }

  lemma {:induction false} NoStopUntilEnd(next0: seq<int>, now: int, probes: seq<Probe>, i: nat)
    requires |next0| == |probes| && i <= |probes|
    ensures forall j :: i <= j < EndIndex(PassEndFrom(next0, now, probes, i), |probes|)
                        ==> StopsAt(next0, now, probes, j).None?
    decreases |probes| - i
  {
    if i < |probes| && StopsAt(next0, now, probes, i).None? {
      NoStopUntilEnd(next0, now, probes, i + 1);
    }
  }

  /**
   * The pass ends at the first mapping where the shutdown check fires or a
   * due mapping's read fails: -2 for an interrupted read during shutdown,
   * -1 otherwise; it completes only if no mapping stops it.
   */
  lemma PassEndMeaning(next0: seq<int>, now: int, probes: seq<Probe>)
    requires |next0| == |probes|
    ensures var e := PassEndFrom(next0, now, probes, 0);
            && (forall j :: 0 <= j < EndIndex(e, |probes|) ==>
                  !probes[j].stopSeen && (now >= next0[j] ==> ReadCode(probes[j]) == 0))
            && (e.StopRequested? ==> e.at < |probes| && probes[e.at].stopSeen)
            && (e.ReadInterrupted? ==> e.at < |probes| && !probes[e.at].stopSeen && now >= next0[e.at]
                                       && probes[e.at].reply.Failed? && probes[e.at].reply.eintr
                                       && probes[e.at].stopAtRead)
            && (e.ReadFailed? ==> e.at < |probes| && !probes[e.at].stopSeen && now >= next0[e.at]
                                  && ReadCode(probes[e.at]) == -1)
  {
    NoStopUntilEnd(next0, now, probes, 0);
    var e := PassEndFrom(next0, now, probes, 0);
    forall j | 0 <= j < EndIndex(e, |probes|)
      ensures !probes[j].stopSeen && (now >= next0[j] ==> ReadCode(probes[j]) == 0)
    {
      assert StopsAt(next0, now, probes, j).None?;
    }
  }

  /**
   * The due-time rule: a polled mapping's next time is now plus its
   * interval (set before the read, so also after a NaN or a failed read);
   * every other mapping keeps its time; mappings before the end are polled
   * exactly when due and those after it are not polled.
   */
  lemma NextAfterPassMeaning(ms: seq<Mapping>, next0: seq<int>, now: int, probes: seq<Probe>, j: nat)
    requires |next0| == |ms| == |probes| && j < |ms|
    ensures var e := PassEndFrom(next0, now, probes, 0);
            && (Polled(next0, now, probes, j) ==> NextAfterPass(ms, next0, now, probes)[j] == now + ms[j].pollIntervalMs)
            && (!Polled(next0, now, probes, j) ==> NextAfterPass(ms, next0, now, probes)[j] == next0[j])
            && (j < EndIndex(e, |ms|) ==> (Polled(next0, now, probes, j) <==> now >= next0[j]))
            && (j > EndIndex(e, |ms|) ==> !Polled(next0, now, probes, j))
            && (e.ReadFailed? || e.ReadInterrupted? ==> Polled(next0, now, probes, e.at))
  {
    PassEndMeaning(next0, now, probes);
  }

  /** A polled mapping with a positive interval is not due again before now + interval. */
  lemma PolledNotDueAgain(ms: seq<Mapping>, next0: seq<int>, now: int, probes: seq<Probe>, j: nat, later: int)
    requires |next0| == |ms| == |probes| && j < |ms|
    requires Polled(next0, now, probes, j) && ms[j].pollIntervalMs > 0
    requires later < now + ms[j].pollIntervalMs
    ensures later < NextAfterPass(ms, next0, now, probes)[j]
    ensures now < NextAfterPass(ms, next0, now, probes)[j]
  {
  }

  /** next_poll_times comes from calloc: on the first pass every mapping reached is due. */
  lemma FirstPassAllDue(ms: seq<Mapping>, now: int, probes: seq<Probe>)
    requires |ms| == |probes| && now >= 0
    ensures var zeros := seq(|ms|, _ => 0);
            forall j :: 0 <= j < EndIndex(PassEndFrom(zeros, now, probes, 0), |ms|) ==> Polled(zeros, now, probes, j)
  {
    var zeros := seq(|ms|, _ => 0);
    PassEndMeaning(zeros, now, probes);
  }

  lemma {:induction false} PublicationsStable(next0: seq<int>, now: int, probes: seq<Probe>,
                                              outs: seq<Option<Publication>>, a: nat, b: nat)
    requires |next0| == |probes| == |outs| && a <= b <= |probes|
    requires forall j :: a <= j < b ==> PublicationAt(next0, now, probes, outs, j).None?
    ensures Publications(next0, now, probes, outs, b) == Publications(next0, now, probes, outs, a)
    decreases b - a
  {
    if a < b {
      PublicationsStable(next0, now, probes, outs, a, b - 1);
    }
  }

  /** Writes change values only: the same node ids, each with its declared type. */
  lemma {:induction false} ApplyWritesKeepsTypes(nodes: map<NodeId, Node>, pubs: seq<Publication>)
    ensures ApplyWrites(nodes, pubs).Keys == nodes.Keys
    ensures forall k :: k in nodes ==> ApplyWrites(nodes, pubs)[k].dataType == nodes[k].dataType
  {
    if pubs != [] {
      ApplyWritesKeepsTypes(nodes, pubs[..|pubs| - 1]);
    }
  }

  /**
   * With distinct node ids, the server add_opcua_nodes built accepts every
   * publication of a pass, whatever was written before it.
   */
  lemma PublicationsAccepted(ms: seq<Mapping>, next0: seq<int>, now: int, probes: seq<Probe>,
                             prior: seq<Publication>, p: Publication)
    requires |next0| == |ms| && ProbesFit(ms, probes)
    requires forall i, j :: 0 <= i < j < |ms| ==> NodeIdOf(ms[i].opcuaNodeId) != NodeIdOf(ms[j].opcuaNodeId)
    requires p in Publications(next0, now, probes, Outcomes(ms, probes), |ms|)
    ensures WriteStatus(ApplyWrites(AddAll(map[], ms), prior), p.node, p.value) == Good
  {
    var built := AddAll(map[], ms);
    OutcomesAreFit(ms, probes);
    PublicationsAreDecoded(ms, next0, now, probes, Outcomes(ms, probes), |ms|);
    AddAllFirstWins(map[], ms, p.index);
    ApplyWritesKeepsTypes(built, prior);
  }

  // ------------------------------------------------------------ the run loop

  const EXIT_SUCCESS: int := 0
  const EXIT_FAILURE: int := 1

  /**
   * What the environment does during one iteration of the while loop: the
   * shutdown check at its head, what a connection attempt does (and the two
   * shutdown checks around it), the clock reading, and the pass's probes.
   */
  datatype Tick = Tick(stopAtHead: bool, connect: ConnectEnv, stopInConnect: bool,
                       stopAfterConnect: bool, now: int, probes: seq<Probe>)

  /** What the loop does, in order: connection attempts, 5 s back-offs and passes. */
  datatype Event = Attempt(outcome: ConnectOutcome) | Backoff | Pass(now: int, end: PassEnd)

  /** The loop's state: due times, node values, published values, connection, events. */
  datatype RunState = RunState(next: seq<int>, nodes: map<NodeId, Node>, log: seq<Publication>,
                               connected: bool, events: seq<Event>)

  datatype Progress = Progress(state: RunState, stopped: bool)

  predicate TicksFit(ms: seq<Mapping>, ticks: seq<Tick>) {
    forall k :: 0 <= k < |ticks| ==> ProbesFit(ms, ticks[k].probes)
  }

  /** The events of one iteration, from the connection at its start and how its pass ends. */
  function TickEvents(connected: bool, t: Tick, end: PassEnd): seq<Event> {
    if t.stopAtHead then []
    else if !connected && ConnectOutcomeOf(t.connect, t.stopInConnect) != Connected then
      [Attempt(ConnectOutcomeOf(t.connect, t.stopInConnect))] + (if t.stopAfterConnect then [] else [Backoff])
    else
      (if connected then [] else [Attempt(Connected)]) + [Pass(t.now, end)]
  }

  /** The pass of one iteration (lines 228-289), made on an open connection. */
  function AfterPass(ms: seq<Mapping>, st: RunState, now: int, probes: seq<Probe>): (r: RunState)
    requires |st.next| == |ms| && ProbesFit(ms, probes)
    ensures |r.next| == |ms|
  {
    var end := PassEndFrom(st.next, now, probes, 0);
    var pubs := Publications(st.next, now, probes, Outcomes(ms, probes), |ms|);
    RunState(NextAfterPass(ms, st.next, now, probes), ApplyWrites(st.nodes, pubs), st.log + pubs,
             !end.ReadFailed?, st.events + [Pass(now, end)])
  }

  /** One iteration of the while loop (lines 217-292). */
  function TickStep(ms: seq<Mapping>, st: RunState, t: Tick): (r: Progress)
    requires |st.next| == |ms| && ProbesFit(ms, t.probes)
    ensures |r.state.next| == |ms|
  {
    var outcome := ConnectOutcomeOf(t.connect, t.stopInConnect);
    if t.stopAtHead then Progress(st, true)
    else if !st.connected && outcome != Connected then
      var tried := st.events + [Attempt(outcome)];
      if t.stopAfterConnect then Progress(st.(events := tried), true)
      else Progress(st.(events := tried + [Backoff]), false)
    else
      var tried := if st.connected then st.events else st.events + [Attempt(Connected)];
      Progress(AfterPass(ms, st.(connected := true, events := tried), t.now, t.probes), false)
  }

  /** The state after the iterations driven by ticks[..k], or when the loop left. */
  function RunUpTo(ms: seq<Mapping>, st0: RunState, ticks: seq<Tick>, k: nat): (r: Progress)
    requires |st0.next| == |ms| && TicksFit(ms, ticks) && k <= |ticks|
    ensures |r.state.next| == |ms|
  {
    if k == 0 then Progress(st0, false)
    else
      var before := RunUpTo(ms, st0, ticks, k - 1);
      if before.stopped then before else TickStep(ms, before.state, ticks[k - 1])
  }

  /**
   * states[k] is where the first k ticks lead. The link is only drawn where
   * RunUpTo itself is mentioned, so a loop that tracks states never unfolds
   * the passes behind it.
   */
  ghost predicate IsTrace(ms: seq<Mapping>, st0: RunState, ticks: seq<Tick>, states: seq<Progress>)
    requires |st0.next| == |ms| && TicksFit(ms, ticks)
  {
    && |states| == |ticks| + 1
    && forall k {:trigger RunUpTo(ms, st0, ticks, k)} :: 0 <= k <= |ticks| ==> states[k] == RunUpTo(ms, st0, ticks, k)
  }

  ghost function Trace(ms: seq<Mapping>, st0: RunState, ticks: seq<Tick>): (states: seq<Progress>)
    requires |st0.next| == |ms| && TicksFit(ms, ticks)
    ensures IsTrace(ms, st0, ticks, states)
  {
    seq(|ticks| + 1, k requires 0 <= k <= |ticks| => RunUpTo(ms, st0, ticks, k))
  }

  /** A trace moves on by one iteration from a state the loop has not left. */
  lemma TraceStep(ms: seq<Mapping>, st0: RunState, ticks: seq<Tick>, states: seq<Progress>, k: nat, st: RunState)
    requires |st0.next| == |ms| && TicksFit(ms, ticks) && IsTrace(ms, st0, ticks, states)
    requires k < |ticks| && states[k] == Progress(st, false)
    ensures |st.next| == |ms| && states[k + 1] == TickStep(ms, st, ticks[k])
  {
    RunUpToStep(ms, st0, ticks, k);
  }

  /** The connection after an event, from the connection before it. */
  function AfterEvent(connected: bool, e: Event): bool {
    match e
    case Attempt(outcome) => outcome == Connected
    case Backoff => connected
    case Pass(_, end) => !end.ReadFailed?
  }

  /** The connection after a sequence of events. */
  function Replay(connected: bool, events: seq<Event>): bool {
    if events == [] then connected
    else AfterEvent(Replay(connected, events[..|events| - 1]), events[|events| - 1])
  }

  /**
   * Whether event e may follow the events before it, given the connection
   * they leave: a pass only while connected, a connection attempt only while
   * disconnected, and a back-off only right after a failed attempt.
   */
  predicate Allowed(connected: bool, before: seq<Event>, e: Event) {
    && (e.Pass? ==> connected)
    && (e.Attempt? ==> !connected)
    && (e.Backoff? ==> before != [] && before[|before| - 1].Attempt? && before[|before| - 1].outcome != Connected)
  }

  /** Every event of the sequence is allowed where it occurs. */
  predicate Ordered(connected: bool, events: seq<Event>) {
    events == []
    || (var n := |events| - 1;
        Ordered(connected, events[..n]) && Allowed(Replay(connected, events[..n]), events[..n], events[n]))
  }

  lemma OrderedSnoc(connected: bool, events: seq<Event>, e: Event)
    requires Ordered(connected, events) && Allowed(Replay(connected, events), events, e)
    ensures Ordered(connected, events + [e])
    ensures Replay(connected, events + [e]) == AfterEvent(Replay(connected, events), e)
  {
    assert (events + [e])[..|events|] == events;
  }

  /** The order, event by event: each event is allowed after the ones before it. */
  lemma {:induction false} OrderedAt(connected: bool, events: seq<Event>, k: nat)
    requires Ordered(connected, events) && k < |events|
    ensures Allowed(Replay(connected, events[..k]), events[..k], events[k])
    decreases |events|
  {
    var n := |events| - 1;
    if k < n {
      OrderedAt(connected, events[..n], k);
      assert events[..n][..k] == events[..k];
    }
  }

  /** One iteration keeps the order, from whatever connection it starts with. */
  lemma TickOrdered(c0: bool, events: seq<Event>, t: Tick, end: PassEnd)
    requires Ordered(c0, events)
    ensures Ordered(c0, events + TickEvents(Replay(c0, events), t, end))
  {
    var connected := Replay(c0, events);
    var outcome := ConnectOutcomeOf(t.connect, t.stopInConnect);
    if t.stopAtHead {
      assert events + TickEvents(connected, t, end) == events;
    } else if !connected && outcome != Connected {
      FailedAttemptOrdered(c0, events, outcome, t.stopAfterConnect);
    } else {
      PassOrdered(c0, events, Pass(t.now, end));
    }
  }

  /** A failed attempt, followed by a back-off unless shutdown is seen. */
  lemma FailedAttemptOrdered(c0: bool, events: seq<Event>, outcome: ConnectOutcome, stop: bool)
    requires Ordered(c0, events) && !Replay(c0, events) && outcome != Connected
    ensures Ordered(c0, events + ([Attempt(outcome)] + (if stop then [] else [Backoff])))
  {
    OrderedSnoc(c0, events, Attempt(outcome));
    if stop {
      assert events + ([Attempt(outcome)] + []) == events + [Attempt(outcome)];
    } else {
      OrderedSnoc(c0, events + [Attempt(outcome)], Backoff);
      assert events + ([Attempt(outcome)] + [Backoff]) == events + [Attempt(outcome)] + [Backoff];
    }
  }

  /** A pass, preceded by a successful attempt when there was no connection. */
  lemma PassOrdered(c0: bool, events: seq<Event>, pass: Event)
    requires Ordered(c0, events) && pass.Pass?
    ensures Ordered(c0, events + ((if Replay(c0, events) then [] else [Attempt(Connected)]) + [pass]))
  {
    if Replay(c0, events) {
      OrderedSnoc(c0, events, pass);
      assert events + ([] + [pass]) == events + [pass];
    } else {
      OrderedSnoc(c0, events, Attempt(Connected));
      OrderedSnoc(c0, events + [Attempt(Connected)], pass);
      assert events + ([Attempt(Connected)] + [pass]) == events + [Attempt(Connected)] + [pass];
    }
  }

  /** Replaying two stretches of events one after the other. */
  lemma {:induction false} ReplayAppend(c: bool, first: seq<Event>, second: seq<Event>)
    ensures Replay(c, first + second) == Replay(Replay(c, first), second)
    decreases |second|
  {
    if second != [] {
      var n := |second| - 1;
      ReplayAppend(c, first, second[..n]);
      assert (first + second)[..|first + second| - 1] == first + second[..n];
    } else {
      assert first + second == first;
    }
  }

  /** One more iteration, when the loop has not left: its events are appended. */
  lemma RunStep(ms: seq<Mapping>, st0: RunState, ticks: seq<Tick>, k: nat)
    requires |st0.next| == |ms| && TicksFit(ms, ticks) && 0 < k <= |ticks|
    requires !RunUpTo(ms, st0, ticks, k - 1).stopped
    ensures var st := RunUpTo(ms, st0, ticks, k - 1).state;
            var added := TickEvents(st.connected, ticks[k - 1], PassEndFrom(st.next, ticks[k - 1].now, ticks[k - 1].probes, 0));
            && RunUpTo(ms, st0, ticks, k).state.events == st.events + added
            && RunUpTo(ms, st0, ticks, k).state.connected == Replay(st.connected, added)
  {
    var st := RunUpTo(ms, st0, ticks, k - 1).state;
    var t := ticks[k - 1];
    var end := PassEndFrom(st.next, t.now, t.probes, 0);
    var outcome := ConnectOutcomeOf(t.connect, t.stopInConnect);
    if t.stopAtHead {
      assert TickEvents(st.connected, t, end) == [];
    } else if !st.connected && outcome != Connected {
      var added := [Attempt(outcome)] + (if t.stopAfterConnect then [] else [Backoff]);
      assert TickEvents(st.connected, t, end) == added;
      assert st.events + [Attempt(outcome)] + (if t.stopAfterConnect then [] else [Backoff]) == st.events + added;
      assert Replay(st.connected, [Attempt(outcome)]) == false;
      if !t.stopAfterConnect {
        assert added[..1] == [Attempt(outcome)];
      }
    } else {
      var added := (if st.connected then [] else [Attempt(Connected)]) + [Pass(t.now, end)];
      assert TickEvents(st.connected, t, end) == added;
      assert (if st.connected then st.events else st.events + [Attempt(Connected)]) + [Pass(t.now, end)]
          == st.events + added;
    }
  }

  /**
   * A run from no events keeps that order, and the connection the loop
   * holds is the one its events leave.
   */
  lemma {:induction false} RunOrdered(ms: seq<Mapping>, st0: RunState, ticks: seq<Tick>, k: nat)
    requires |st0.next| == |ms| && TicksFit(ms, ticks) && k <= |ticks| && st0.events == []
    ensures Ordered(st0.connected, RunUpTo(ms, st0, ticks, k).state.events)
    ensures Replay(st0.connected, RunUpTo(ms, st0, ticks, k).state.events) == RunUpTo(ms, st0, ticks, k).state.connected
  {
    if k > 0 {
      RunOrdered(ms, st0, ticks, k - 1);
      var before := RunUpTo(ms, st0, ticks, k - 1);
      if !before.stopped {
        var st := before.state;
        var t := ticks[k - 1];
        var end := PassEndFrom(st.next, t.now, t.probes, 0);
        RunStep(ms, st0, ticks, k);
        TickOrdered(st0.connected, st.events, t, end);
        ReplayAppend(st0.connected, st.events, TickEvents(st.connected, t, end));
      }
    }
  }

  /** Without a connection at the start, the loop's first action is a connection attempt. */
  lemma FirstEventIsAttempt(events: seq<Event>)
    requires Ordered(false, events) && events != []
    ensures events[0].Attempt?
  {
    OrderedAt(false, events, 0);
    assert events[..0] == [];
  }

  /**
   * After a pass that ended on a failed read (-1) the loop does not poll
   * again before it has reconnected: the next event is a connection attempt.
   */
  lemma ReconnectAfterReadFailure(connected: bool, events: seq<Event>, k: nat)
    requires Ordered(connected, events) && k + 1 < |events|
    requires events[k].Pass? && events[k].end.ReadFailed?
    ensures events[k + 1].Attempt?
  {
    OrderedAt(connected, events, k + 1);
    assert events[..k + 1][..k] == events[..k];
    assert !Replay(connected, events[..k + 1]);
  }

  /** Once the loop has left, later ticks change nothing. */
  lemma {:induction false} StoppedStays(ms: seq<Mapping>, st0: RunState, ticks: seq<Tick>, k: nat, k': nat)
    requires |st0.next| == |ms| && TicksFit(ms, ticks) && k <= k' <= |ticks|
    requires RunUpTo(ms, st0, ticks, k).stopped
    ensures RunUpTo(ms, st0, ticks, k') == RunUpTo(ms, st0, ticks, k)
    decreases k' - k
  {
    if k < k' {
      StoppedStays(ms, st0, ticks, k, k' - 1);
    }
  }

  lemma RunUpToStep(ms: seq<Mapping>, st0: RunState, ticks: seq<Tick>, k: nat)
    requires |st0.next| == |ms| && TicksFit(ms, ticks) && k < |ticks|
    requires !RunUpTo(ms, st0, ticks, k).stopped
    ensures RunUpTo(ms, st0, ticks, k + 1) == TickStep(ms, RunUpTo(ms, st0, ticks, k).state, ticks[k])
  {
  }

  /** Where the loop leaves off is where the whole run ends. */
  lemma RunFinished(ms: seq<Mapping>, st0: RunState, ticks: seq<Tick>, k: nat)
    requires |st0.next| == |ms| && TicksFit(ms, ticks) && k <= |ticks|
    requires |ticks| > 0 && ticks[|ticks| - 1].stopAtHead
    requires k == |ticks| || RunUpTo(ms, st0, ticks, k).stopped
    ensures RunUpTo(ms, st0, ticks, |ticks|) == RunUpTo(ms, st0, ticks, k).(stopped := true)
  {
    RunEndsStopped(ms, st0, ticks);
    if k < |ticks| {
      StoppedStays(ms, st0, ticks, k, |ticks|);
    }
  }

  lemma TickStopped(ms: seq<Mapping>, st: RunState, t: Tick)
    requires |st.next| == |ms| && ProbesFit(ms, t.probes) && t.stopAtHead
    ensures TickStep(ms, st, t) == Progress(st, true)
  {
  }

  lemma TickConnectFailed(ms: seq<Mapping>, st: RunState, t: Tick)
    requires |st.next| == |ms| && ProbesFit(ms, t.probes) && !t.stopAtHead
    requires !st.connected && ConnectOutcomeOf(t.connect, t.stopInConnect) != Connected
    ensures t.stopAfterConnect ==>
              TickStep(ms, st, t)
              == Progress(st.(events := st.events + [Attempt(ConnectOutcomeOf(t.connect, t.stopInConnect))]), true)
    ensures !t.stopAfterConnect ==>
              TickStep(ms, st, t)
              == Progress(st.(events := st.events + [Attempt(ConnectOutcomeOf(t.connect, t.stopInConnect))] + [Backoff]), false)
  {
  }

  lemma TickPassed(ms: seq<Mapping>, st: RunState, t: Tick)
    requires |st.next| == |ms| && ProbesFit(ms, t.probes) && !t.stopAtHead
    requires st.connected || ConnectOutcomeOf(t.connect, t.stopInConnect) == Connected
    ensures TickStep(ms, st, t)
         == Progress(AfterPass(ms, st.(connected := true, events := if st.connected then st.events
                                                                   else st.events + [Attempt(Connected)]),
                               t.now, t.probes), false)
  {
  }

  /** A run whose last tick sees the shutdown request has left the loop by then. */
  lemma RunEndsStopped(ms: seq<Mapping>, st0: RunState, ticks: seq<Tick>)
    requires |st0.next| == |ms| && TicksFit(ms, ticks)
    requires |ticks| > 0 && ticks[|ticks| - 1].stopAtHead
    ensures RunUpTo(ms, st0, ticks, |ticks|).stopped
  {
  }

  class Gateway {
    const settings: Settings
    const mappings: seq<Mapping>
    /** next_poll_times */
    const next: array<int>
    const server: AddressSpace
    /** modbus_ctx: NULL while disconnected */
    var ctx: Context?
    /** The DEBUG lines of published values. */
    var log: seq<Publication>
    /** What the run loop has done: connection attempts, back-offs and passes. */
    var events: seq<Event>

    ghost predicate Valid()
      reads this
    {
      next.Length == |mappings|
    }

    /** The set-up before the loop: the nodes are added and the due times zeroed by calloc. */
    constructor (settings: Settings, ms: seq<Mapping>)
      ensures Valid() && this.settings == settings && mappings == ms
      ensures fresh(next) && next[..] == seq(|ms|, _ => 0)
      ensures fresh(server) && server.nodes == AddAll(map[], ms)
      ensures ctx == null && log == [] && events == []
    {
      this.settings := settings;
      mappings := ms;
      next := new int[|ms|](_ => 0);
      var s := new AddressSpace();
      s.AddNodes(ms);
      server := s;
      ctx := null;
      log := [];
      events := [];
    }

    /** One due mapping (lines 238-279): reset its due time, read it, publish what decodes. */
    method PollMapping(i: nat, now: int, p: Probe) returns (rc: int)
      requires Valid() && ctx != null && i < |mappings|
      requires p.reply.Registers? ==> |p.reply.words| == RegisterCount(mappings[i].dataType)
      modifies next, server, this`log
      ensures rc == ReadCode(p)
      ensures next[..] == old(next[..])[i := now + mappings[i].pollIntervalMs]
      ensures log == old(log) + OptionToSeq(OutcomeOf(mappings[i], i, p))
      ensures server.nodes == ApplyWrites(old(server.nodes), OptionToSeq(OutcomeOf(mappings[i], i, p)))
    {
      var m := mappings[i];
      next[i] := now + m.pollIntervalMs;
      var regs := new uint16[4](_ => 0);
      var device: Device := _ => p.reply;
      var sent;
      rc, sent := ReadModbusData(ctx, m.modbusAddress, m.dataType, regs, device, p.stopAtRead);
      if rc == 0 {
        RegisterCountMatchesDecoders(m.dataType);
        var words := p.reply.words;
        assert regs[..][..RegistersRead(m.dataType)] == words[..RegistersRead(m.dataType)] by {
          assert regs[..sent.count] == words;
        }
        DecodeReadsPrefix(regs[..], words, m);
        var result := DecodeFormatted(regs[..], m);
        if result.Decoded? {
          var v := result.value;
          var enumText: Option<string> := None;
          if v.Int32V? && m.format == Some("ENUM") {
            var name := LookupEnumLabel(m.enumValues, v.i);
            enumText := Some(name);
          }
          var pub := Publication(i, NodeIdOf(m.opcuaNodeId), v, enumText);
          assert Some(pub) == OutcomeOf(m, i, p);
          log := log + [pub];
          var _ := server.UpdateTyped(m, v);
          assert [pub][..0] == [];
        } else {
          assert log == log + [];
        }
      } else {
        assert log == log + [];
      }
    }

    /**
     * One turn of the for loop (lines 231-288): the shutdown check, the
     * due check, then the poll; reports where the pass stops, if it does.
     */
    method VisitMapping(i: nat, now: int, probes: seq<Probe>, ghost next0: seq<int>,
                        ghost outs: seq<Option<Publication>>)
      returns (stop: Option<PassEnd>)
      requires Valid() && ctx != null && ProbesFit(mappings, probes) && i < |mappings|
      requires |next0| == |mappings| && next[i] == next0[i]
      requires outs == Outcomes(mappings, probes)
      requires forall j :: 0 <= j < i ==> StopsAt(next0, now, probes, j).None?
      modifies this`ctx, this`log, next, server, ctx
      ensures stop == StopsAt(next0, now, probes, i)
      ensures next[..] == old(next[..])[i := NextAfterPass(mappings, next0, now, probes)[i]]
      ensures log == old(log) + OptionToSeq(PublicationAt(next0, now, probes, outs, i))
      ensures server.nodes == ApplyWrites(old(server.nodes), OptionToSeq(PublicationAt(next0, now, probes, outs, i)))
      ensures ctx == if stop.Some? && stop.value.ReadFailed? then null else old(ctx)
      ensures stop.Some? && stop.value.ReadFailed? ==> old(ctx).freed && !old(ctx).connected
    {
      OutcomesAreFit(mappings, probes);
      OutcomesIndex(mappings, probes, i);
      if probes[i].stopSeen {
        assert !Polled(next0, now, probes, i);
        assert next[..] == old(next[..])[i := next0[i]];
        assert log == log + [];
        return Some(StopRequested(i));
      }
      if now < next[i] {
        StepNotDue(mappings, next0, now, probes, outs, i);
        assert next[..] == old(next[..])[i := next0[i]];
        assert log == log + [];
        return None;
      }
      var rc := PollMapping(i, now, probes[i]);
      NextAfterPassMeaning(mappings, next0, now, probes, i);
      if rc == 0 {
        StepPolled(mappings, next0, now, probes, outs, i);
        return None;
      }
      NoStopBefore(next0, now, probes, i);
      PassEndMeaning(next0, now, probes);
      assert PassEndFrom(next0, now, probes, i) == StopsAt(next0, now, probes, i).value;
      assert Polled(next0, now, probes, i);
      if rc == -2 {
        stop := Some(ReadInterrupted(i));
      } else {
        Close(ctx);
        ctx := null;
        stop := Some(ReadFailed(i));
      }
    }

    /**
     * The for loop of one iteration (lines 230-289): poll each due mapping,
     * publish what decodes, and stop at a shutdown request or a failed
     * read; -1 drops the connection, -2 keeps it.
     */
    method PollPass(now: int, probes: seq<Probe>) returns (end: PassEnd)
      requires Valid() && ctx != null && ProbesFit(mappings, probes)
      modifies this`ctx, this`log, next, server, ctx
      ensures Valid()
      ensures end == PassEndFrom(old(next[..]), now, probes, 0)
      ensures next[..] == NextAfterPass(mappings, old(next[..]), now, probes)
      ensures log == old(log) + Publications(old(next[..]), now, probes, Outcomes(mappings, probes), |mappings|)
      ensures server.nodes
           == ApplyWrites(old(server.nodes), Publications(old(next[..]), now, probes, Outcomes(mappings, probes), |mappings|))
      ensures ctx == if end.ReadFailed? then null else old(ctx)
      ensures end.ReadFailed? ==> old(ctx).freed && !old(ctx).connected
    {
      ghost var next0 := next[..];
      ghost var outs := Outcomes(mappings, probes);
      OutcomesAreFit(mappings, probes);
      var i;
      i, end := PollLoop(now, probes, next0, outs);
      PassWrapUp(mappings, next0, now, probes, outs, i);
    }

    /**
     * The loop itself: it stops at the first mapping i where StopsAt fires,
     * having polled and published for 0 .. i exactly as VisitMapping does.
     */
    method PollLoop(now: int, probes: seq<Probe>, ghost next0: seq<int>, ghost outs: seq<Option<Publication>>)
      returns (i: nat, end: PassEnd)
      requires Valid() && ctx != null && ProbesFit(mappings, probes)
      requires next0 == next[..] && outs == Outcomes(mappings, probes)
      modifies this`ctx, this`log, next, server, ctx
      ensures i <= |mappings|
      ensures forall j :: 0 <= j < i ==> StopsAt(next0, now, probes, j).None?
      ensures i < |mappings| ==> StopsAt(next0, now, probes, i) == Some(end)
      ensures i == |mappings| ==> end == Completed
      ensures var k := if i < |mappings| then i + 1 else i;
              && next[..] == NextAfterPass(mappings, next0, now, probes)[..k] + next0[k..]
              && log == old(log) + Publications(next0, now, probes, outs, k)
              && server.nodes == ApplyWrites(old(server.nodes), Publications(next0, now, probes, outs, k))
      ensures ctx == if end.ReadFailed? then null else old(ctx)
      ensures end.ReadFailed? ==> old(ctx).freed && !old(ctx).connected
    {
      ghost var target := NextAfterPass(mappings, next0, now, probes);
      ghost var nodes0 := server.nodes;
      ghost var log0 := log;
      var n := |mappings|;
      i := 0;
      end := Completed;
      OutcomesAreFit(mappings, probes);
      while i < n
        invariant 0 <= i <= n
        invariant ctx == old(ctx) && ctx != null && end == Completed
        invariant forall j :: 0 <= j < i ==> StopsAt(next0, now, probes, j).None?
        invariant next[..] == target[..i] + next0[i..]
        invariant log == log0 + Publications(next0, now, probes, outs, i)
        invariant server.nodes == ApplyWrites(nodes0, Publications(next0, now, probes, outs, i))
      {
        ghost var nextBefore := next[..];
        ghost var logBefore := log;
        ghost var nodesBefore := server.nodes;
        var stop := VisitMapping(i, now, probes, next0, outs);
        LoopStep(mappings, next0, now, probes, outs, i, stop, nextBefore, next[..],
                 log0, logBefore, log, nodes0, nodesBefore, server.nodes);
        if stop.Some? {
          end := stop.value;
          return;
        }
        i := i + 1;
      }
    }

    /**
     * One iteration of the while loop (lines 218-291): the shutdown check,
     * a connection attempt when there is no context, then the pass.
     */
    method Iterate(t: Tick) returns (stopped: bool, ghost created: Context?)
      requires Valid() && ProbesFit(mappings, t.probes)
      modifies this`ctx, this`log, this`events, next, server, ctx
      ensures Progress(RunState(next[..], server.nodes, log, ctx != null, events), stopped)
           == TickStep(mappings, old(RunState(next[..], server.nodes, log, ctx != null, events)), t)
      ensures created != null ==> fresh(created)
      ensures ctx != null ==> ctx == old(ctx) || ctx == created
      ensures old(ctx) != null && ctx != old(ctx) ==> old(ctx).freed && !old(ctx).connected
      ensures created != null && ctx != created ==> created.freed && !created.connected
    {
      ghost var before := RunState(next[..], server.nodes, log, ctx != null, events);
      created := null;
      stopped := false;
      if t.stopAtHead {
        stopped := true;
        TickStopped(mappings, before, t);
        return;
      }
      if ctx == null {
        var connected;
        connected, created := Reconnect(t);
        if !connected {
          if t.stopAfterConnect {
            stopped := true;
          } else {
            events := events + [Backoff];
          }
          TickConnectFailed(mappings, before, t);
          return;
        }
      }
      ghost var connectedState := RunState(next[..], server.nodes, log, true, events);
      assert connectedState == before.(connected := true, events := if before.connected then before.events
                                                                    else before.events + [Attempt(Connected)]);
      PassTick(t);
      TickPassed(mappings, before, t);
    }

    /** modbus_tcp_connect from the loop (lines 219-226): the attempt is recorded. */
    method Reconnect(t: Tick) returns (connected: bool, ghost created: Context?)
      requires ctx == null
      modifies this`ctx, this`events
      ensures connected <==> ConnectOutcomeOf(t.connect, t.stopInConnect) == Connected
      ensures events == old(events) + [Attempt(ConnectOutcomeOf(t.connect, t.stopInConnect))]
      ensures ctx != null <==> connected
      ensures created != null ==> fresh(created)
      ensures ctx != null ==> ctx == created
      ensures created != null && ctx != created ==> created.freed && !created.connected
    {
      var c, outcome, logged;
      c, outcome, logged, created := TcpConnect(settings, t.connect, t.stopInConnect);
      ctx := c;
      events := events + [Attempt(outcome)];
      connected := c != null;
    }

    /** The pass of one iteration, recorded as an event. */
    method PassTick(t: Tick)
      requires Valid() && ctx != null && ProbesFit(mappings, t.probes)
      modifies this`ctx, this`log, this`events, next, server, ctx
      ensures RunState(next[..], server.nodes, log, ctx != null, events)
           == AfterPass(mappings, old(RunState(next[..], server.nodes, log, ctx != null, events)), t.now, t.probes)
      ensures ctx == null || ctx == old(ctx)
      ensures ctx == null ==> old(ctx).freed && !old(ctx).connected
    {
      var end := PollPass(t.now, t.probes);
      events := events + [Pass(t.now, end)];
    }

    /**
     * The while loop of lines 217-292 and the clean-up after it (303-308).
     * Each iteration checks for shutdown, connects when there is no context
     * (backing off 5 s after a failed attempt, or leaving if shutdown was
     * requested meanwhile) and makes one pass; afterwards an open context is
     * closed and freed, and the program exits with EXIT_SUCCESS.
     */
    method Run(ticks: seq<Tick>) returns (exit: int, ghost contexts: set<Context>)
      requires Valid() && TicksFit(mappings, ticks) && events == []
      requires |ticks| > 0 && ticks[|ticks| - 1].stopAtHead
      modifies this`ctx, this`log, this`events, next, server, ctx
      ensures exit == EXIT_SUCCESS
      ensures var r := RunUpTo(mappings, RunState(old(next[..]), old(server.nodes), old(log), old(ctx) != null, []),
                               ticks, |ticks|);
              && r.stopped
              && next[..] == r.state.next && server.nodes == r.state.nodes
              && log == r.state.log && events == r.state.events
      ensures ctx == null
      ensures old(ctx) != null ==> old(ctx) in contexts
      ensures forall c :: c in contexts ==> c.freed && !c.connected
    {
      ghost var st0 := RunState(next[..], server.nodes, log, ctx != null, []);
      contexts := RunLoop(ticks, st0, Trace(mappings, st0, ticks));
      if ctx != null {
        Close(ctx);
        ctx := null;
      }
      exit := EXIT_SUCCESS;
    }

    /**
     * The iterations themselves, until the loop leaves; contexts holds every
     * context the run has held or created, and all but the current one are
     * closed and freed.
     */
    method RunLoop(ticks: seq<Tick>, ghost st0: RunState, ghost states: seq<Progress>)
      returns (ghost contexts: set<Context>)
      requires Valid() && TicksFit(mappings, ticks)
      requires st0 == RunState(next[..], server.nodes, log, ctx != null, events)
      requires IsTrace(mappings, st0, ticks, states)
      requires |ticks| > 0 && ticks[|ticks| - 1].stopAtHead
      modifies this`ctx, this`log, this`events, next, server, ctx
      ensures RunUpTo(mappings, st0, ticks, |ticks|)
           == Progress(RunState(next[..], server.nodes, log, ctx != null, events), true)
      ensures ctx != null ==> ctx in contexts && (ctx == old(ctx) || fresh(ctx))
      ensures old(ctx) != null ==> old(ctx) in contexts
      ensures forall c :: c in contexts && c != ctx ==> c.freed && !c.connected
    {
      contexts := if ctx == null then {} else {ctx};
      assert RunUpTo(mappings, st0, ticks, 0) == Progress(st0, false);
      var k := 0;
      var stopped := false;
      while k < |ticks| && !stopped
        invariant 0 <= k <= |ticks| && Valid()
        invariant states[k] == Progress(RunState(next[..], server.nodes, log, ctx != null, events), stopped)
        invariant ctx != null ==> ctx in contexts && (ctx == old(ctx) || fresh(ctx))
        invariant old(ctx) != null ==> old(ctx) in contexts
        invariant forall c :: c in contexts && c != ctx ==> c.freed && !c.connected
      {
        stopped, contexts := Advance(ticks, st0, states, k, contexts);
        k := k + 1;
      }
      RunFinished(mappings, st0, ticks, k);
    }

    /**
     * One turn of the while loop from the state the first k ticks lead to;
     * every context it drops or fails to connect is closed and freed.
     */
    method Advance(ticks: seq<Tick>, ghost st0: RunState, ghost states: seq<Progress>, k: nat,
                   ghost contexts: set<Context>)
      returns (stopped: bool, ghost contexts': set<Context>)
      requires Valid() && TicksFit(mappings, ticks) && |st0.next| == |mappings| && k < |ticks|
      requires IsTrace(mappings, st0, ticks, states)
      requires states[k] == Progress(RunState(next[..], server.nodes, log, ctx != null, events), false)
      requires ctx != null ==> ctx in contexts
      requires forall c :: c in contexts && c != ctx ==> c.freed && !c.connected
      modifies this`ctx, this`log, this`events, next, server, ctx
      ensures states[k + 1] == Progress(RunState(next[..], server.nodes, log, ctx != null, events), stopped)
      ensures contexts <= contexts'
      ensures ctx != null ==> ctx in contexts' && (ctx == old(ctx) || fresh(ctx))
      ensures forall c :: c in contexts' && c != ctx ==> c.freed && !c.connected
    {
      ghost var created;
      ghost var prev := ctx;
      ghost var before := RunState(next[..], server.nodes, log, ctx != null, events);
      label BeforeIteration:
      stopped, created := Iterate(ticks[k]);
      TraceStep(mappings, st0, ticks, states, k, before);
      forall c | c in contexts && c != ctx
        ensures c.freed && !c.connected
      {
        if c != prev {
          assert c.freed == old@BeforeIteration(c.freed) && c.connected == old@BeforeIteration(c.connected);
        }
      }
      contexts' := if created != null then contexts + {created} else contexts;
    }
  }

  /**
   * One turn of the loop in terms of values: what VisitMapping promises
   * carries the loop's account of the pass from mapping i to mapping i + 1.
   */
  lemma LoopStep(ms: seq<Mapping>, next0: seq<int>, now: int, probes: seq<Probe>,
                 outs: seq<Option<Publication>>, i: nat, stop: Option<PassEnd>,
                 nextBefore: seq<int>, nextAfter: seq<int>,
                 log0: seq<Publication>, logBefore: seq<Publication>, logAfter: seq<Publication>,
                 nodes0: map<NodeId, Node>, nodesBefore: map<NodeId, Node>, nodesAfter: map<NodeId, Node>)
    requires |next0| == |ms| && OutcomesFit(ms, probes, outs) && i < |ms|
    requires forall j :: 0 <= j < i ==> StopsAt(next0, now, probes, j).None?
    requires stop == StopsAt(next0, now, probes, i)
    requires nextBefore == NextAfterPass(ms, next0, now, probes)[..i] + next0[i..]
    requires nextAfter == nextBefore[i := NextAfterPass(ms, next0, now, probes)[i]]
    requires logBefore == log0 + Publications(next0, now, probes, outs, i)
    requires logAfter == logBefore + OptionToSeq(PublicationAt(next0, now, probes, outs, i))
    requires nodesBefore == ApplyWrites(nodes0, Publications(next0, now, probes, outs, i))
    requires nodesAfter == ApplyWrites(nodesBefore, OptionToSeq(PublicationAt(next0, now, probes, outs, i)))
    ensures stop.None? ==> forall j :: 0 <= j < i + 1 ==> StopsAt(next0, now, probes, j).None?
    ensures nextAfter == NextAfterPass(ms, next0, now, probes)[..i + 1] + next0[i + 1..]
    ensures logAfter == log0 + Publications(next0, now, probes, outs, i + 1)
    ensures nodesAfter == ApplyWrites(nodes0, Publications(next0, now, probes, outs, i + 1))
  {
    PrefixStep(NextAfterPass(ms, next0, now, probes), next0, i);
    var before := Publications(next0, now, probes, outs, i);
    var added := OptionToSeq(PublicationAt(next0, now, probes, outs, i));
    assert logAfter == log0 + (before + added);
    WritesStep(nodes0, before, added);
  }

  /** Taking one more element of the target in place of the original one. */
  lemma PrefixStep(target: seq<int>, original: seq<int>, i: nat)
    requires |target| == |original| && i < |target|
    ensures (target[..i] + original[i..])[i := target[i]] == target[..i + 1] + original[i + 1..]
  {
    var updated := (target[..i] + original[i..])[i := target[i]];
    forall j | 0 <= j < |target|
      ensures updated[j] == (target[..i + 1] + original[i + 1..])[j]
    {
    }
  }

  /** Writing a sequence then one more publication is writing the longer sequence. */
  lemma WritesStep(nodes0: map<NodeId, Node>, before: seq<Publication>, added: seq<Publication>)
    requires |added| <= 1
    ensures ApplyWrites(ApplyWrites(nodes0, before), added) == ApplyWrites(nodes0, before + added)
  {
    ApplyWritesSnoc(nodes0, before, added);
    if added != [] {
      assert added[..0] == [];
    }
  }

  /** A mapping the pass reaches and that is not due: no stop, no poll, no publication. */
  lemma StepNotDue(ms: seq<Mapping>, next0: seq<int>, now: int, probes: seq<Probe>,
                   outs: seq<Option<Publication>>, i: nat)
    requires |next0| == |ms| && OutcomesFit(ms, probes, outs) && i < |ms|
    requires forall j :: 0 <= j < i ==> StopsAt(next0, now, probes, j).None?
    requires !probes[i].stopSeen && now < next0[i]
    ensures forall j :: 0 <= j < i + 1 ==> StopsAt(next0, now, probes, j).None?
    ensures NextAfterPass(ms, next0, now, probes)[i] == next0[i]
    ensures Publications(next0, now, probes, outs, i + 1) == Publications(next0, now, probes, outs, i)
  {
    assert StopsAt(next0, now, probes, i).None?;
    assert !Polled(next0, now, probes, i);
    assert Publications(next0, now, probes, outs, i) + [] == Publications(next0, now, probes, outs, i);
  }

  /** A due mapping whose read succeeded: no stop, it is polled and publishes its outcome. */
  lemma StepPolled(ms: seq<Mapping>, next0: seq<int>, now: int, probes: seq<Probe>,
                   outs: seq<Option<Publication>>, i: nat)
    requires |next0| == |ms| && OutcomesFit(ms, probes, outs) && i < |ms|
    requires forall j :: 0 <= j < i ==> StopsAt(next0, now, probes, j).None?
    requires !probes[i].stopSeen && now >= next0[i] && ReadCode(probes[i]) == 0
    ensures forall j :: 0 <= j < i + 1 ==> StopsAt(next0, now, probes, j).None?
    ensures NextAfterPass(ms, next0, now, probes)[i] == now + ms[i].pollIntervalMs
    ensures PublicationAt(next0, now, probes, outs, i) == outs[i]
  {
    assert StopsAt(next0, now, probes, i).None?;
    NoStopBefore(next0, now, probes, i + 1);
    assert Polled(next0, now, probes, i);
  }

  /**
   * Where the loop leaves off: the pass ended at i (completed when i is the
   * table size), nothing after i is polled, and i published nothing.
   */
  lemma PassWrapUp(ms: seq<Mapping>, next0: seq<int>, now: int, probes: seq<Probe>,
                   outs: seq<Option<Publication>>, i: nat)
    requires |next0| == |ms| && OutcomesFit(ms, probes, outs) && i <= |ms|
    requires forall j :: 0 <= j < i ==> StopsAt(next0, now, probes, j).None?
    requires i < |ms| ==> StopsAt(next0, now, probes, i).Some?
    ensures PassEndFrom(next0, now, probes, 0) == if i == |ms| then Completed else StopsAt(next0, now, probes, i).value
    ensures Publications(next0, now, probes, outs, |ms|)
         == Publications(next0, now, probes, outs, if i < |ms| then i + 1 else i)
    ensures var k := if i < |ms| then i + 1 else i;
            NextAfterPass(ms, next0, now, probes)[..k] + next0[k..] == NextAfterPass(ms, next0, now, probes)
  {
    var k := if i < |ms| then i + 1 else i;
    var target := NextAfterPass(ms, next0, now, probes);
    NoStopBefore(next0, now, probes, i);
    forall j | k <= j < |ms|
      ensures target[j] == next0[j]
    {
      NextAfterPassMeaning(ms, next0, now, probes, j);
    }
    assert target[..k] + next0[k..] == target;
    if i < |ms| {
      var e := PassEndFrom(next0, now, probes, 0);
      assert EndIndex(e, |ms|) == i;
      PublicationsStable(next0, now, probes, outs, i + 1, |ms|);
    }
  }

  /** The state before the loop: calloc'd due times, the table's nodes, no connection. */
  function InitialState(ms: seq<Mapping>): (st: RunState)
    ensures |st.next| == |ms| && !st.connected && st.events == [] && st.log == []
  {
    RunState(seq(|ms|, _ => 0), AddAll(map[], ms), [], false, [])
  }

  /**
   * main after the configuration is loaded (lines 178-316): the server is
   * set up with a node per mapping; a failed server start-up or a failed
   * allocation of the due times ends the program with EXIT_FAILURE before
   * the loop; otherwise the loop runs until shutdown and the program ends
   * with EXIT_SUCCESS, every connection closed.
   */
  method Serve(settings: Settings, ms: seq<Mapping>, startupSucceeds: bool, timersAllocated: bool, ticks: seq<Tick>)
    returns (exit: int, g: Gateway?)
    requires TicksFit(ms, ticks) && |ticks| > 0 && ticks[|ticks| - 1].stopAtHead
    ensures exit == if startupSucceeds && timersAllocated then EXIT_SUCCESS else EXIT_FAILURE
    ensures g != null <==> exit == EXIT_SUCCESS
    ensures g != null ==>
              var r := RunUpTo(ms, InitialState(ms), ticks, |ticks|).state;
              && g.mappings == ms && g.ctx == null
              && g.next[..] == r.next && g.server.nodes == r.nodes && g.log == r.log && g.events == r.events
              && Ordered(false, g.events)
  {
    if !startupSucceeds || !timersAllocated {
      return EXIT_FAILURE, null;
    }
    g := new Gateway(settings, ms);
    assert RunState(g.next[..], g.server.nodes, g.log, g.ctx != null, []) == InitialState(ms);
    ghost var contexts;
    exit, contexts := g.Run(ticks);
    RunOrdered(ms, InitialState(ms), ticks, |ticks|);
  }
}
