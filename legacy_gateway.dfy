/**
 * The run loop of the legacy main.c: the same per-mapping due times and
 * reconnection as the newer loop, with three differences. The shutdown
 * flag is looked at only at the head of the while loop; any failed read
 * (return code -1 or -2) closes the connection and ends the pass; and each
 * value that process_modbus_value accepts is written as a Float through
 * update_opcua_node_value.
 *
 * As in the newer loop, the clock, the device and connection attempts are
 * inputs: a LegacyProbe says what the device does when mapping i is read,
 * a LegacyTick what the environment does during one loop iteration.
 */
module LegacyGateway {
  import opened Registers
  import opened Config
  import opened ModbusClient
  import opened OpcuaServer
  import LegacyDecoder
  import Decoder
  import Gateway

  // --------------------------------------------------------- one poll pass

  /**
   * What happens when mapping i is read: the device's reply, and whether
   * shutdown is requested when read_modbus_data looks at the flag after a
   * failure (which only changes the return code from -1 to -2).
   */
  datatype LegacyProbe = LegacyProbe(reply: Reply, stopAtRead: bool)

  /** One probe per mapping, and a successful read returns the registers asked for. */
  predicate ProbesFit(ms: seq<LegacyMapping>, probes: seq<LegacyProbe>) {
    |probes| == |ms|
    && forall j :: 0 <= j < |ms| ==>
         (probes[j].reply.Registers? ==> |probes[j].reply.words| == LegacyRegisterCount(ms[j].dataType))
  }

  /** Whether the pass, having reached mapping i, ends there: it is due and its read fails. */
  predicate FailsAt(next0: seq<int>, now: int, probes: seq<LegacyProbe>, i: nat)
    requires i < |next0| && i < |probes|
  {
    now >= next0[i] && probes[i].reply.Failed?
  }

  /** How a pass that has reached mapping i ends: completed, or at the first failed read. */
  function PassEndFrom(next0: seq<int>, now: int, probes: seq<LegacyProbe>, i: nat): (e: Gateway.PassEnd)
    requires |next0| == |probes| && i <= |probes|
    ensures e.Completed? || e.ReadFailed?
    ensures e.ReadFailed? ==> i <= e.at < |probes| && FailsAt(next0, now, probes, e.at)
    decreases |probes| - i
  {
    if i == |probes| then Gateway.Completed
    else if FailsAt(next0, now, probes, i) then Gateway.ReadFailed(i)
    else PassEndFrom(next0, now, probes, i + 1)
  }

  /** Mapping j is polled (its due time reset and a read issued) iff the pass reaches it and it is due. */
  predicate Polled(next0: seq<int>, now: int, probes: seq<LegacyProbe>, j: nat)
    requires |next0| == |probes| && j < |probes|
  {
    j <= Gateway.EndIndex(PassEndFrom(next0, now, probes, 0), |probes|) && now >= next0[j]
  }

  /** The due times after a pass. */
  function NextAfterPass(ms: seq<LegacyMapping>, next0: seq<int>, now: int, probes: seq<LegacyProbe>)
    : (next: seq<int>)
    requires |next0| == |ms| == |probes|
    ensures |next| == |ms|
  {
    seq(|ms|, j requires 0 <= j < |ms| =>
      if Polled(next0, now, probes, j) then now + ms[j].pollIntervalMs else next0[j])
  }

  /** update_opcua_node_value: mapping index, node (namespace 1, the configured id) and the value. */
  datatype Write = Write(index: nat, node: NodeId, value: real)

  /** What mapping j would write if polled: nothing when the read fails or the value is rejected. */
  function OutcomeOf(m: LegacyMapping, j: nat, p: LegacyProbe): (r: Option<Write>)
    requires p.reply.Registers? ==> |p.reply.words| == LegacyRegisterCount(m.dataType)
    ensures r.Some? <==> p.reply.Registers?
                         && LegacyDecoder.ProcessValue(p.reply.words + [0, 0, 0, 0], m).Some?
  {
    if p.reply.Registers? then
      RegisterCountMatchesDecoders(m.dataType);
      var words := p.reply.words;
      LegacyDecoder.ProcessValueReadsPrefix(words, words + [0, 0, 0, 0], m);
      match LegacyDecoder.ProcessValue(words, m)
      case Some(v) => Some(Write(j, NodeIdOf(m.opcuaNodeId), v))
      case None => None
    else None
  }

  /** The outcome of every mapping of the table. */
  function Outcomes(ms: seq<LegacyMapping>, probes: seq<LegacyProbe>): (outs: seq<Option<Write>>)
    requires ProbesFit(ms, probes)
    ensures |outs| == |ms|
  {
    if ms == [] then []
    else
      var n := |ms| - 1;
      Outcomes(ms[..n], probes[..n]) + [OutcomeOf(ms[n], n, probes[n])]
  }

  lemma {:induction false} OutcomesIndex(ms: seq<LegacyMapping>, probes: seq<LegacyProbe>, j: nat)
    requires ProbesFit(ms, probes) && j < |ms|
    ensures Outcomes(ms, probes)[j] == OutcomeOf(ms[j], j, probes[j])
  {
    var n := |ms| - 1;
    if j < n {
      OutcomesIndex(ms[..n], probes[..n], j);
    }
  }

  /**
   * Outcomes as they relate to the table: a write only after a successful
   * read, for the mapping's own node, carrying the value process_modbus_value
   * accepted for the registers read.
   */
  predicate OutcomesFit(ms: seq<LegacyMapping>, probes: seq<LegacyProbe>, outs: seq<Option<Write>>) {
    |outs| == |ms| == |probes|
    && forall j :: 0 <= j < |ms| ==>
         (outs[j].Some? <==> probes[j].reply.Registers?
                             && LegacyDecoder.ProcessValue(probes[j].reply.words + [0, 0, 0, 0], ms[j]).Some?)
         && (outs[j].Some? ==>
               outs[j].value.index == j && outs[j].value.node == NodeIdOf(ms[j].opcuaNodeId)
               && Some(outs[j].value.value) == LegacyDecoder.ProcessValue(probes[j].reply.words + [0, 0, 0, 0], ms[j]))
  }

  lemma OutcomesAreFit(ms: seq<LegacyMapping>, probes: seq<LegacyProbe>)
    requires ProbesFit(ms, probes)
    ensures OutcomesFit(ms, probes, Outcomes(ms, probes))
  {
    forall j | 0 <= j < |ms|
      ensures Outcomes(ms, probes)[j] == OutcomeOf(ms[j], j, probes[j])
    {
      OutcomesIndex(ms, probes, j);
    }
    forall j | 0 <= j < |ms| && probes[j].reply.Registers?
      ensures OutcomeOf(ms[j], j, probes[j]).Some? ==>
                Some(OutcomeOf(ms[j], j, probes[j]).value.value)
                == LegacyDecoder.ProcessValue(probes[j].reply.words + [0, 0, 0, 0], ms[j])
    {
      var words := probes[j].reply.words;
      RegisterCountMatchesDecoders(ms[j].dataType);
      LegacyDecoder.ProcessValueReadsPrefix(words, words + [0, 0, 0, 0], ms[j]);
    }
  }

  /** What mapping j writes during the pass. */
  function WriteAt(next0: seq<int>, now: int, probes: seq<LegacyProbe>, outs: seq<Option<Write>>, j: nat)
    : Option<Write>
    requires |next0| == |probes| == |outs| && j < |probes|
  {
    if Polled(next0, now, probes, j) then outs[j] else None
  }

  /** The writes of mappings 0 .. k-1, in order. */
  function Writes(next0: seq<int>, now: int, probes: seq<LegacyProbe>, outs: seq<Option<Write>>, k: nat)
    : (ws: seq<Write>)
    requires |next0| == |probes| == |outs| && k <= |probes|
    ensures |ws| <= k
  {
    if k == 0 then []
    else Writes(next0, now, probes, outs, k - 1) + Gateway.OptionToSeq(WriteAt(next0, now, probes, outs, k - 1))
  }

  /** What the pass writes for a polled mapping: the value accepted for the registers read, to its node. */
  predicate WriteFits(ms: seq<LegacyMapping>, next0: seq<int>, now: int, probes: seq<LegacyProbe>, w: Write)
    requires |next0| == |ms| == |probes|
  {
    && w.index < |ms| && Polled(next0, now, probes, w.index) && probes[w.index].reply.Registers?
    && w.node == NodeIdOf(ms[w.index].opcuaNodeId)
    && Some(w.value) == LegacyDecoder.ProcessValue(probes[w.index].reply.words + [0, 0, 0, 0], ms[w.index])
  }

  /**
   * Only polled mappings whose read succeeded and whose registers
   * process_modbus_value accepts are written, each to its own node with the
   * accepted value, in the order of the table.
   */
  lemma {:induction false} WritesAreDecoded(ms: seq<LegacyMapping>, next0: seq<int>, now: int,
                                            probes: seq<LegacyProbe>, outs: seq<Option<Write>>, k: nat)
    requires |next0| == |ms| && OutcomesFit(ms, probes, outs) && k <= |ms|
    ensures forall l :: 0 <= l < |Writes(next0, now, probes, outs, k)| ==>
              Writes(next0, now, probes, outs, k)[l].index < k
              && WriteFits(ms, next0, now, probes, Writes(next0, now, probes, outs, k)[l])
    ensures forall l, l' :: 0 <= l < l' < |Writes(next0, now, probes, outs, k)| ==>
              Writes(next0, now, probes, outs, k)[l].index < Writes(next0, now, probes, outs, k)[l'].index
  {
    if k > 0 {
      WritesAreDecoded(ms, next0, now, probes, outs, k - 1);
      var before := Writes(next0, now, probes, outs, k - 1);
      var ws := Writes(next0, now, probes, outs, k);
      forall l | 0 <= l < |ws|
        ensures ws[l].index < k && WriteFits(ms, next0, now, probes, ws[l])
      {
        if l < |before| {
          assert ws[l] == before[l];
        }
      }
    }
  }

  /**
   * Conversely, every polled mapping whose read succeeded and whose
   * registers process_modbus_value accepts is written.
   */
  lemma {:induction false} WritesComplete(ms: seq<LegacyMapping>, next0: seq<int>, now: int,
                                          probes: seq<LegacyProbe>, outs: seq<Option<Write>>, k: nat, j: nat)
    requires |next0| == |ms| && OutcomesFit(ms, probes, outs) && j < k <= |ms|
    requires Polled(next0, now, probes, j) && probes[j].reply.Registers?
    requires LegacyDecoder.ProcessValue(probes[j].reply.words + [0, 0, 0, 0], ms[j]).Some?
    ensures Write(j, NodeIdOf(ms[j].opcuaNodeId), LegacyDecoder.ProcessValue(probes[j].reply.words + [0, 0, 0, 0], ms[j]).value)
            in Writes(next0, now, probes, outs, k)
    decreases k
  {
    if j < k - 1 {
      WritesComplete(ms, next0, now, probes, outs, k - 1, j);
    } else {
      assert WriteAt(next0, now, probes, outs, j) == outs[j];
    }
  }

  lemma {:induction false} WritesStable(next0: seq<int>, now: int, probes: seq<LegacyProbe>,
                                        outs: seq<Option<Write>>, a: nat, b: nat)
    requires |next0| == |probes| == |outs| && a <= b <= |probes|
    requires forall j :: a <= j < b ==> WriteAt(next0, now, probes, outs, j).None?
    ensures Writes(next0, now, probes, outs, b) == Writes(next0, now, probes, outs, a)
    decreases b - a
  {
    if a < b {
      WritesStable(next0, now, probes, outs, a, b - 1);
    }
  }

  // ------------------------------------------------------ pass properties

  lemma {:induction false} NoFailureBefore(next0: seq<int>, now: int, probes: seq<LegacyProbe>, i: nat)
    requires |next0| == |probes| && i <= |probes|
    requires forall j :: 0 <= j < i ==> !FailsAt(next0, now, probes, j)
    ensures PassEndFrom(next0, now, probes, 0) == PassEndFrom(next0, now, probes, i)
  {
    if i > 0 {
      NoFailureBefore(next0, now, probes, i - 1);
    }
  }

  lemma {:induction false} NoFailureUntilEnd(next0: seq<int>, now: int, probes: seq<LegacyProbe>, i: nat)
    requires |next0| == |probes| && i <= |probes|
    ensures forall j :: i <= j < Gateway.EndIndex(PassEndFrom(next0, now, probes, i), |probes|)
                        ==> !FailsAt(next0, now, probes, j)
    decreases |probes| - i
  {
    if i < |probes| && !FailsAt(next0, now, probes, i) {
      NoFailureUntilEnd(next0, now, probes, i + 1);
    }
  }

  /**
   * The pass ends at the first due mapping whose read fails, whatever the
   * return code (-1 or -2), and completes only if every due read succeeds;
   * no shutdown request ends it early.
   */
  lemma PassEndMeaning(next0: seq<int>, now: int, probes: seq<LegacyProbe>)
    requires |next0| == |probes|
    ensures var e := PassEndFrom(next0, now, probes, 0);
            && (e.Completed? || e.ReadFailed?)
            && (forall j :: 0 <= j < Gateway.EndIndex(e, |probes|) ==>
                  now >= next0[j] ==> probes[j].reply.Registers?)
            && (e.ReadFailed? ==> e.at < |probes| && now >= next0[e.at] && probes[e.at].reply.Failed?)
  {
    NoFailureUntilEnd(next0, now, probes, 0);
    var e := PassEndFrom(next0, now, probes, 0);
    forall j | 0 <= j < Gateway.EndIndex(e, |probes|)
      ensures now >= next0[j] ==> probes[j].reply.Registers?
    {
      assert !FailsAt(next0, now, probes, j);
    }
  }

  /**
   * The due-time rule: a polled mapping's next time is now plus its
   * interval (set before the read, so also after a rejected value or a
   * failed read); every other mapping keeps its time; mappings before the
   * end are polled exactly when due and those after it are not polled.
   */
  lemma NextAfterPassMeaning(ms: seq<LegacyMapping>, next0: seq<int>, now: int, probes: seq<LegacyProbe>, j: nat)
    requires |next0| == |ms| == |probes| && j < |ms|
    ensures var e := PassEndFrom(next0, now, probes, 0);
            && (Polled(next0, now, probes, j) ==> NextAfterPass(ms, next0, now, probes)[j] == now + ms[j].pollIntervalMs)
            && (!Polled(next0, now, probes, j) ==> NextAfterPass(ms, next0, now, probes)[j] == next0[j])
            && (j <= Gateway.EndIndex(e, |ms|) ==> (Polled(next0, now, probes, j) <==> now >= next0[j]))
            && (j > Gateway.EndIndex(e, |ms|) ==> !Polled(next0, now, probes, j))
            && (e.ReadFailed? ==> Polled(next0, now, probes, e.at))
  {
    PassEndMeaning(next0, now, probes);
  }

  /** next_poll_times comes from calloc: on the first pass every mapping the pass reaches is polled. */
  lemma FirstPassAllDue(ms: seq<LegacyMapping>, now: int, probes: seq<LegacyProbe>)
    requires |ms| == |probes| && now >= 0
    ensures var zeros := seq(|ms|, _ => 0);
            forall j :: 0 <= j <= Gateway.EndIndex(PassEndFrom(zeros, now, probes, 0), |ms|) && j < |ms|
                        ==> Polled(zeros, now, probes, j)
  {
  }

  // ------------------------------------------------------------ the run loop

  /**
   * What the environment does during one iteration of the while loop: the
   * running check at its head, what a connection attempt does (and whether
   * shutdown is requested when it fails), the clock reading, the probes.
   */
  datatype LegacyTick = LegacyTick(stopAtHead: bool, connect: ConnectEnv, stopInConnect: bool,
                                   now: int, probes: seq<LegacyProbe>)

  /** The loop's state: due times, the values written, connection, events. */
  datatype RunState = RunState(next: seq<int>, writes: seq<Write>, connected: bool, events: seq<Gateway.Event>)

  datatype Progress = Progress(state: RunState, stopped: bool)

  predicate TicksFit(ms: seq<LegacyMapping>, ticks: seq<LegacyTick>) {
    forall k :: 0 <= k < |ticks| ==> ProbesFit(ms, ticks[k].probes)
  }

  /** The events of one iteration: a failed attempt is always followed by the 5 s back-off. */
  function TickEvents(connected: bool, t: LegacyTick, end: Gateway.PassEnd): seq<Gateway.Event> {
    if t.stopAtHead then []
    else if !connected && ConnectOutcomeOf(t.connect, t.stopInConnect) != Connected then
      [Gateway.Attempt(ConnectOutcomeOf(t.connect, t.stopInConnect)), Gateway.Backoff]
    else
      (if connected then [] else [Gateway.Attempt(Connected)]) + [Gateway.Pass(t.now, end)]
  }

  /** The pass of one iteration (lines 123-153), made on an open connection. */
  function AfterPass(ms: seq<LegacyMapping>, st: RunState, now: int, probes: seq<LegacyProbe>): (r: RunState)
    requires |st.next| == |ms| && ProbesFit(ms, probes)
    ensures |r.next| == |ms|
  {
    var end := PassEndFrom(st.next, now, probes, 0);
    var ws := Writes(st.next, now, probes, Outcomes(ms, probes), |ms|);
    RunState(NextAfterPass(ms, st.next, now, probes), st.writes + ws, !end.ReadFailed?,
             st.events + [Gateway.Pass(now, end)])
  }

  /** One iteration of the while loop (lines 113-159). */
  function TickStep(ms: seq<LegacyMapping>, st: RunState, t: LegacyTick): (r: Progress)
    requires |st.next| == |ms| && ProbesFit(ms, t.probes)
    ensures |r.state.next| == |ms|
  {
    var outcome := ConnectOutcomeOf(t.connect, t.stopInConnect);
    if t.stopAtHead then Progress(st, true)
    else if !st.connected && outcome != Connected then
      Progress(st.(events := st.events + [Gateway.Attempt(outcome), Gateway.Backoff]), false)
    else
      var tried := if st.connected then st.events else st.events + [Gateway.Attempt(Connected)];
      Progress(AfterPass(ms, st.(connected := true, events := tried), t.now, t.probes), false)
  }

  /** The state after the iterations driven by ticks[..k], or when the loop left. */
  function RunUpTo(ms: seq<LegacyMapping>, st0: RunState, ticks: seq<LegacyTick>, k: nat): (r: Progress)
    requires |st0.next| == |ms| && TicksFit(ms, ticks) && k <= |ticks|
    ensures |r.state.next| == |ms|
  {
    if k == 0 then Progress(st0, false)
    else
      var before := RunUpTo(ms, st0, ticks, k - 1);
      if before.stopped then before else TickStep(ms, before.state, ticks[k - 1])
  }

  /**
   * states[k] is where the first k ticks lead; as in the newer loop, the
   * link is only drawn where RunUpTo itself is mentioned.
   */
  ghost predicate IsTrace(ms: seq<LegacyMapping>, st0: RunState, ticks: seq<LegacyTick>, states: seq<Progress>)
    requires |st0.next| == |ms| && TicksFit(ms, ticks)
  {
    && |states| == |ticks| + 1
    && forall k {:trigger RunUpTo(ms, st0, ticks, k)} :: 0 <= k <= |ticks| ==> states[k] == RunUpTo(ms, st0, ticks, k)
  }

  ghost function Trace(ms: seq<LegacyMapping>, st0: RunState, ticks: seq<LegacyTick>): (states: seq<Progress>)
    requires |st0.next| == |ms| && TicksFit(ms, ticks)
    ensures IsTrace(ms, st0, ticks, states)
  {
    seq(|ticks| + 1, k requires 0 <= k <= |ticks| => RunUpTo(ms, st0, ticks, k))
  }

  /** A trace moves on by one iteration from a state the loop has not left. */
  lemma TraceStep(ms: seq<LegacyMapping>, st0: RunState, ticks: seq<LegacyTick>, states: seq<Progress>, k: nat, st: RunState)
    requires |st0.next| == |ms| && TicksFit(ms, ticks) && IsTrace(ms, st0, ticks, states)
    requires k < |ticks| && states[k] == Progress(st, false)
    ensures |st.next| == |ms| && states[k + 1] == TickStep(ms, st, ticks[k])
  {
    RunUpToStep(ms, st0, ticks, k);
  }

  /** One iteration keeps the order of events, from whatever connection it starts with. */
  lemma TickOrdered(c0: bool, events: seq<Gateway.Event>, t: LegacyTick, end: Gateway.PassEnd)
    requires Gateway.Ordered(c0, events)
    ensures Gateway.Ordered(c0, events + TickEvents(Gateway.Replay(c0, events), t, end))
  {
    var connected := Gateway.Replay(c0, events);
    var outcome := ConnectOutcomeOf(t.connect, t.stopInConnect);
    if t.stopAtHead {
      assert events + TickEvents(connected, t, end) == events;
    } else if !connected && outcome != Connected {
      Gateway.FailedAttemptOrdered(c0, events, outcome, false);
      assert [Gateway.Attempt(outcome), Gateway.Backoff]
          == [Gateway.Attempt(outcome)] + (if false then [] else [Gateway.Backoff]);
    } else {
      Gateway.PassOrdered(c0, events, Gateway.Pass(t.now, end));
    }
  }

  /** The events one iteration appends, and the connection it leaves behind. */
  lemma TickStepEvents(ms: seq<LegacyMapping>, st: RunState, t: LegacyTick)
    requires |st.next| == |ms| && ProbesFit(ms, t.probes)
    ensures var added := TickEvents(st.connected, t, PassEndFrom(st.next, t.now, t.probes, 0));
            && TickStep(ms, st, t).state.events == st.events + added
            && TickStep(ms, st, t).state.connected == Gateway.Replay(st.connected, added)
  {
    if t.stopAtHead {
      assert TickEvents(st.connected, t, PassEndFrom(st.next, t.now, t.probes, 0)) == [];
    } else if !st.connected && ConnectOutcomeOf(t.connect, t.stopInConnect) != Connected {
      FailedTickEvents(ms, st, t);
    } else {
      PassTickEvents(ms, st, t);
    }
  }

  lemma FailedTickEvents(ms: seq<LegacyMapping>, st: RunState, t: LegacyTick)
    requires |st.next| == |ms| && ProbesFit(ms, t.probes)
    requires !t.stopAtHead && !st.connected && ConnectOutcomeOf(t.connect, t.stopInConnect) != Connected
    ensures var added := TickEvents(st.connected, t, PassEndFrom(st.next, t.now, t.probes, 0));
            && TickStep(ms, st, t).state.events == st.events + added
            && TickStep(ms, st, t).state.connected == Gateway.Replay(st.connected, added)
  {
    var outcome := ConnectOutcomeOf(t.connect, t.stopInConnect);
    var added := [Gateway.Attempt(outcome), Gateway.Backoff];
    assert added[..1] == [Gateway.Attempt(outcome)] && [Gateway.Attempt(outcome)][..0] == [];
    assert Gateway.Replay(st.connected, [Gateway.Attempt(outcome)]) == false;
  }

  lemma PassTickEvents(ms: seq<LegacyMapping>, st: RunState, t: LegacyTick)
    requires |st.next| == |ms| && ProbesFit(ms, t.probes)
    requires !t.stopAtHead && (st.connected || ConnectOutcomeOf(t.connect, t.stopInConnect) == Connected)
    ensures var added := TickEvents(st.connected, t, PassEndFrom(st.next, t.now, t.probes, 0));
            && TickStep(ms, st, t).state.events == st.events + added
            && TickStep(ms, st, t).state.connected == Gateway.Replay(st.connected, added)
  {
    var end := PassEndFrom(st.next, t.now, t.probes, 0);
    var added := (if st.connected then [] else [Gateway.Attempt(Connected)]) + [Gateway.Pass(t.now, end)];
    assert TickEvents(st.connected, t, end) == added;
    assert (if st.connected then st.events else st.events + [Gateway.Attempt(Connected)]) + [Gateway.Pass(t.now, end)]
        == st.events + added;
  }

  lemma RunStep(ms: seq<LegacyMapping>, st0: RunState, ticks: seq<LegacyTick>, k: nat)
    requires |st0.next| == |ms| && TicksFit(ms, ticks) && 0 < k <= |ticks|
    requires !RunUpTo(ms, st0, ticks, k - 1).stopped
    ensures var st := RunUpTo(ms, st0, ticks, k - 1).state;
            var added := TickEvents(st.connected, ticks[k - 1], PassEndFrom(st.next, ticks[k - 1].now, ticks[k - 1].probes, 0));
            && RunUpTo(ms, st0, ticks, k).state.events == st.events + added
            && RunUpTo(ms, st0, ticks, k).state.connected == Gateway.Replay(st.connected, added)
  {
    RunUpToStep(ms, st0, ticks, k - 1);
    TickStepEvents(ms, RunUpTo(ms, st0, ticks, k - 1).state, ticks[k - 1]);
  }

  /**
   * A run from no events keeps the order of the newer loop (a pass only
   * while connected, an attempt only while disconnected, a back-off only
   * after a failed attempt), and the connection the loop holds is the one
   * its events leave.
   */
  lemma {:induction false} RunOrdered(ms: seq<LegacyMapping>, st0: RunState, ticks: seq<LegacyTick>, k: nat)
    requires |st0.next| == |ms| && TicksFit(ms, ticks) && k <= |ticks| && st0.events == []
    ensures Gateway.Ordered(st0.connected, RunUpTo(ms, st0, ticks, k).state.events)
    ensures Gateway.Replay(st0.connected, RunUpTo(ms, st0, ticks, k).state.events)
         == RunUpTo(ms, st0, ticks, k).state.connected
  {
    if k > 0 {
      RunOrdered(ms, st0, ticks, k - 1);
      var before := RunUpTo(ms, st0, ticks, k - 1);
      if !before.stopped {
        var st := before.state;
        var t := ticks[k - 1];
        var end := PassEndFrom(st.next, t.now, t.probes, 0);
        RunStep(ms, st0, ticks, k);
        TickOrdered(st0.connected, st.events, t, end);
        Gateway.ReplayAppend(st0.connected, st.events, TickEvents(st.connected, t, end));
      }
    }
  }

  /** Every failed connection attempt is immediately followed by the back-off. */
  predicate BacksOff(events: seq<Gateway.Event>) {
    forall k :: 0 <= k < |events| && events[k].Attempt? && events[k].outcome != Connected
                ==> k + 1 < |events| && events[k + 1].Backoff?
  }

  lemma BacksOffAppend(events: seq<Gateway.Event>, connected: bool, t: LegacyTick, end: Gateway.PassEnd)
    requires BacksOff(events)
    ensures BacksOff(events + TickEvents(connected, t, end))
  {
    var added := TickEvents(connected, t, end);
    assert BacksOff(added);
    var all := events + added;
    forall k | 0 <= k < |all| && all[k].Attempt? && all[k].outcome != Connected
      ensures k + 1 < |all| && all[k + 1].Backoff?
    {
      if k < |events| {
        assert events[k] == all[k];
      } else {
        assert added[k - |events|] == all[k];
      }
    }
  }

  /**
   * Unlike the newer loop, which leaves at once when shutdown is requested
   * during a failed connection attempt, the legacy loop always sleeps the
   * 5 s back-off after a failed attempt.
   */
  lemma TickBacksOff(ms: seq<LegacyMapping>, st: RunState, t: LegacyTick)
    requires |st.next| == |ms| && ProbesFit(ms, t.probes) && BacksOff(st.events)
    ensures BacksOff(TickStep(ms, st, t).state.events)
  {
    TickStepEvents(ms, st, t);
    BacksOffAppend(st.events, st.connected, t, PassEndFrom(st.next, t.now, t.probes, 0));
  }

  lemma {:induction false} RunBacksOff(ms: seq<LegacyMapping>, st0: RunState, ticks: seq<LegacyTick>, k: nat)
    requires |st0.next| == |ms| && TicksFit(ms, ticks) && k <= |ticks| && st0.events == []
    ensures BacksOff(RunUpTo(ms, st0, ticks, k).state.events)
  {
    if k > 0 {
      RunBacksOff(ms, st0, ticks, k - 1);
      var before := RunUpTo(ms, st0, ticks, k - 1);
      if !before.stopped {
        RunUpToStep(ms, st0, ticks, k - 1);
        TickBacksOff(ms, before.state, ticks[k - 1]);
      }
    }
  }

  /** Once the loop has left, later ticks change nothing. */
  lemma {:induction false} StoppedStays(ms: seq<LegacyMapping>, st0: RunState, ticks: seq<LegacyTick>, k: nat, k': nat)
    requires |st0.next| == |ms| && TicksFit(ms, ticks) && k <= k' <= |ticks|
    requires RunUpTo(ms, st0, ticks, k).stopped
    ensures RunUpTo(ms, st0, ticks, k') == RunUpTo(ms, st0, ticks, k)
    decreases k' - k
  {
    if k < k' {
      StoppedStays(ms, st0, ticks, k, k' - 1);
    }
  }

  lemma RunUpToStep(ms: seq<LegacyMapping>, st0: RunState, ticks: seq<LegacyTick>, k: nat)
    requires |st0.next| == |ms| && TicksFit(ms, ticks) && k < |ticks|
    requires !RunUpTo(ms, st0, ticks, k).stopped
    ensures RunUpTo(ms, st0, ticks, k + 1) == TickStep(ms, RunUpTo(ms, st0, ticks, k).state, ticks[k])
  {
  }

  /** A run whose last tick sees running cleared has left the loop by then. */
  lemma RunEndsStopped(ms: seq<LegacyMapping>, st0: RunState, ticks: seq<LegacyTick>)
    requires |st0.next| == |ms| && TicksFit(ms, ticks)
    requires |ticks| > 0 && ticks[|ticks| - 1].stopAtHead
    ensures RunUpTo(ms, st0, ticks, |ticks|).stopped
  {
  }

  /** Where the loop leaves off is where the whole run ends. */
  lemma RunFinished(ms: seq<LegacyMapping>, st0: RunState, ticks: seq<LegacyTick>, k: nat)
    requires |st0.next| == |ms| && TicksFit(ms, ticks) && k <= |ticks|
    requires |ticks| > 0 && ticks[|ticks| - 1].stopAtHead
    requires k == |ticks| || RunUpTo(ms, st0, ticks, k).stopped
    ensures RunUpTo(ms, st0, ticks, |ticks|) == RunUpTo(ms, st0, ticks, k).(stopped := true)
  {
    RunEndsStopped(ms, st0, ticks);
    if k < |ticks| {
      StoppedStays(ms, st0, ticks, k, |ticks|);
    }
  }

  lemma TickStopped(ms: seq<LegacyMapping>, st: RunState, t: LegacyTick)
    requires |st.next| == |ms| && ProbesFit(ms, t.probes) && t.stopAtHead
    ensures TickStep(ms, st, t) == Progress(st, true)
  {
  }

  lemma TickConnectFailed(ms: seq<LegacyMapping>, st: RunState, t: LegacyTick)
    requires |st.next| == |ms| && ProbesFit(ms, t.probes) && !t.stopAtHead
    requires !st.connected && ConnectOutcomeOf(t.connect, t.stopInConnect) != Connected
    ensures TickStep(ms, st, t)
         == Progress(st.(events := st.events + [Gateway.Attempt(ConnectOutcomeOf(t.connect, t.stopInConnect))]
                                             + [Gateway.Backoff]), false)
  {
    assert st.events + [Gateway.Attempt(ConnectOutcomeOf(t.connect, t.stopInConnect)), Gateway.Backoff]
        == st.events + [Gateway.Attempt(ConnectOutcomeOf(t.connect, t.stopInConnect))] + [Gateway.Backoff];
  }

  lemma TickPassed(ms: seq<LegacyMapping>, st: RunState, t: LegacyTick)
    requires |st.next| == |ms| && ProbesFit(ms, t.probes) && !t.stopAtHead
    requires st.connected || ConnectOutcomeOf(t.connect, t.stopInConnect) == Connected
    ensures TickStep(ms, st, t)
         == Progress(AfterPass(ms, st.(connected := true, events := if st.connected then st.events
                                                                   else st.events + [Gateway.Attempt(Connected)]),
                               t.now, t.probes), false)
  {
  }

  class LegacyGateway {
    const settings: Settings
    const mappings: seq<LegacyMapping>
    /** next_poll_times */
    const next: array<int>
    /** modbus_ctx: NULL while disconnected */
    var ctx: Context?
    /** The update_opcua_node_value calls made, in order. */
    var writes: seq<Write>
    /** What the run loop has done: connection attempts, back-offs and passes. */
    var events: seq<Gateway.Event>

    ghost predicate Valid()
      reads this
    {
      next.Length == |mappings|
    }

    /** The state before the loop: the due times zeroed by calloc, no connection. */
    constructor (settings: Settings, ms: seq<LegacyMapping>)
      ensures Valid() && this.settings == settings && mappings == ms
      ensures fresh(next) && next[..] == seq(|ms|, _ => 0)
      ensures ctx == null && writes == [] && events == []
    {
      this.settings := settings;
      mappings := ms;
      next := new int[|ms|](_ => 0);
      ctx := null;
      writes := [];
      events := [];
    }

    /**
     * One due mapping (lines 131-152 up to the error branch): reset its due
     * time, read it into a four-register buffer and write what
     * process_modbus_value accepts.
     */
    method PollMapping(i: nat, now: int, p: LegacyProbe) returns (rc: int)
      requires Valid() && ctx != null && i < |mappings|
      requires p.reply.Registers? ==> |p.reply.words| == LegacyRegisterCount(mappings[i].dataType)
      modifies next, this`writes
      ensures rc == ReturnCode(p.reply, p.stopAtRead)
      ensures next[..] == old(next[..])[i := now + mappings[i].pollIntervalMs]
      ensures writes == old(writes) + Gateway.OptionToSeq(OutcomeOf(mappings[i], i, p))
    {
      var m := mappings[i];
      next[i] := now + m.pollIntervalMs;
      var regs := new uint16[4](_ => 0);
      var device: Device := _ => p.reply;
      var sent;
      rc, sent := LegacyReadModbusData(ctx, m.modbusAddress, m.dataType, regs, device, p.stopAtRead);
      if rc == 0 {
        RegisterCountMatchesDecoders(m.dataType);
        var words := p.reply.words;
        var n := Decoder.RegistersRead(m.dataType);
        assert regs[..][..n] == words[..n] by {
          assert regs[..sent.count] == words;
        }
        LegacyDecoder.ProcessValueReadsPrefix(regs[..], words, m);
        LegacyDecoder.ProcessValueReadsPrefix(words, words + [0, 0, 0, 0], m);
        var result := LegacyDecoder.ProcessValue(regs[..], m);
        if result.Some? {
          var w := Write(i, NodeIdOf(m.opcuaNodeId), result.value);
          assert Some(w) == OutcomeOf(m, i, p);
          writes := writes + [w];
        } else {
          assert writes == writes + [];
        }
      } else {
        assert writes == writes + [];
      }
    }

    /**
     * One turn of the for loop (lines 125-152): the due check, then the
     * poll; a failed read closes and frees the context and ends the pass.
     */
    method VisitMapping(i: nat, now: int, probes: seq<LegacyProbe>, ghost next0: seq<int>,
                        ghost outs: seq<Option<Write>>)
      returns (failed: bool)
      requires Valid() && ctx != null && ProbesFit(mappings, probes) && i < |mappings|
      requires |next0| == |mappings| && next[i] == next0[i]
      requires outs == Outcomes(mappings, probes)
      requires forall j :: 0 <= j < i ==> !FailsAt(next0, now, probes, j)
      modifies this`ctx, this`writes, next, ctx
      ensures failed == FailsAt(next0, now, probes, i)
      ensures next[..] == old(next[..])[i := NextAfterPass(mappings, next0, now, probes)[i]]
      ensures writes == old(writes) + Gateway.OptionToSeq(WriteAt(next0, now, probes, outs, i))
      ensures ctx == if failed then null else old(ctx)
      ensures failed ==> old(ctx).freed && !old(ctx).connected
    {
      OutcomesAreFit(mappings, probes);
      OutcomesIndex(mappings, probes, i);
      if now < next[i] {
        StepNotDue(mappings, next0, now, probes, outs, i);
        assert next[..] == old(next[..])[i := next0[i]];
        assert writes == writes + [];
        return false;
      }
      var rc := PollMapping(i, now, probes[i]);
      NextAfterPassMeaning(mappings, next0, now, probes, i);
      NoFailureBefore(next0, now, probes, i);
      if rc == 0 {
        StepPolled(mappings, next0, now, probes, outs, i);
        return false;
      }
      assert Polled(next0, now, probes, i);
      Close(ctx);
      ctx := null;
      failed := true;
    }

    /**
     * The for loop of one iteration (lines 125-153): poll each due mapping,
     * write what decodes, and stop at the first failed read, dropping the
     * connection.
     */
    method PollPass(now: int, probes: seq<LegacyProbe>) returns (end: Gateway.PassEnd)
      requires Valid() && ctx != null && ProbesFit(mappings, probes)
      modifies this`ctx, this`writes, next, ctx
      ensures end == PassEndFrom(old(next[..]), now, probes, 0)
      ensures next[..] == NextAfterPass(mappings, old(next[..]), now, probes)
      ensures writes == old(writes) + Writes(old(next[..]), now, probes, Outcomes(mappings, probes), |mappings|)
      ensures ctx == if end.ReadFailed? then null else old(ctx)
      ensures end.ReadFailed? ==> old(ctx).freed && !old(ctx).connected
    {
      ghost var next0 := next[..];
      ghost var outs := Outcomes(mappings, probes);
      OutcomesAreFit(mappings, probes);
      var i;
      i, end := PollLoop(now, probes, next0, outs);
      PassWrapUp(mappings, next0, now, probes, outs, i);
    }

    /**
     * The loop itself: it stops at the first mapping i whose read fails,
     * having polled and written for 0 .. i exactly as VisitMapping does.
     */
    method PollLoop(now: int, probes: seq<LegacyProbe>, ghost next0: seq<int>, ghost outs: seq<Option<Write>>)
      returns (i: nat, end: Gateway.PassEnd)
      requires Valid() && ctx != null && ProbesFit(mappings, probes)
      requires next0 == next[..] && outs == Outcomes(mappings, probes)
      modifies this`ctx, this`writes, next, ctx
      ensures i <= |mappings|
      ensures forall j :: 0 <= j < i ==> !FailsAt(next0, now, probes, j)
      ensures i < |mappings| ==> FailsAt(next0, now, probes, i) && end == Gateway.ReadFailed(i)
      ensures i == |mappings| ==> end == Gateway.Completed
      ensures var k := if i < |mappings| then i + 1 else i;
              && next[..] == NextAfterPass(mappings, next0, now, probes)[..k] + next0[k..]
              && writes == old(writes) + Writes(next0, now, probes, outs, k)
      ensures ctx == if end.ReadFailed? then null else old(ctx)
      ensures end.ReadFailed? ==> old(ctx).freed && !old(ctx).connected
    {
      ghost var target := NextAfterPass(mappings, next0, now, probes);
      ghost var writes0 := writes;
      var n := |mappings|;
      i := 0;
      end := Gateway.Completed;
      OutcomesAreFit(mappings, probes);
      while i < n
        invariant 0 <= i <= n
        invariant ctx == old(ctx) && ctx != null && end == Gateway.Completed
        invariant forall j :: 0 <= j < i ==> !FailsAt(next0, now, probes, j)
        invariant next[..] == target[..i] + next0[i..]
        invariant writes == writes0 + Writes(next0, now, probes, outs, i)
      {
        ghost var nextBefore := next[..];
        ghost var writesBefore := writes;
        var failed := VisitMapping(i, now, probes, next0, outs);
        LoopStep(mappings, next0, now, probes, outs, i, failed, nextBefore, next[..],
                 writes0, writesBefore, writes);
        if failed {
          end := Gateway.ReadFailed(i);
          return;
        }
        i := i + 1;
      }
    }

    /**
     * One iteration of the while loop (lines 113-158): the running check, a
     * connection attempt when there is no context (a failed one backs off
     * and continues), then the pass.
     */
    method Iterate(t: LegacyTick) returns (stopped: bool, ghost created: Context?)
      requires Valid() && ProbesFit(mappings, t.probes)
      modifies this`ctx, this`writes, this`events, next, ctx
      ensures Progress(RunState(next[..], writes, ctx != null, events), stopped)
           == TickStep(mappings, old(RunState(next[..], writes, ctx != null, events)), t)
      ensures created != null ==> fresh(created)
      ensures ctx != null ==> ctx == old(ctx) || ctx == created
      ensures old(ctx) != null && ctx != old(ctx) ==> old(ctx).freed && !old(ctx).connected
      ensures created != null && ctx != created ==> created.freed && !created.connected
    {
      ghost var before := RunState(next[..], writes, ctx != null, events);
      created := null;
      stopped := false;
      if t.stopAtHead {
        stopped := true;
        TickStopped(mappings, before, t);
        return;
      }
      if ctx == null {
        var connected;
        connected, created := Reconnect(t);
        if !connected {
          events := events + [Gateway.Backoff];
          TickConnectFailed(mappings, before, t);
          return;
        }
      }
      ghost var connectedState := RunState(next[..], writes, true, events);
      assert connectedState == before.(connected := true, events := if before.connected then before.events
                                                                    else before.events + [Gateway.Attempt(Connected)]);
      PassTick(t);
      TickPassed(mappings, before, t);
    }

    /** modbus_tcp_connect from the loop (lines 114-120): the attempt is recorded. */
    method Reconnect(t: LegacyTick) returns (connected: bool, ghost created: Context?)
      requires ctx == null
      modifies this`ctx, this`events
      ensures connected <==> ConnectOutcomeOf(t.connect, t.stopInConnect) == Connected
      ensures events == old(events) + [Gateway.Attempt(ConnectOutcomeOf(t.connect, t.stopInConnect))]
      ensures ctx != null <==> connected
      ensures created != null ==> fresh(created)
      ensures ctx != null ==> ctx == created
      ensures created != null && ctx != created ==> created.freed && !created.connected
    {
      var c, outcome, logged;
      c, outcome, logged, created := TcpConnect(settings, t.connect, t.stopInConnect);
      ctx := c;
      events := events + [Gateway.Attempt(outcome)];
      connected := c != null;
    }

    /** The pass of one iteration, recorded as an event. */
    method PassTick(t: LegacyTick)
      requires Valid() && ctx != null && ProbesFit(mappings, t.probes)
      modifies this`ctx, this`writes, this`events, next, ctx
      ensures RunState(next[..], writes, ctx != null, events)
           == AfterPass(mappings, old(RunState(next[..], writes, ctx != null, events)), t.now, t.probes)
      ensures ctx == null || ctx == old(ctx)
      ensures ctx == null ==> old(ctx).freed && !old(ctx).connected
    {
      var end := PollPass(t.now, t.probes);
      events := events + [Gateway.Pass(t.now, end)];
    }

    /**
     * The while loop of lines 113-159 and the clean-up after it (161-174):
     * afterwards an open context is closed and freed and the program exits
     * with EXIT_SUCCESS.
     */
    method Run(ticks: seq<LegacyTick>) returns (exit: int, ghost contexts: set<Context>)
      requires Valid() && TicksFit(mappings, ticks) && events == []
      requires |ticks| > 0 && ticks[|ticks| - 1].stopAtHead
      modifies this`ctx, this`writes, this`events, next, ctx
      ensures exit == Gateway.EXIT_SUCCESS
      ensures var r := RunUpTo(mappings, RunState(old(next[..]), old(writes), old(ctx) != null, []), ticks, |ticks|);
              && r.stopped
              && next[..] == r.state.next && writes == r.state.writes && events == r.state.events
      ensures ctx == null
      ensures old(ctx) != null ==> old(ctx) in contexts
      ensures forall c :: c in contexts ==> c.freed && !c.connected
    {
      ghost var st0 := RunState(next[..], writes, ctx != null, []);
      contexts := RunLoop(ticks, st0, Trace(mappings, st0, ticks));
      if ctx != null {
        Close(ctx);
        ctx := null;
      }
      exit := Gateway.EXIT_SUCCESS;
    }

    /**
     * The iterations themselves, until the loop leaves; contexts holds every
     * context the run has held or created, and all but the current one are
     * closed and freed.
     */
    method RunLoop(ticks: seq<LegacyTick>, ghost st0: RunState, ghost states: seq<Progress>)
      returns (ghost contexts: set<Context>)
      requires Valid() && TicksFit(mappings, ticks)
      requires st0 == RunState(next[..], writes, ctx != null, events)
      requires IsTrace(mappings, st0, ticks, states)
      requires |ticks| > 0 && ticks[|ticks| - 1].stopAtHead
      modifies this`ctx, this`writes, this`events, next, ctx
      ensures RunUpTo(mappings, st0, ticks, |ticks|) == Progress(RunState(next[..], writes, ctx != null, events), true)
      ensures ctx != null ==> ctx in contexts && (ctx == old(ctx) || fresh(ctx))
      ensures old(ctx) != null ==> old(ctx) in contexts
      ensures forall c :: c in contexts && c != ctx ==> c.freed && !c.connected
    {
      contexts := if ctx == null then {} else {ctx};
      assert RunUpTo(mappings, st0, ticks, 0) == Progress(st0, false);
      var k := 0;
      var stopped := false;
      while k < |ticks| && !stopped
        invariant 0 <= k <= |ticks| && Valid()
        invariant states[k] == Progress(RunState(next[..], writes, ctx != null, events), stopped)
        invariant ctx != null ==> ctx in contexts && (ctx == old(ctx) || fresh(ctx))
        invariant old(ctx) != null ==> old(ctx) in contexts
        invariant forall c :: c in contexts && c != ctx ==> c.freed && !c.connected
      {
        stopped, contexts := Advance(ticks, st0, states, k, contexts);
        k := k + 1;
      }
      RunFinished(mappings, st0, ticks, k);
    }

    /**
     * One turn of the while loop from the state the first k ticks lead to;
     * every context it drops or fails to connect is closed and freed.
     */
    method Advance(ticks: seq<LegacyTick>, ghost st0: RunState, ghost states: seq<Progress>, k: nat,
                   ghost contexts: set<Context>)
      returns (stopped: bool, ghost contexts': set<Context>)
      requires Valid() && TicksFit(mappings, ticks) && |st0.next| == |mappings| && k < |ticks|
      requires IsTrace(mappings, st0, ticks, states)
      requires states[k] == Progress(RunState(next[..], writes, ctx != null, events), false)
      requires ctx != null ==> ctx in contexts
      requires forall c :: c in contexts && c != ctx ==> c.freed && !c.connected
      modifies this`ctx, this`writes, this`events, next, ctx
      ensures states[k + 1] == Progress(RunState(next[..], writes, ctx != null, events), stopped)
      ensures contexts <= contexts'
      ensures ctx != null ==> ctx in contexts' && (ctx == old(ctx) || fresh(ctx))
      ensures forall c :: c in contexts' && c != ctx ==> c.freed && !c.connected
    {
      ghost var created;
      ghost var prev := ctx;
      ghost var before := RunState(next[..], writes, ctx != null, events);
      label BeforeIteration:
      stopped, created := Iterate(ticks[k]);
      TraceStep(mappings, st0, ticks, states, k, before);
      forall c | c in contexts && c != ctx
        ensures c.freed && !c.connected
      {
        if c != prev {
          assert c.freed == old@BeforeIteration(c.freed) && c.connected == old@BeforeIteration(c.connected);
        }
      }
      contexts' := if created != null then contexts + {created} else contexts;
    }
  }

  /** One turn of the pass loop in terms of values. */
  lemma LoopStep(ms: seq<LegacyMapping>, next0: seq<int>, now: int, probes: seq<LegacyProbe>,
                 outs: seq<Option<Write>>, i: nat, failed: bool,
                 nextBefore: seq<int>, nextAfter: seq<int>,
                 writes0: seq<Write>, writesBefore: seq<Write>, writesAfter: seq<Write>)
    requires |next0| == |ms| && OutcomesFit(ms, probes, outs) && i < |ms|
    requires forall j :: 0 <= j < i ==> !FailsAt(next0, now, probes, j)
    requires failed == FailsAt(next0, now, probes, i)
    requires nextBefore == NextAfterPass(ms, next0, now, probes)[..i] + next0[i..]
    requires nextAfter == nextBefore[i := NextAfterPass(ms, next0, now, probes)[i]]
    requires writesBefore == writes0 + Writes(next0, now, probes, outs, i)
    requires writesAfter == writesBefore + Gateway.OptionToSeq(WriteAt(next0, now, probes, outs, i))
    ensures !failed ==> forall j :: 0 <= j < i + 1 ==> !FailsAt(next0, now, probes, j)
    ensures nextAfter == NextAfterPass(ms, next0, now, probes)[..i + 1] + next0[i + 1..]
    ensures writesAfter == writes0 + Writes(next0, now, probes, outs, i + 1)
  {
    Gateway.PrefixStep(NextAfterPass(ms, next0, now, probes), next0, i);
    var before := Writes(next0, now, probes, outs, i);
    var added := Gateway.OptionToSeq(WriteAt(next0, now, probes, outs, i));
    assert writesAfter == writes0 + (before + added);
  }

  /** A mapping the pass reaches and that is not due: no failure, no poll, no write. */
  lemma StepNotDue(ms: seq<LegacyMapping>, next0: seq<int>, now: int, probes: seq<LegacyProbe>,
                   outs: seq<Option<Write>>, i: nat)
    requires |next0| == |ms| && OutcomesFit(ms, probes, outs) && i < |ms|
    requires now < next0[i]
    ensures !FailsAt(next0, now, probes, i)
    ensures NextAfterPass(ms, next0, now, probes)[i] == next0[i]
    ensures WriteAt(next0, now, probes, outs, i).None?
  {
    assert !Polled(next0, now, probes, i);
  }

  /** A due mapping whose read succeeded: no failure, it is polled and writes its outcome. */
  lemma StepPolled(ms: seq<LegacyMapping>, next0: seq<int>, now: int, probes: seq<LegacyProbe>,
                   outs: seq<Option<Write>>, i: nat)
    requires |next0| == |ms| && OutcomesFit(ms, probes, outs) && i < |ms|
    requires forall j :: 0 <= j < i ==> !FailsAt(next0, now, probes, j)
    requires now >= next0[i] && probes[i].reply.Registers?
    ensures !FailsAt(next0, now, probes, i)
    ensures NextAfterPass(ms, next0, now, probes)[i] == now + ms[i].pollIntervalMs
    ensures WriteAt(next0, now, probes, outs, i) == outs[i]
  {
    NoFailureBefore(next0, now, probes, i + 1);
    assert Polled(next0, now, probes, i);
  }

  /**
   * Where the loop leaves off: the pass ended at i (completed when i is the
   * table size), nothing after i is polled, and i wrote nothing.
   */
  lemma PassWrapUp(ms: seq<LegacyMapping>, next0: seq<int>, now: int, probes: seq<LegacyProbe>,
                   outs: seq<Option<Write>>, i: nat)
    requires |next0| == |ms| && OutcomesFit(ms, probes, outs) && i <= |ms|
    requires forall j :: 0 <= j < i ==> !FailsAt(next0, now, probes, j)
    requires i < |ms| ==> FailsAt(next0, now, probes, i)
    ensures PassEndFrom(next0, now, probes, 0) == if i == |ms| then Gateway.Completed else Gateway.ReadFailed(i)
    ensures Writes(next0, now, probes, outs, |ms|) == Writes(next0, now, probes, outs, if i < |ms| then i + 1 else i)
    ensures var k := if i < |ms| then i + 1 else i;
            NextAfterPass(ms, next0, now, probes)[..k] + next0[k..] == NextAfterPass(ms, next0, now, probes)
  {
    var k := if i < |ms| then i + 1 else i;
    var target := NextAfterPass(ms, next0, now, probes);
    NoFailureBefore(next0, now, probes, i);
    forall j | k <= j < |ms|
      ensures target[j] == next0[j]
    {
      NextAfterPassMeaning(ms, next0, now, probes, j);
    }
    assert target[..k] + next0[k..] == target;
    if i < |ms| {
      WritesStable(next0, now, probes, outs, i + 1, |ms|);
    }
  }

  /** The state before the loop: calloc'd due times, nothing written, no connection. */
  function InitialState(ms: seq<LegacyMapping>): (st: RunState)
    ensures |st.next| == |ms| && !st.connected && st.events == [] && st.writes == []
  {
    RunState(seq(|ms|, _ => 0), [], false, [])
  }

  /**
   * main after the configuration is loaded (lines 92-174): a failed server
   * start-up ends the program with EXIT_FAILURE. A failed allocation of the
   * due times clears running, so the loop never runs and the program still
   * ends with EXIT_SUCCESS having polled nothing. Otherwise the loop runs
   * until running is cleared, and every connection is closed at the end.
   */
  method LegacyServe(settings: Settings, ms: seq<LegacyMapping>, startupSucceeds: bool, timersAllocated: bool,
                     ticks: seq<LegacyTick>)
    returns (exit: int, g: LegacyGateway?)
    requires TicksFit(ms, ticks) && |ticks| > 0 && ticks[|ticks| - 1].stopAtHead
    ensures exit == if startupSucceeds then Gateway.EXIT_SUCCESS else Gateway.EXIT_FAILURE
    ensures g != null <==> startupSucceeds && timersAllocated
    ensures g != null ==>
              var r := RunUpTo(ms, InitialState(ms), ticks, |ticks|).state;
              && g.mappings == ms && g.ctx == null
              && g.next[..] == r.next && g.writes == r.writes && g.events == r.events
              && Gateway.Ordered(false, g.events) && BacksOff(g.events)
  {
    if !startupSucceeds {
      return Gateway.EXIT_FAILURE, null;
    }
    if !timersAllocated {
      return Gateway.EXIT_SUCCESS, null;
    }
    g := new LegacyGateway(settings, ms);
    assert RunState(g.next[..], g.writes, g.ctx != null, []) == InitialState(ms);
    ghost var contexts;
    exit, contexts := g.Run(ticks);
    RunOrdered(ms, InitialState(ms), ticks, |ticks|);
    RunBacksOff(ms, InitialState(ms), ticks, |ticks|);
  }
}
