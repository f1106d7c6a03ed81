/**
 * The DHCP-TFTP helper daemon (dhcp_tftp.py). It waits until the switch
 * configuration has been restored (a nonzero cur_cfg in the Open_vSwitch
 * table), renders the dnsmasq command line from the DHCP_Range and DHCP_Host
 * tables and starts dnsmasq; afterwards, every time the store client's change
 * counter moves, it kills dnsmasq and starts it again with a freshly rendered
 * command line, until an "exit" control command arrives.
 *
 * Store reads are inputs (Observation: the change counter and the tables as
 * one run of the store client leaves them); starting and killing processes
 * are recorded as events in a trace.
 */
module DhcpTftp {
  import opened Wrappers

  /** An Open_vSwitch row, reduced to its cur_cfg column. */
  datatype OvsRow = OvsRow(curCfg: int)

  /**
   * The tables the daemon reads, rows in iteration order: the Open_vSwitch
   * rows, the dhcp_range column of each DHCP_Range row, the dhcp_host column
   * of each DHCP_Host row, and the DHCP_Option and DHCP_TFTP_Interfaces rows.
   */
  datatype Tables = Tables(openVswitch: seq<OvsRow>, ranges: seq<string>, hosts: seq<string>,
                           options: seq<string>, interfaces: seq<string>)

  /** What one run of the store client leaves: its change counter and the tables. */
  datatype Observation = Observation(changeSeqno: int, tables: Tables)

  /** One iteration of the main loop: whether an exit command is pending, and what the store run then shows. */
  datatype Step = Step(exitRequested: bool, observed: Observation)

  /** Process actions: start dnsmasq with a command line, kill the own handle, kill every dnsmasq process. */
  datatype Event = Start(command: string) | KillOwn | KillAll

  const DefaultCommand := "/usr/bin/dnsmasq --port=0 --user=root --dhcp-script=/usr/bin/dhcp_leases "
                          + "--leasefile-ro --log-facility=/tmp/dnsmasq.log "
  const RangeOption := " --dhcp-range="
  const HostOption := " --dhcp-host="

  // ---------------------------------------------------------------- bring-up status

  /** Bring-up is complete when some Open_vSwitch row has a nonzero (truthy) cur_cfg. */
  predicate Configured(rows: seq<OvsRow>) {
    exists i :: 0 <= i < |rows| && rows[i].curCfg != 0
  }

  /** Scans the Open_vSwitch rows and answers at the first one with a truthy cur_cfg. */
  method DbGetSystemStatus(t: Tables) returns (configured: bool)
    ensures configured <==> exists i :: 0 <= i < |t.openVswitch| && t.openVswitch[i].curCfg != 0
    ensures t.openVswitch == [] ==> !configured
  {
    for i := 0 to |t.openVswitch|
      invariant forall j :: 0 <= j < i ==> t.openVswitch[j].curCfg == 0
    {
      if t.openVswitch[i].curCfg != 0 {
        return true;
      }
    }
    return false;
  }

  /** Whether the startup configuration has been restored. */
  method SystemIsConfigured(t: Tables) returns (configured: bool)
    ensures configured <==> Configured(t.openVswitch)
  {
    configured := DbGetSystemStatus(t);
  }

  // ---------------------------------------------------------------- command rendering

  /** The option one row contributes: nothing for an empty value. */
  function Opt(flag: string, value: string): string {
    if value != "" then flag + value else ""
  }

  /** The options the rows contribute, in table order. */
  function Options(flag: string, values: seq<string>): string {
    if values == [] then "" else Opt(flag, values[0]) + Options(flag, values[1..])
  }

  lemma {:induction false} OptionsAppend(flag: string, a: seq<string>, b: seq<string>)
    ensures Options(flag, a + b) == Options(flag, a) + Options(flag, b)
  {
    if a == [] {
      assert a + b == b;
    } else {
      assert (a + b)[1..] == a[1..] + b;
      OptionsAppend(flag, a[1..], b);
    }
  }

  lemma OptionsSnoc(flag: string, values: seq<string>, i: nat)
    requires i < |values|
    ensures Options(flag, values[..i + 1]) == Options(flag, values[..i]) + Opt(flag, values[i])
  {
    OptionsAppend(flag, values[..i], [values[i]]);
    assert values[..i + 1] == values[..i] + [values[i]];
    assert [values[i]][1..] == [];
  }

  /** The rows with a non-empty value, in order. */
  function NonEmpty(values: seq<string>): (r: seq<string>)
    ensures forall i :: 0 <= i < |r| ==> r[i] != ""
  {
    if values == [] then []
    else (if values[0] != "" then [values[0]] else []) + NonEmpty(values[1..])
  }

  /** Rows with an empty value contribute nothing: only the non-empty ones count, in order. */
  lemma {:induction false} OptionsSkipEmpty(flag: string, values: seq<string>)
    ensures Options(flag, values) == Options(flag, NonEmpty(values))
  {
    if values != [] {
      OptionsSkipEmpty(flag, values[1..]);
      var head := if values[0] != "" then [values[0]] else [];
      OptionsAppend(flag, head, NonEmpty(values[1..]));
      assert Options(flag, head) == Opt(flag, values[0]) by {
        if head != [] {
          assert head[1..] == [];
        }
      }
    }
  }

  /** Each row with a non-empty value contributes `flag + value` at its place in table order. */
  lemma OptionAt(flag: string, values: seq<string>, i: nat)
    requires i < |values| && values[i] != ""
    ensures Options(flag, values) ==
      Options(flag, values[..i]) + flag + values[i] + Options(flag, values[i + 1..])
  {
    assert values == values[..i] + ([values[i]] + values[i + 1..]);
    OptionsAppend(flag, values[..i], [values[i]] + values[i + 1..]);
    OptionsAppend(flag, [values[i]], values[i + 1..]);
    assert Options(flag, [values[i]]) == flag + values[i] by {
      assert [values[i]][1..] == [];
    }
  }

  /**
   * The dnsmasq command line: the default command, then one range option per
   * non-empty range row, then one host option per non-empty host row.
   */
  function RenderCommand(t: Tables): (cmd: string)
    ensures cmd == DefaultCommand + Options(RangeOption, NonEmpty(t.ranges)) + Options(HostOption, NonEmpty(t.hosts))
  {
    OptionsSkipEmpty(RangeOption, t.ranges);
    OptionsSkipEmpty(HostOption, t.hosts);
    DefaultCommand + Options(RangeOption, t.ranges) + Options(HostOption, t.hosts)
  }

  /** The option and interface tables play no part in the command line. */
  lemma RenderCommandIgnores(t: Tables, options: seq<string>, interfaces: seq<string>)
    ensures RenderCommand(t) == RenderCommand(t.(options := options, interfaces := interfaces))
  {
  }

  lemma StringAssociative(a: string, b: string, c: string)
    ensures (a + b) + c == a + (b + c)
  {
  }

  // ---------------------------------------------------------------- process trace

  /** How many dnsmasq instances are alive after an event, given how many were before. */
  function LiveAfter(n: nat, e: Event): nat {
    match e
    case Start(_) => n + 1
    case KillOwn => if n == 0 then 0 else n - 1
    case KillAll => 0
  }

  /** How many dnsmasq instances are alive after a trace. */
  function Live(trace: seq<Event>): nat {
    if trace == [] then 0 else LiveAfter(Live(trace[..|trace| - 1]), trace[|trace| - 1])
  }

  /** At no point of the trace are two instances alive. */
  ghost predicate NeverTwoLive(trace: seq<Event>) {
    forall k :: 0 <= k <= |trace| ==> Live(trace[..k]) <= 1
  }

  lemma LiveSnoc(trace: seq<Event>, e: Event)
    ensures Live(trace + [e]) == LiveAfter(Live(trace), e)
  {
    assert (trace + [e])[..|trace|] == trace;
  }

  lemma NeverTwoLiveSnoc(trace: seq<Event>, e: Event)
    requires NeverTwoLive(trace) && LiveAfter(Live(trace), e) <= 1
    ensures NeverTwoLive(trace + [e]) && Live(trace + [e]) == LiveAfter(Live(trace), e)
  {
    LiveSnoc(trace, e);
    forall k | 0 <= k <= |trace| + 1
      ensures Live((trace + [e])[..k]) <= 1
    {
      if k <= |trace| {
        assert (trace + [e])[..k] == trace[..k];
      } else {
        assert (trace + [e])[..k] == trace + [e];
      }
    }
  }

  /** A restart: kill the own process, kill every dnsmasq, start with the new command line. */
  function RestartEvents(t: Tables): seq<Event> {
    [KillOwn, KillAll, Start(RenderCommand(t))]
  }

  lemma RestartStartsOnce(t: Tables)
    ensures CountStarts(RestartEvents(t)) == 1
  {
    var r := RestartEvents(t);
    assert r[1..][1..][1..] == [];
    assert CountStarts(r[1..][1..]) == 1;
    assert CountStarts(r[1..]) == 1;
  }

  // ---------------------------------------------------------------- main-loop specification

  /** The process actions of one main-loop iteration: a restart exactly when the counter moved. */
  function StepEvents(seqno: int, step: Step): seq<Event> {
    if step.exitRequested || seqno == step.observed.changeSeqno then [] else RestartEvents(step.observed.tables)
  }

  /** The process actions of the main loop over `steps`, up to the first exit request. */
  function LoopEvents(seqno: int, steps: seq<Step>): seq<Event>
    decreases |steps|
  {
    if steps == [] || steps[0].exitRequested then []
    else StepEvents(seqno, steps[0]) + LoopEvents(steps[0].observed.changeSeqno, steps[1..])
  }

  /** The last processed counter after the main loop over `steps`. */
  function LoopSeqno(seqno: int, steps: seq<Step>): int
    decreases |steps|
  {
    if steps == [] || steps[0].exitRequested then seqno
    else LoopSeqno(steps[0].observed.changeSeqno, steps[1..])
  }

  lemma LoopUnfold(seqno: int, steps: seq<Step>, i: nat)
    requires i < |steps|
    ensures steps[i].exitRequested ==> LoopEvents(seqno, steps[i..]) == [] && LoopSeqno(seqno, steps[i..]) == seqno
    ensures !steps[i].exitRequested ==>
      && LoopEvents(seqno, steps[i..]) == StepEvents(seqno, steps[i]) + LoopEvents(steps[i].observed.changeSeqno, steps[i + 1..])
      && LoopSeqno(seqno, steps[i..]) == LoopSeqno(steps[i].observed.changeSeqno, steps[i + 1..])
  {
    assert steps[i..][0] == steps[i] && steps[i..][1..] == steps[i + 1..];
  }

  lemma Associative(a: seq<Event>, b: seq<Event>, c: seq<Event>)
    ensures (a + b) + c == a + (b + c)
  {
  }

  /** Number of starts in a trace. */
  function CountStarts(trace: seq<Event>): nat {
    if trace == [] then 0 else (if trace[0].Start? then 1 else 0) + CountStarts(trace[1..])
  }

  lemma {:induction false} CountStartsAppend(a: seq<Event>, b: seq<Event>)
    ensures CountStarts(a + b) == CountStarts(a) + CountStarts(b)
  {
    if a == [] {
      assert a + b == b;
    } else {
      assert (a + b)[1..] == a[1..] + b;
      CountStartsAppend(a[1..], b);
    }
  }

  /** Wake-ups whose counter equals the last processed one restart nothing. */
  lemma {:induction false} NoChangeNoRestart(seqno: int, steps: seq<Step>)
    requires forall i :: 0 <= i < |steps| ==> steps[i].observed.changeSeqno == seqno
    ensures LoopEvents(seqno, steps) == [] && LoopSeqno(seqno, steps) == seqno
  {
    if steps != [] && !steps[0].exitRequested {
      NoChangeNoRestart(seqno, steps[1..]);
    }
  }

  /** Nothing that the store shows after an exit request leads to a restart. */
  lemma {:induction false} ExitEndsLoop(seqno: int, steps: seq<Step>, k: nat)
    requires k < |steps| && steps[k].exitRequested
    ensures LoopEvents(seqno, steps) == LoopEvents(seqno, steps[..k])
    ensures LoopSeqno(seqno, steps) == LoopSeqno(seqno, steps[..k])
    decreases k
  {
    if k > 0 && !steps[0].exitRequested {
      assert steps[..k][0] == steps[0] && steps[..k][1..] == steps[1..][..k - 1];
      ExitEndsLoop(steps[0].observed.changeSeqno, steps[1..], k - 1);
    }
  }

  /**
   * One wake-up starts dnsmasq at most once, however many store changes it
   * coalesces: the loop starts no more processes than it has wake-ups.
   */
  lemma {:induction false} AtMostOneStartPerWakeUp(seqno: int, steps: seq<Step>)
    ensures CountStarts(LoopEvents(seqno, steps)) <= |steps|
    decreases |steps|
  {
    if steps != [] && !steps[0].exitRequested {
      AtMostOneStartPerWakeUp(steps[0].observed.changeSeqno, steps[1..]);
      CountStartsAppend(StepEvents(seqno, steps[0]), LoopEvents(steps[0].observed.changeSeqno, steps[1..]));
      RestartStartsOnce(steps[0].observed.tables);
    }
  }

  // ---------------------------------------------------------------- bring-up specification

  /** The change counter the daemon holds before observation `j` of the bring-up loop. */
  function Prev(seqno: int, obs: seq<Observation>, j: nat): int
    requires j <= |obs|
  {
    if j == 0 then seqno else obs[j - 1].changeSeqno
  }

  /** Observation `j` starts dnsmasq: the counter moved and bring-up is complete. */
  predicate Triggers(seqno: int, obs: seq<Observation>, j: nat)
    requires j < |obs|
  {
    obs[j].changeSeqno != Prev(seqno, obs, j) && Configured(obs[j].tables.openVswitch)
  }

  /** The bring-up observation that first starts dnsmasq, if any. */
  function FirstStart(seqno: int, obs: seq<Observation>): (r: Option<nat>)
    ensures r.Some? ==> r.value < |obs| && Triggers(seqno, obs, r.value)
    ensures r.Some? ==> forall j :: 0 <= j < r.value ==> !Triggers(seqno, obs, j)
    ensures r.None? ==> forall j :: 0 <= j < |obs| ==> !Triggers(seqno, obs, j)
    decreases |obs|
  {
    if obs == [] then None
    else if Triggers(seqno, obs, 0) then Some(0)
    else
      var rest := FirstStart(obs[0].changeSeqno, obs[1..]);
      assert forall j :: 0 <= j < |obs| - 1 ==> Prev(obs[0].changeSeqno, obs[1..], j) == Prev(seqno, obs, j + 1);
      assert forall j :: 0 < j < |obs| ==> (Triggers(seqno, obs, j) <==> Triggers(obs[0].changeSeqno, obs[1..], j - 1));
      match rest
      case None => None
      case Some(i) => Some(i + 1)
  }

  /** No observation before index `k` starts dnsmasq. */
  predicate NoneTriggers(seqno: int, obs: seq<Observation>, k: nat)
    requires k <= |obs|
  {
    forall j :: 0 <= j < k ==> !Triggers(seqno, obs, j)
  }

  lemma FirstStartAt(seqno: int, obs: seq<Observation>, k: nat)
    requires k < |obs| && NoneTriggers(seqno, obs, k) && Triggers(seqno, obs, k)
    ensures FirstStart(seqno, obs) == Some(k)
  {
  }

  lemma FirstStartNone(seqno: int, obs: seq<Observation>)
    requires NoneTriggers(seqno, obs, |obs|)
    ensures FirstStart(seqno, obs) == None
  {
  }

  /** While cur_cfg is zero in every observation, bring-up never starts dnsmasq. */
  lemma BringUpGating(seqno: int, obs: seq<Observation>)
    requires forall j :: 0 <= j < |obs| ==> !Configured(obs[j].tables.openVswitch)
    ensures FirstStart(seqno, obs).None?
  {
  }

  /**
   * With cur_cfg 0 and then 1 and one range row, the second observation
   * starts dnsmasq with exactly that one range option.
   */
  lemma BringUpScenario()
    ensures var t0 := Tables([OvsRow(0)], ["10.0.0.10-10.0.0.20"], [], [], []);
      var t1 := t0.(openVswitch := [OvsRow(1)]);
      var obs := [Observation(1, t0), Observation(2, t1)];
      && FirstStart(0, obs) == Some(1)
      && RenderCommand(t1) == DefaultCommand + " --dhcp-range=10.0.0.10-10.0.0.20"
  {
    var t0 := Tables([OvsRow(0)], ["10.0.0.10-10.0.0.20"], [], [], []);
    var t1 := t0.(openVswitch := [OvsRow(1)]);
    var obs := [Observation(1, t0), Observation(2, t1)];
    assert !Triggers(0, obs, 0);
    assert Triggers(0, obs, 1) by {
      assert t1.openVswitch[0].curCfg != 0;
    }
    assert Options(RangeOption, t1.ranges) == RangeOption + "10.0.0.10-10.0.0.20" by {
      assert t1.ranges[1..] == [];
    }
  }

  // ---------------------------------------------------------------- the daemon

  /** The daemon's global state, and the trace of the process actions it has taken. */
  class Daemon {
    var seqno: int                 // change counter when the store was last processed
    var dnsmasqStarted: bool
    var exiting: bool
    var command: string            // the last rendered command line ("" before the first)
    var process: Option<string>    // the own process handle, by the command line it was started with
    var trace: seq<Event>

    /**
     * Exactly one dnsmasq is alive once started, none before, never two at any
     * point; the own handle is the process of the last start, with the current
     * command line.
     */
    ghost predicate Valid()
      reads this
    {
      && NeverTwoLive(trace)
      && Live(trace) == (if dnsmasqStarted then 1 else 0)
      && (dnsmasqStarted ==> process == Some(command) && |trace| > 0 && trace[|trace| - 1] == Start(command))
      && (!dnsmasqStarted ==> process == None)
    }

    constructor ()
      ensures Valid()
      ensures seqno == 0 && !dnsmasqStarted && !exiting && process == None && trace == []
    {
      seqno := 0;
      dnsmasqStarted := false;
      exiting := false;
      command := "";
      process := None;
      trace := [];
    }

    /** The "exit" control command. */
    method UnixctlExit()
      modifies this`exiting
      ensures exiting
    {
      exiting := true;
    }

    /** Re-renders the command line from the tables, whatever was rendered before. */
    method GetConfig(t: Tables)
      modifies this`command
      ensures command == RenderCommand(t)
    {
      command := DefaultCommand;
      AppendOptions(RangeOption, t.ranges);
      AppendOptions(HostOption, t.hosts);
    }

    /** Appends `flag + value` to the command line for each non-empty value, in order. */
    method AppendOptions(flag: string, values: seq<string>)
      modifies this`command
      ensures command == old(command) + Options(flag, values)
    {
      for i := 0 to |values|
        invariant command == old(command) + Options(flag, values[..i])
      {
        OptionsSnoc(flag, values, i);
        StringAssociative(old(command), Options(flag, values[..i]), Opt(flag, values[i]));
        if values[i] != "" {
          command := command + (flag + values[i]);
        }
      }
      assert values[..|values|] == values;
    }

    /** Starts dnsmasq with the rendered command line and keeps its handle. */
    method StartProcess()
      modifies this`process, this`trace
      ensures process == Some(command) && trace == old(trace) + [Start(command)]
    {
      process := Some(command);
      trace := trace + [Start(command)];
    }

    /**
     * One bring-up poll: when the counter moved, record it, and when bring-up
     * is complete, render the command and start dnsmasq.
     */
    method DnsmasqRun(obs: Observation)
      requires Valid() && !dnsmasqStarted
      modifies this
      ensures Valid()
      ensures seqno == obs.changeSeqno && exiting == old(exiting)
      ensures dnsmasqStarted <==> old(seqno) != obs.changeSeqno && Configured(obs.tables.openVswitch)
      ensures trace == old(trace) + if dnsmasqStarted then [Start(RenderCommand(obs.tables))] else []
      ensures dnsmasqStarted ==> command == RenderCommand(obs.tables) && process == Some(command)
      ensures !dnsmasqStarted ==> command == old(command)
    {
      if seqno != obs.changeSeqno {
        seqno := obs.changeSeqno;
        var configured := SystemIsConfigured(obs.tables);
        if configured {
          GetConfig(obs.tables);
          NeverTwoLiveSnoc(trace, Start(command));
          StartProcess();
          dnsmasqStarted := true;
        }
      }
    }

    /** Kills the own dnsmasq and every other dnsmasq, re-renders the command and starts again. */
    method DnsmasqRestart(t: Tables)
      requires Valid() && dnsmasqStarted
      modifies this
      ensures Valid() && dnsmasqStarted
      ensures trace == old(trace) + RestartEvents(t)
      ensures command == RenderCommand(t) && process == Some(command)
      ensures seqno == old(seqno) && exiting == old(exiting)
    {
      if process.Some? {
        NeverTwoLiveSnoc(trace, KillOwn);
        trace := trace + [KillOwn];
      }
      NeverTwoLiveSnoc(trace, KillAll);
      trace := trace + [KillAll];
      GetConfig(t);
      NeverTwoLiveSnoc(trace, Start(command));
      StartProcess();
    }

    /**
     * One iteration of the main loop: serve a pending exit command and stop,
     * or (after waiting for the store) restart dnsmasq when the counter moved.
     */
    method MainLoopStep(step: Step) returns (stop: bool)
      requires Valid() && dnsmasqStarted && !exiting
      modifies this
      ensures Valid() && dnsmasqStarted
      ensures stop == exiting == step.exitRequested
      ensures trace == old(trace) + StepEvents(old(seqno), step)
      ensures seqno == if step.exitRequested then old(seqno) else step.observed.changeSeqno
      ensures command == if StepEvents(old(seqno), step) == [] then old(command) else RenderCommand(step.observed.tables)
    {
      if step.exitRequested {
        UnixctlExit();
      }
      if exiting {
        return true;
      }
      if seqno != step.observed.changeSeqno {
        DnsmasqRestart(step.observed.tables);
        seqno := step.observed.changeSeqno;
      }
      stop := false;
    }

    /** Bring-up: poll until dnsmasq has been started (or the observations run out). */
    method BringUp(obs: seq<Observation>) returns (consumed: nat)
      requires Valid() && !dnsmasqStarted
      modifies this
      ensures Valid() && exiting == old(exiting)
      ensures dnsmasqStarted <==> FirstStart(old(seqno), obs).Some?
      ensures dnsmasqStarted ==> consumed == FirstStart(old(seqno), obs).value + 1
      ensures dnsmasqStarted ==> trace == old(trace) + [Start(RenderCommand(obs[consumed - 1].tables))]
      ensures !dnsmasqStarted ==> consumed == |obs| && trace == old(trace)
      ensures 0 < consumed <= |obs| ==> seqno == obs[consumed - 1].changeSeqno
      ensures consumed == 0 ==> seqno == old(seqno)
      ensures dnsmasqStarted ==> command == RenderCommand(obs[consumed - 1].tables)
      ensures !dnsmasqStarted ==> command == old(command)
    {
      ghost var s0 := seqno;
      consumed := 0;
      while !dnsmasqStarted && consumed < |obs|
        invariant 0 <= consumed <= |obs|
        invariant Valid() && exiting == old(exiting)
        invariant seqno == Prev(s0, obs, consumed)
        invariant !dnsmasqStarted ==> trace == old(trace) && NoneTriggers(s0, obs, consumed)
        invariant dnsmasqStarted ==> 0 < consumed && FirstStart(s0, obs) == Some(consumed - 1)
        invariant dnsmasqStarted ==> trace == old(trace) + [Start(RenderCommand(obs[consumed - 1].tables))]
        invariant dnsmasqStarted ==> command == RenderCommand(obs[consumed - 1].tables)
        invariant !dnsmasqStarted ==> command == old(command)
      {
        DnsmasqRun(obs[consumed]);
        if dnsmasqStarted {
          FirstStartAt(s0, obs, consumed);
        }
        consumed := consumed + 1;
      }
      if !dnsmasqStarted {
        FirstStartNone(s0, obs);
      }
    }

    /** The main loop: runs until an exit command is served (or the wake-ups run out). */
    method MainLoop(steps: seq<Step>)
      requires Valid() && dnsmasqStarted
      modifies this
      ensures Valid() && dnsmasqStarted
      ensures exiting <==> exists i :: 0 <= i < |steps| && steps[i].exitRequested
      ensures trace == old(trace) + LoopEvents(old(seqno), steps)
      ensures seqno == LoopSeqno(old(seqno), steps)
    {
      ghost var s0 := seqno;
      exiting := false;
      var i := 0;
      while i < |steps| && !exiting
        invariant 0 <= i <= |steps|
        invariant Valid() && dnsmasqStarted
        invariant !exiting ==> forall j :: 0 <= j < i ==> !steps[j].exitRequested
        invariant exiting ==> exists j :: 0 <= j < i && steps[j].exitRequested
        invariant !exiting ==> old(trace) + LoopEvents(s0, steps) == trace + LoopEvents(seqno, steps[i..])
        invariant !exiting ==> LoopSeqno(s0, steps) == LoopSeqno(seqno, steps[i..])
        invariant exiting ==> trace == old(trace) + LoopEvents(s0, steps) && seqno == LoopSeqno(s0, steps)
      {
        LoopUnfold(seqno, steps, i);
        ghost var before, sq := trace, seqno;
        var _ := MainLoopStep(steps[i]);
        if !exiting {
          Associative(before, StepEvents(sq, steps[i]), LoopEvents(seqno, steps[i + 1..]));
        }
        i := i + 1;
      }
    }
  }

  /**
   * The whole daemon: bring-up, then (once dnsmasq runs) the main loop from
   * the counter of the observation that started it.
   */
  method RunDaemon(bringUp: seq<Observation>, steps: seq<Step>) returns (d: Daemon)
    ensures fresh(d) && d.Valid()
    ensures d.dnsmasqStarted <==> FirstStart(0, bringUp).Some?
    ensures !d.dnsmasqStarted ==> d.trace == []
    ensures d.dnsmasqStarted ==>
      var k := FirstStart(0, bringUp).value;
      d.trace == [Start(RenderCommand(bringUp[k].tables))] + LoopEvents(bringUp[k].changeSeqno, steps)
  {
    d := new Daemon();
    var consumed := d.BringUp(bringUp);
    if d.dnsmasqStarted {
      d.seqno := bringUp[consumed - 1].changeSeqno;
      d.MainLoop(steps);
    }
  }
}
