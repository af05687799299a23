/** The display-list interpreter (CDisplayListParser): it walks a list of 64-bit
    commands, logging the interpreter state before every command and a decode
    record after it. Opcodes are looked up in an always-active global table first
    and in the table of the identified microcode second; decode and execute
    routines are supplied as `Callbacks`. */
module DisplayList {
  import opened Common
  import opened Segments
  import opened Microcode

  /** One display-list command (dl_cmd_t). */
  datatype Command = Command(w0: u32, w1: u32)

  /** The interpreter state (CHleDmemState) as far as this file touches it. */
  datatype HleState = HleState(
    address: u32,
    command: Command,
    segments: SegmentTable,
    stackIndex: int,
    done: bool)

  /** One entry of the decoded-command list (decode_context_t). */
  datatype DecodeRecord = DecodeRecord(name: string, params: string, nCommand: nat)

  datatype Decoded = Decoded(state: HleState, record: DecodeRecord)

  /** The decode and execute routines of the opcode tables, by handler id. */
  datatype Callbacks = Callbacks(
    decode: (HandlerId, HleState, DecodeRecord) -> Decoded,
    exec: (HandlerId, HleState) -> HleState)

  /** The parser object. The RAM snapshot is not kept: its only use in this file
      is the fingerprint computed by `Reset`. */
  datatype Parser = Parser(
    ucodeChecksum: u32,
    ucodeVersion: UCodeVersion,
    ucodeName: string,
    commandTable: Option<seq<CommandInfo>>,
    rootDListSize: u32,
    rootDListEndAddress: u32,
    vertexBufferSize: nat,
    state: HleState,
    stateLog: seq<HleState>,
    decodedCommands: seq<DecodeRecord>,
    nCommand: nat)

  const UNKNOWN_UCODE_NAME: string := "unknown microcode"
  const UNKNOWN_COMMAND: string := "?"
  const DEFAULT_VERTEX_BUFFER_SIZE: nat := 16
  const COMMAND_SIZE: nat := 8

  /** The state after `memset(&m_State, 0, ...)` and `m_State.address = dlistAddr`. */
  function ZeroedState(address: u32): HleState
  {
    HleState(address, Command(0, 0), ZeroSegments(), 0, false)
  }

  /** Reset: fingerprint the microcode in the snapshot, select its registry
      entry, and restart at the root list. The decoded-command list is kept. */
  function Reset(p: Parser, snapshot: WordReader, registry: seq<UCodeVersionInfo>,
                 ucodeAddr: u32, dlistAddr: u32, dlistSize: u32): (r: Parser)
    ensures r.rootDListSize == dlistSize
    ensures r.rootDListEndAddress == (dlistAddr + dlistSize) % TWO_32
    ensures r.state.address == dlistAddr && r.state.command == Command(0, 0)
    ensures r.state.stackIndex == 0 && !r.state.done
    ensures forall k :: 0 <= k < SEGMENT_COUNT ==> r.state.segments[k] == 0
    ensures r.stateLog == [] && r.nCommand == 0
    ensures r.decodedCommands == p.decodedCommands
    ensures r.vertexBufferSize == DEFAULT_VERTEX_BUFFER_SIZE
    ensures r.ucodeChecksum == IntSum(UCodeWords(snapshot, ucodeAddr)) % TWO_32
    ensures (forall i :: 0 <= i < |registry| ==> registry[i].checksum != r.ucodeChecksum) ==>
              r.ucodeVersion == UCodeUnknown && r.ucodeName == UNKNOWN_UCODE_NAME && r.commandTable == None
    ensures forall i :: 0 <= i < |registry| && registry[i].checksum == r.ucodeChecksum
                        && (forall j :: 0 <= j < i ==> registry[j].checksum != r.ucodeChecksum) ==>
              r.ucodeVersion == registry[i].version && r.ucodeName == registry[i].name
              && r.commandTable == registry[i].commandTable
  {
    var checksum := Checksum(snapshot, ucodeAddr);
    var base := Parser(checksum, UCodeUnknown, UNKNOWN_UCODE_NAME, None, dlistSize,
                       Wrap32(dlistAddr + dlistSize), DEFAULT_VERTEX_BUFFER_SIZE,
                       ZeroedState(dlistAddr), [], p.decodedCommands, 0);
    GetUCodeVersionInfoFinds(registry, checksum);
    match GetUCodeVersionInfo(registry, checksum)
    case None => base
    case Some(info) =>
      base.(ucodeVersion := info.version, ucodeName := info.name, commandTable := info.commandTable)
  }

  /** GetRawCommand: the two words at the physical address of the current
      command, read from live memory. */
  function GetRawCommand(p: Parser, mem: WordReader): Command
  {
    var phys := SegmentedToPhysical(p.state.segments, p.state.address);
    Command(mem(phys), mem(Wrap32(phys + 4)))
  }

  /** GetCommandVirtualAddress. */
  function GetCommandVirtualAddress(p: Parser): u32
  {
    SegmentedToVirtual(p.state.segments, p.state.address)
  }

  /** The top byte of the first word. */
  function Opcode(c: Command): u8
  {
    c.w0 / 0x100_0000
  }

  /** The state a step logs: the current state carrying the freshly read command. */
  function PreStepState(p: Parser, mem: WordReader): HleState
  {
    p.state.(command := GetRawCommand(p, mem))
  }

  /** The state the decode and execute routines receive: the logged state with
      the address already advanced past the command. */
  function HandlerInput(p: Parser, mem: WordReader): HleState
  {
    PreStepState(p, mem).(address := Wrap32(p.state.address + COMMAND_SIZE))
  }

  /** The opcode lookup of a step: the global table wins; the microcode table
      is consulted only when the global table has no entry. */
  function Dispatch(global: seq<CommandInfo>, table: Option<seq<CommandInfo>>, opcode: u8): Option<CommandInfo>
  {
    var g := LookupCommand(global, opcode);
    if g.None? && table.Some? then LookupCommand(table.value, opcode) else g
  }

  /** The entry a step dispatches to carries the opcode; it is the first global
      entry for it when there is one, and otherwise the first entry of the
      microcode's table; there is none exactly when neither table has one. */
  lemma DispatchFinds(global: seq<CommandInfo>, table: Option<seq<CommandInfo>>, opcode: u8)
    ensures var r := Dispatch(global, table, opcode);
            && (r.Some? ==> r.value.commandByte == opcode)
            && (forall i :: 0 <= i < |global| && global[i].commandByte == opcode
                            && (forall j :: 0 <= j < i ==> global[j].commandByte != opcode) ==>
                  r == Some(global[i]))
            && ((forall i :: 0 <= i < |global| ==> global[i].commandByte != opcode) && table.Some? ==>
                  forall i :: 0 <= i < |table.value| && table.value[i].commandByte == opcode
                              && (forall j :: 0 <= j < i ==> table.value[j].commandByte != opcode) ==>
                    r == Some(table.value[i]))
            && (r.None? <==> (forall i :: 0 <= i < |global| ==> global[i].commandByte != opcode)
                             && (table.None? || forall i :: 0 <= i < |table.value| ==> table.value[i].commandByte != opcode))
  {
    LookupCommandFinds(global, opcode);
    if table.Some? {
      LookupCommandFinds(table.value, opcode);
    }
  }

  /** Name the record, then run the decode routine, then the execute routine,
      each only when the entry has one. */
  function ApplyHandlers(info: Option<CommandInfo>, cb: Callbacks, s: HleState, dc: DecodeRecord): Decoded
  {
    match info
    case None => Decoded(s, dc)
    case Some(ci) =>
      var named := dc.(name := ci.commandName);
      var decoded := if ci.decodeFunc.Some? then cb.decode(ci.decodeFunc.value, s, named) else Decoded(s, named);
      if ci.opFunc.Some? then Decoded(cb.exec(ci.opFunc.value, decoded.state), decoded.record) else decoded
  }

  /** Routines that never move the command address nor touch the done flag
      (everything but the list-control commands). */
  ghost predicate FlowPreserving(cb: Callbacks)
  {
    && (forall h, s, dc :: cb.decode(h, s, dc).state.address == s.address && cb.decode(h, s, dc).state.done == s.done)
    && (forall h, s :: cb.exec(h, s).address == s.address && cb.exec(h, s).done == s.done)
  }

  /** StepDecode: fetch, log, advance, dispatch, decode, execute, record. */
  function StepDecode(p: Parser, mem: WordReader, global: seq<CommandInfo>, cb: Callbacks): (r: Parser)
    ensures r.nCommand == p.nCommand + 1
  {
    var logged := PreStepState(p, mem);
    var info := Dispatch(global, p.commandTable, Opcode(logged.command));
    var placeholder := DecodeRecord(UNKNOWN_COMMAND, UNKNOWN_COMMAND, p.nCommand);
    var after := ApplyHandlers(info, cb, HandlerInput(p, mem), placeholder);
    var s := if p.ucodeVersion == UCodeUnknown && after.state.address >= p.rootDListEndAddress
             then after.state.(done := true) else after.state;
    p.(state := s,
       stateLog := p.stateLog + [logged],
       decodedCommands := p.decodedCommands + [after.record],
       nCommand := p.nCommand + 1)
  }

  /** A step appends exactly one state and one record and advances the counter;
      the logged state is the pre-step state carrying the freshly read words;
      the configuration chosen by Reset is untouched; and with unidentified
      microcode, reaching the end address sets the done flag. */
  lemma StepDecodeRecords(p: Parser, mem: WordReader, global: seq<CommandInfo>, cb: Callbacks)
    ensures var r := StepDecode(p, mem, global, cb);
            && |r.stateLog| == |p.stateLog| + 1 && r.stateLog[..|p.stateLog|] == p.stateLog
            && |r.decodedCommands| == |p.decodedCommands| + 1
            && r.decodedCommands[..|p.decodedCommands|] == p.decodedCommands
            && r.stateLog[|p.stateLog|].address == p.state.address
            && r.stateLog[|p.stateLog|].command == GetRawCommand(p, mem)
            && r.stateLog[|p.stateLog|].segments == p.state.segments
            && r.stateLog[|p.stateLog|].stackIndex == p.state.stackIndex
            && r.stateLog[|p.stateLog|].done == p.state.done
            && r.(state := p.state, stateLog := p.stateLog, decodedCommands := p.decodedCommands,
                  nCommand := p.nCommand) == p
            && (p.ucodeVersion == UCodeUnknown && r.state.address >= p.rootDListEndAddress ==> r.state.done)
  {
  }

  /** An opcode found in neither table yields the placeholder record and has no
      effect on the state beyond the advance past the command (and the
      end-address heuristic on the done flag). */
  lemma UnknownOpcodeIsSkipped(p: Parser, mem: WordReader, global: seq<CommandInfo>, cb: Callbacks)
    requires Dispatch(global, p.commandTable, Opcode(GetRawCommand(p, mem))).None?
    ensures var r := StepDecode(p, mem, global, cb);
            && r.decodedCommands[|p.decodedCommands|] == DecodeRecord(UNKNOWN_COMMAND, UNKNOWN_COMMAND, p.nCommand)
            && r.state.(done := false) == HandlerInput(p, mem).(done := false)
  {
  }

  /** The execute routine of an entry without a decode routine receives the
      state with the address already advanced; whatever it makes of the state
      is the new state, up to the end-address heuristic. */
  lemma ExecuteSeesAdvancedState(p: Parser, mem: WordReader, global: seq<CommandInfo>, cb: Callbacks)
    requires var info := Dispatch(global, p.commandTable, Opcode(GetRawCommand(p, mem)));
             info.Some? && info.value.decodeFunc.None? && info.value.opFunc.Some?
    ensures var info := Dispatch(global, p.commandTable, Opcode(GetRawCommand(p, mem)));
            StepDecode(p, mem, global, cb).state.(done := false)
            == cb.exec(info.value.opFunc.value, HandlerInput(p, mem)).(done := false)
  {
  }

  /** An entry with a decode routine: the routine receives the advanced state
      and a record already named after the entry, the record it returns is the
      one logged, and the execute routine, when there is one, runs on the state
      the decode routine returns. */
  lemma DecodeThenExecute(p: Parser, mem: WordReader, global: seq<CommandInfo>, cb: Callbacks)
    requires var info := Dispatch(global, p.commandTable, Opcode(GetRawCommand(p, mem)));
             info.Some? && info.value.decodeFunc.Some?
    ensures var info := Dispatch(global, p.commandTable, Opcode(GetRawCommand(p, mem))).value;
            var d := cb.decode(info.decodeFunc.value, HandlerInput(p, mem),
                               DecodeRecord(info.commandName, UNKNOWN_COMMAND, p.nCommand));
            var r := StepDecode(p, mem, global, cb);
            && r.decodedCommands[|p.decodedCommands|] == d.record
            && r.state.(done := false)
               == (if info.opFunc.Some? then cb.exec(info.opFunc.value, d.state) else d.state).(done := false)
  {
  }

  /** With routines that leave control flow alone, a step moves the address by
      8 and sets the done flag exactly when the end-address heuristic fires. */
  lemma StepAdvancesAddress(p: Parser, mem: WordReader, global: seq<CommandInfo>, cb: Callbacks)
    requires FlowPreserving(cb)
    ensures var r := StepDecode(p, mem, global, cb);
            && r.state.address == (p.state.address + COMMAND_SIZE) % TWO_32
            && (r.state.done <==> p.state.done
                                  || (p.ucodeVersion == UCodeUnknown && r.state.address >= p.rootDListEndAddress))
  {
  }

  /** `n` consecutive steps, regardless of the done flag. */
  function StepN(p: Parser, mem: WordReader, global: seq<CommandInfo>, cb: Callbacks, n: nat): Parser
    decreases n
  {
    if n == 0 then p else StepN(StepDecode(p, mem, global, cb), mem, global, cb, n - 1)
  }

  lemma StepNUnfolds(p: Parser, mem: WordReader, global: seq<CommandInfo>, cb: Callbacks)
    ensures forall k: nat {:trigger StepN(p, mem, global, cb, k)} :: k >= 1 ==>
              StepN(p, mem, global, cb, k) == StepN(StepDecode(p, mem, global, cb), mem, global, cb, k - 1)
  {
  }

  /** After `n` steps both logs have grown by exactly `n` entries, the old
      entries are kept, and the configuration is unchanged. */
  lemma {:induction false} StepNLogs(p: Parser, mem: WordReader, global: seq<CommandInfo>, cb: Callbacks, n: nat)
    ensures var q := StepN(p, mem, global, cb, n);
            && |q.stateLog| == |p.stateLog| + n && q.stateLog[..|p.stateLog|] == p.stateLog
            && |q.decodedCommands| == |p.decodedCommands| + n
            && q.decodedCommands[..|p.decodedCommands|] == p.decodedCommands
            && q.nCommand == p.nCommand + n
            && q.(state := p.state, stateLog := p.stateLog, decodedCommands := p.decodedCommands,
                  nCommand := p.nCommand) == p
    decreases n
  {
    if n > 0 {
      var p1 := StepDecode(p, mem, global, cb);
      StepDecodeRecords(p, mem, global, cb);
      StepNLogs(p1, mem, global, cb, n - 1);
      var q := StepN(p1, mem, global, cb, n - 1);
      assert q.stateLog[..|p.stateLog|] == q.stateLog[..|p1.stateLog|][..|p.stateLog|];
      assert q.decodedCommands[..|p.decodedCommands|]
          == q.decodedCommands[..|p1.decodedCommands|][..|p.decodedCommands|];
    }
  }

  /** GetLoggedState: the i-th logged state, or none past the end of the log. */
  function GetLoggedState(p: Parser, index: nat): (r: Option<HleState>)
    ensures r.None? <==> index >= |p.stateLog|
    ensures r.Some? ==> r.value == p.stateLog[index]
  {
    if index >= |p.stateLog| then None else Some(p.stateLog[index])
  }

  /** The first state logged during `n` steps is the state before the first. */
  lemma FirstLoggedState(p: Parser, mem: WordReader, global: seq<CommandInfo>, cb: Callbacks, n: nat)
    requires n > 0
    ensures |p.stateLog| < |StepN(p, mem, global, cb, n).stateLog|
    ensures StepN(p, mem, global, cb, n).stateLog[|p.stateLog|] == PreStepState(p, mem)
  {
    var p1 := StepDecode(p, mem, global, cb);
    StepDecodeRecords(p, mem, global, cb);
    StepNLogs(p1, mem, global, cb, n - 1);
    var q := StepN(p1, mem, global, cb, n - 1);
    assert q.stateLog[|p.stateLog|] == q.stateLog[..|p1.stateLog|][|p.stateLog|];
  }

  /** The i-th state logged during `n` steps is the state just before the i-th
      of those steps, carrying the command that step read. */
  lemma {:induction false} LoggedStateIsPreStepState(p: Parser, mem: WordReader, global: seq<CommandInfo>,
                                                     cb: Callbacks, n: nat, i: nat)
    requires i < n
    ensures GetLoggedState(StepN(p, mem, global, cb, n), |p.stateLog| + i)
            == Some(PreStepState(StepN(p, mem, global, cb, i), mem))
    decreases n
  {
    if i == 0 {
      FirstLoggedState(p, mem, global, cb, n);
    } else {
      var p1 := StepDecode(p, mem, global, cb);
      LoggedStateIsPreStepState(p1, mem, global, cb, n - 1, i - 1);
      StepNUnfolds(p, mem, global, cb);
      assert StepN(p, mem, global, cb, n) == StepN(p1, mem, global, cb, n - 1);
      assert StepN(p, mem, global, cb, i) == StepN(p1, mem, global, cb, i - 1);
    }
  }

  /** Run: step until the done flag is set. The source loops without a bound;
      `fuel` bounds the number of steps. */
  function Run(p: Parser, mem: WordReader, global: seq<CommandInfo>, cb: Callbacks, fuel: nat): (r: Parser)
    ensures p.nCommand <= r.nCommand <= p.nCommand + fuel
    ensures r.state.done || r.nCommand == p.nCommand + fuel
    decreases fuel
  {
    if fuel == 0 || p.state.done then
      p
    else
      Run(StepDecode(p, mem, global, cb), mem, global, cb, fuel - 1)
  }

  /** A run is the steps it counted, and none of them but the last found the
      done flag set: the loop stops at the first step that sets it. */
  lemma {:induction false} RunIsSteps(p: Parser, mem: WordReader, global: seq<CommandInfo>, cb: Callbacks, fuel: nat)
    ensures var r := Run(p, mem, global, cb, fuel);
            && r == StepN(p, mem, global, cb, r.nCommand - p.nCommand)
            && forall k :: 0 <= k < r.nCommand - p.nCommand ==> !StepN(p, mem, global, cb, k).state.done
    decreases fuel
  {
    if fuel == 0 || p.state.done {
      assert Run(p, mem, global, cb, fuel) == p == StepN(p, mem, global, cb, 0);
    } else {
      var q := StepDecode(p, mem, global, cb);
      RunIsSteps(q, mem, global, cb, fuel - 1);
      RunExtends(p, mem, global, cb, Run(q, mem, global, cb, fuel - 1).nCommand - q.nCommand,
                 Run(q, mem, global, cb, fuel - 1));
    }
  }

  /** A run that took `m` steps after a first step took `m + 1` steps, none of
      them after the done flag was set. */
  lemma RunExtends(p: Parser, mem: WordReader, global: seq<CommandInfo>, cb: Callbacks, m: nat, r: Parser)
    requires !p.state.done
    requires r == StepN(StepDecode(p, mem, global, cb), mem, global, cb, m)
    requires forall k :: 0 <= k < m ==> !StepN(StepDecode(p, mem, global, cb), mem, global, cb, k).state.done
    ensures r == StepN(p, mem, global, cb, m + 1)
    ensures forall k :: 0 <= k < m + 1 ==> !StepN(p, mem, global, cb, k).state.done
  {
    StepNUnfolds(p, mem, global, cb);
    forall k | 0 <= k < m + 1
      ensures !StepN(p, mem, global, cb, k).state.done
    {
      if k > 0 {
        assert StepN(p, mem, global, cb, k) == StepN(StepDecode(p, mem, global, cb), mem, global, cb, k - 1);
      }
    }
  }

  /** Number of commands a list of `size` bytes holds before the end-address
      heuristic fires: at least one, then one per started 8 bytes. */
  function CommandsBeforeEnd(size: nat): (n: nat)
    ensures n >= 1
  {
    if size == 0 then 1 else (size + COMMAND_SIZE - 1) / COMMAND_SIZE
  }

  lemma {:induction false} RunUnknownFromAddress(p: Parser, mem: WordReader, global: seq<CommandInfo>,
                                                 cb: Callbacks, fuel: nat, n: nat)
    requires p.ucodeVersion == UCodeUnknown && FlowPreserving(cb) && !p.state.done
    requires 1 <= n <= fuel
    requires p.state.address + COMMAND_SIZE * n >= p.rootDListEndAddress
    requires n == 1 || p.state.address + COMMAND_SIZE * (n - 1) < p.rootDListEndAddress
    requires p.state.address + COMMAND_SIZE * n < TWO_32
    ensures Run(p, mem, global, cb, fuel).nCommand == p.nCommand + n
    ensures Run(p, mem, global, cb, fuel).state.done
    decreases n
  {
    var q := StepDecode(p, mem, global, cb);
    StepAdvancesAddress(p, mem, global, cb);
    if n > 1 {
      RunUnknownFromAddress(q, mem, global, cb, fuel - 1, n - 1);
    }
  }

  /** With unidentified microcode and routines that leave control flow alone, a
      run started by Reset executes exactly one command per started 8 bytes of
      the declared list length (at least one) and then stops. */
  lemma UnknownMicrocodeStopsAtEnd(p0: Parser, snapshot: WordReader, registry: seq<UCodeVersionInfo>,
                                   ucodeAddr: u32, dlistAddr: u32, dlistSize: u32,
                                   mem: WordReader, global: seq<CommandInfo>, cb: Callbacks, fuel: nat)
    requires GetUCodeVersionInfo(registry, Checksum(snapshot, ucodeAddr)).None?
    requires FlowPreserving(cb)
    requires dlistAddr + dlistSize + COMMAND_SIZE < TWO_32
    requires fuel >= CommandsBeforeEnd(dlistSize)
    ensures var r := Run(Reset(p0, snapshot, registry, ucodeAddr, dlistAddr, dlistSize), mem, global, cb, fuel);
            r.state.done && r.nCommand == CommandsBeforeEnd(dlistSize)
            && |r.stateLog| == |r.decodedCommands| - |p0.decodedCommands| == CommandsBeforeEnd(dlistSize)
  {
    var p := Reset(p0, snapshot, registry, ucodeAddr, dlistAddr, dlistSize);
    var n := CommandsBeforeEnd(dlistSize);
    RunUnknownFromAddress(p, mem, global, cb, fuel, n);
    RunIsSteps(p, mem, global, cb, fuel);
    StepNLogs(p, mem, global, cb, n);
  }
}
