/** The Fast3D display-list walker of the scripting helpers (dlutil.js,
    `DLParser.prototype.parseF3D`), restricted to its integer state: the display
    list address, sixteen segment bases, the sixteen-entry jump stack with its
    index, and the matrix-stack index. Matrix and vertex arithmetic is floating
    point and is not modelled; a thrown exception (a RAM read out of range, a
    property read of `undefined`) is the single outcome `Fault`. Addresses are
    JavaScript numbers: plain integers that never wrap, except where they are
    stored into a `Uint32Array`. */
module F3DWalker {
  import opened Common
  import Segments

  const G_MTX: int := 0x01
  const G_VTX: int := 0x04
  const G_DL: int := 0x06
  const G_ENDDL: int := 0xB8
  const G_MOVEWORD: int := 0xBC
  const G_POPMTX: int := 0xBD
  const G_TRI1: int := 0xBF

  const G_MW_SEGMENT: int := 0x06
  const STACK_DEPTH: nat := 16
  const MATRIX_SLOTS: int := 16
  const SEGMENT_MASK_SPAN: int := 0x2000_0000   // `w1 & 0x1FFFFFFF` keeps 29 bits

  /** A `Uint32Array(16)`. */
  type JumpStack = s: seq<u32> | |s| == STACK_DEPTH witness seq(STACK_DEPTH, _ => 0)

  datatype Walker = Walker(
    address: int,
    segments: Segments.SegmentTable,
    jumpStack: JumpStack,
    stackIndex: nat,
    matrixIndex: int,
    done: bool)

  datatype StepResult = Next(walker: Walker) | Fault

  /** The walker before the first command: every segment and stack slot zero. */
  function Initial(dlistAddr: int): (s: Walker)
    ensures s.address == dlistAddr && !s.done
    ensures s.stackIndex == 0 && s.matrixIndex == 0
    ensures forall k :: 0 <= k < Segments.SEGMENT_COUNT ==> s.segments[k] == 0
  {
    Walker(dlistAddr, Segments.ZeroSegments(), seq(STACK_DEPTH, _ => 0), 0, 0, false)
  }

  /** `ram.readUInt32BE(a)`. */
  function ReadU32BE(ram: seq<u8>, a: nat): (w: u32)
    requires a + 4 <= |ram|
    ensures w / 0x100_0000 == ram[a]
    ensures (w / 0x1_0000) % 0x100 == ram[a + 1]
    ensures (w / 0x100) % 0x100 == ram[a + 2]
    ensures w % 0x100 == ram[a + 3]
  {
    var low24 := ram[a + 1] as int * 0x1_0000 + ram[a + 2] as int * 0x100 + ram[a + 3];
    var high24 := ram[a] as int * 0x1_0000 + ram[a + 1] as int * 0x100 + ram[a + 2];
    var high16 := ram[a] as int * 0x100 + ram[a + 1];
    var low16 := ram[a + 2] as int * 0x100 + ram[a + 3];
    var w := ram[a] as int * 0x100_0000 + low24;
    DivModUnique(w, 0x100_0000, ram[a], low24);
    DivModUnique(w, 0x1_0000, high16, low16);
    DivModUnique(high16, 0x100, ram[a], ram[a + 1]);
    DivModUnique(w, 0x100, high24, ram[a + 3]);
    DivModUnique(high24, 0x100, high16, ram[a + 2]);
    w
  }

  /** `spSegments[(w1 >>> 24) & 0x0F] + (w1 & 0x00FFFFFF)`: a JavaScript sum,
      which does not wrap. */
  function JsSegmented(segments: Segments.SegmentTable, w: u32): (a: nat)
    ensures a == segments[Segments.SegmentOf(w)] + Segments.OffsetOf(w)
  {
    segments[(w / 0x100_0000) % 16] + w % 0x100_0000
  }

  /** The operands of G_VTX: how many vertices, the first slot, and where in RAM. */
  datatype VertexLoad = VertexLoad(count: nat, slot: nat, address: nat)

  function VertexOperands(segments: Segments.SegmentTable, w0: u32, w1: u32): (v: VertexLoad)
    ensures 1 <= v.count <= 16 && v.slot < 16
    ensures v.address == JsSegmented(segments, w1)
  {
    VertexLoad((w0 / 0x10_0000) % 0x10 + 1, (w0 / 0x1_0000) % 0x10, JsSegmented(segments, w1))
  }

  /** G_TRI1 looks its vertices up at `byte / 10`; a byte that is not a multiple
      of ten gives a fractional index, an `undefined` vertex, and a TypeError. */
  predicate TriangleIndicesIntegral(w1: u32)
  {
    && ((w1 / 0x1_0000) % 0x100) % 10 == 0
    && ((w1 / 0x100) % 0x100) % 10 == 0
    && (w1 % 0x100) % 10 == 0
  }

  /** The effect of one command, the address already advanced past it. */
  function Execute(ram: seq<u8>, s: Walker, w0: u32, w1: u32): StepResult
  {
    var op := w0 / 0x100_0000;
    if op == G_VTX then
      var v := VertexOperands(s.segments, w0, w1);
      // the last vertex's z coordinate is read at `address + 16 * (count - 1) + 4`
      if v.address + 16 * (v.count - 1) + 6 > |ram| then Fault else Next(s)
    else if op == G_TRI1 then
      if TriangleIndicesIntegral(w1) then Next(s) else Fault
    else if op == G_MTX then
      var flags := (w0 / 0x1_0000) % 0x100;
      var matrixAddr := JsSegmented(s.segments, w1);
      if matrixAddr + 64 > |ram| then Fault
      else if flags % 2 == 1 then Next(s)                               // G_MTX_PROJECTION
      else
        var m := if (flags / 4) % 2 == 1 then s.matrixIndex + 1 else s.matrixIndex;   // G_MTX_PUSH
        var isLoad := (flags / 2) % 2 == 1;                              // G_MTX_LOAD
        if !(0 <= m < MATRIX_SLOTS) || (!isLoad && !(0 <= s.matrixIndex < MATRIX_SLOTS)) then Fault
        else Next(s.(matrixIndex := m))
    else if op == G_POPMTX then
      Next(s.(matrixIndex := s.matrixIndex - 1))
    else if op == G_DL then
      var pushed :=
        if (w0 / 0x1_0000) % 0x100 == 1 then s                           // G_DL_NOPUSH: a branch
        else s.(jumpStack := if s.stackIndex < STACK_DEPTH then s.jumpStack[s.stackIndex := Wrap32(s.address)]
                             else s.jumpStack,                           // a store past the end is ignored
                stackIndex := s.stackIndex + 1);
      Next(pushed.(address := JsSegmented(s.segments, w1)))
    else if op == G_ENDDL then
      if s.stackIndex > 0 then
        // a pop past the end reads `undefined`; the walk is stopped there
        if s.stackIndex - 1 < STACK_DEPTH then
          Next(s.(stackIndex := s.stackIndex - 1, address := s.jumpStack[s.stackIndex - 1]))
        else Fault
      else Next(s.(done := true))
    else if op == G_MOVEWORD then
      var offset := (w0 / 0x100) % 0x100;
      // a fractional or out-of-range Uint32Array index is ignored
      if w0 % 0x100 == G_MW_SEGMENT && offset % 4 == 0 && offset / 4 < Segments.SEGMENT_COUNT then
        Next(s.(segments := s.segments[offset / 4 := w1 % SEGMENT_MASK_SPAN]))
      else Next(s)
    else
      Next(s)
  }

  /** One iteration of the loop: fetch `w0`, `w1` big-endian at the address,
      advance by 8, dispatch on the top byte of `w0`. */
  function Step(ram: seq<u8>, s: Walker): (r: StepResult)
    ensures (s.address < 0 || s.address + 8 > |ram|) ==> r.Fault?
  {
    if s.address < 0 || s.address + 8 > |ram| then Fault
    else
      Execute(ram, s.(address := s.address + 8), ReadU32BE(ram, s.address), ReadU32BE(ram, s.address + 4))
  }

  /** The command words at the walker's address. */
  function CommandAt(ram: seq<u8>, s: Walker): (w: (u32, u32))
    requires 0 <= s.address && s.address + 8 <= |ram|
  {
    (ReadU32BE(ram, s.address), ReadU32BE(ram, s.address + 4))
  }

  function Opcode(w0: u32): u8
  {
    w0 / 0x100_0000
  }

  /** Opcodes outside the switch change nothing but the address. */
  lemma OtherOpcodesPassThrough(ram: seq<u8>, s: Walker)
    requires 0 <= s.address && s.address + 8 <= |ram|
    requires Opcode(CommandAt(ram, s).0) !in {G_MTX, G_VTX, G_DL, G_ENDDL, G_MOVEWORD, G_POPMTX, G_TRI1}
    ensures Step(ram, s) == Next(s.(address := s.address + 8))
  {
  }

  /** G_VTX loads 1 to 16 vertices at a 16-byte stride from the translated
      address, and its only integer effect is the advance; it throws exactly when
      the last vertex lies outside RAM. */
  lemma VertexLoadEffect(ram: seq<u8>, s: Walker)
    requires 0 <= s.address && s.address + 8 <= |ram|
    requires Opcode(CommandAt(ram, s).0) == G_VTX
    ensures var (w0, w1) := CommandAt(ram, s);
            var v := VertexOperands(s.segments, w0, w1);
            && v.count == (w0 / 0x10_0000) % 0x10 + 1
            && v.slot == (w0 / 0x1_0000) % 0x10
            && v.address == s.segments[Segments.SegmentOf(w1)] + Segments.OffsetOf(w1)
            && (Step(ram, s).Fault? <==> v.address + 16 * (v.count - 1) + 6 > |ram|)
            && (Step(ram, s).Next? ==> Step(ram, s).walker == s.(address := s.address + 8))
  {
  }

  /** G_MOVEWORD with index G_MW_SEGMENT writes the low 29 bits of `w1` into
      segment `offset / 4` and touches nothing else; any other index is a no-op. */
  lemma MoveWordEffect(ram: seq<u8>, s: Walker)
    requires 0 <= s.address && s.address + 8 <= |ram|
    requires Opcode(CommandAt(ram, s).0) == G_MOVEWORD
    ensures Step(ram, s).Next?
    ensures var (w0, w1) := CommandAt(ram, s);
            var t := Step(ram, s).walker;
            var offset := (w0 / 0x100) % 0x100;
            && t.(segments := s.segments) == s.(address := s.address + 8)
            && (w0 % 0x100 == G_MW_SEGMENT && offset % 4 == 0 && offset / 4 < Segments.SEGMENT_COUNT ==>
                  t.segments == s.segments[offset / 4 := w1 % SEGMENT_MASK_SPAN])
            && (!(w0 % 0x100 == G_MW_SEGMENT && offset % 4 == 0 && offset / 4 < Segments.SEGMENT_COUNT) ==>
                  t.segments == s.segments)
  {
  }

  /** G_POPMTX pops the modelview matrix stack: the index drops by one and
      nothing else changes, with no bound check at either end. */
  lemma PopMatrixEffect(ram: seq<u8>, s: Walker)
    requires 0 <= s.address && s.address + 8 <= |ram|
    requires Opcode(CommandAt(ram, s).0) == G_POPMTX
    ensures Step(ram, s) == Next(s.(address := s.address + 8, matrixIndex := s.matrixIndex - 1))
  {
  }

  /** G_DL jumps to the translated `w1`; unless it is a branch it pushes the
      address of the following command. */
  lemma DisplayListCallEffect(ram: seq<u8>, s: Walker)
    requires 0 <= s.address && s.address + 8 <= |ram|
    requires Opcode(CommandAt(ram, s).0) == G_DL
    ensures Step(ram, s).Next?
    ensures var t := Step(ram, s).walker;
            && t.address == JsSegmented(s.segments, CommandAt(ram, s).1)
            && t.segments == s.segments && t.matrixIndex == s.matrixIndex && t.done == s.done
    ensures (CommandAt(ram, s).0 / 0x1_0000) % 0x100 == 1 ==>
              Step(ram, s).walker == s.(address := Step(ram, s).walker.address)
    ensures (CommandAt(ram, s).0 / 0x1_0000) % 0x100 != 1 ==>
              var t := Step(ram, s).walker;
              && t.stackIndex == s.stackIndex + 1
              && (s.stackIndex < STACK_DEPTH ==> t.jumpStack[s.stackIndex] == Wrap32(s.address + 8))
              && (forall k :: 0 <= k < STACK_DEPTH && k != s.stackIndex ==> t.jumpStack[k] == s.jumpStack[k])
  {
    var (w0, w1) := CommandAt(ram, s);
    assert Step(ram, s) == Execute(ram, s.(address := s.address + 8), w0, w1);
  }

  /** G_ENDDL on an empty stack finishes the walk; otherwise it pops. */
  lemma EndDisplayListEffect(ram: seq<u8>, s: Walker)
    requires 0 <= s.address && s.address + 8 <= |ram|
    requires Opcode(CommandAt(ram, s).0) == G_ENDDL
    ensures s.stackIndex == 0 ==> Step(ram, s) == Next(s.(address := s.address + 8, done := true))
    ensures 0 < s.stackIndex <= STACK_DEPTH ==>
              Step(ram, s) == Next(s.(address := s.jumpStack[s.stackIndex - 1], stackIndex := s.stackIndex - 1))
    ensures s.stackIndex > STACK_DEPTH ==> Step(ram, s).Fault?
  {
  }

  /** Call and return are inverse: after a pushing G_DL at `a`, a G_ENDDL met
      with the same stack resumes at `a + 8` (as a `uint32`), with the stack
      index restored. */
  lemma CallThenReturn(ram: seq<u8>, s: Walker, callee: Walker)
    requires 0 <= s.address && s.address + 8 <= |ram|
    requires Opcode(CommandAt(ram, s).0) == G_DL && (CommandAt(ram, s).0 / 0x1_0000) % 0x100 != 1
    requires s.stackIndex < STACK_DEPTH
    requires 0 <= callee.address && callee.address + 8 <= |ram|
    requires Opcode(CommandAt(ram, callee).0) == G_ENDDL
    requires Step(ram, s).Next?
    requires callee.jumpStack == Step(ram, s).walker.jumpStack
    requires callee.stackIndex == Step(ram, s).walker.stackIndex
    ensures Step(ram, callee).Next?
    ensures Step(ram, callee).walker.address == Wrap32(s.address + 8)
    ensures |ram| < TWO_32 ==> Step(ram, callee).walker.address == s.address + 8
    ensures Step(ram, callee).walker.stackIndex == s.stackIndex
  {
    DisplayListCallEffect(ram, s);
    EndDisplayListEffect(ram, callee);
  }

  /** Every segment base fits in 29 bits. */
  predicate SegmentsBelow29(s: Walker)
  {
    forall k :: 0 <= k < Segments.SEGMENT_COUNT ==> s.segments[k] < SEGMENT_MASK_SPAN
  }

  /** Only G_MOVEWORD writes a segment, and it masks to 29 bits. */
  lemma StepKeepsSegmentsBelow29(ram: seq<u8>, s: Walker)
    requires SegmentsBelow29(s)
    ensures Step(ram, s).Next? ==> SegmentsBelow29(Step(ram, s).walker)
  {
  }

  /** The walker's translation agrees with CHleDmemState::SegmentedToPhysical on
      the same segment table up to the `uint32` wrap, and exactly while every
      segment fits in 29 bits. */
  lemma TranslationAgrees(s: Walker, w: u32)
    ensures Wrap32(JsSegmented(s.segments, w)) == Segments.SegmentedToPhysical(s.segments, w)
    ensures SegmentsBelow29(s) ==> JsSegmented(s.segments, w) == Segments.SegmentedToPhysical(s.segments, w)
  {
  }

  datatype Outcome =
    | Finished(final: Walker, steps: nat)
    | Faulted(at: Walker, steps: nat)
    | Unfinished(at: Walker)

  /** The `for (done = false; !done;)` loop, bounded by `fuel` iterations. */
  function Walk(ram: seq<u8>, s: Walker, fuel: nat): (r: Outcome)
    ensures r.Finished? ==> r.final.done && r.steps <= fuel
    ensures r.Faulted? ==> !r.at.done && Step(ram, r.at).Fault? && r.steps < fuel
    ensures r.Unfinished? ==> !r.at.done
    decreases fuel
  {
    if s.done then Finished(s, 0)
    else if fuel == 0 then Unfinished(s)
    else
      match Step(ram, s)
      case Fault => Faulted(s, 0)
      case Next(t) =>
        match Walk(ram, t, fuel - 1)
        case Finished(f, n) => Finished(f, n + 1)
        case Faulted(f, n) => Faulted(f, n + 1)
        case Unfinished(f) => Unfinished(f)
  }

  /** parseF3D: walk from the list's address with cleared segments and stacks. */
  function ParseF3D(ram: seq<u8>, dlistAddr: int, fuel: nat): Outcome
  {
    Walk(ram, Initial(dlistAddr), fuel)
  }

  /** The walker a finished or stuck walk stops in. */
  function StopState(r: Outcome): Walker
  {
    match r
    case Finished(f, _) => f
    case Faulted(f, _) => f
    case Unfinished(f) => f
  }

  /** The 29-bit bound on segments holds all along a walk. */
  lemma {:induction false} WalkKeepsSegmentsBelow29(ram: seq<u8>, s: Walker, fuel: nat)
    requires SegmentsBelow29(s)
    ensures SegmentsBelow29(StopState(Walk(ram, s, fuel)))
    decreases fuel
  {
    if !s.done && fuel > 0 && Step(ram, s).Next? {
      StepKeepsSegmentsBelow29(ram, s);
      WalkKeepsSegmentsBelow29(ram, Step(ram, s).walker, fuel - 1);
    }
  }

  /** So wherever parseF3D stops, its segment translation is exactly the
      interpreter's physical translation. */
  lemma ParseTranslationMatchesPhysical(ram: seq<u8>, dlistAddr: int, fuel: nat, w: u32)
    ensures var s := StopState(ParseF3D(ram, dlistAddr, fuel));
            JsSegmented(s.segments, w) == Segments.SegmentedToPhysical(s.segments, w)
  {
    WalkKeepsSegmentsBelow29(ram, Initial(dlistAddr), fuel);
    TranslationAgrees(StopState(ParseF3D(ram, dlistAddr, fuel)), w);
  }

  /** The RAM of the call-and-return example: a G_DL to 0x18 at 0, a G_ENDDL at
      8, and a G_ENDDL at 0x18. */
  const CALL_RAM: seq<u8> := [0x06, 0, 0, 0,  0, 0, 0, 0x18,
                              0xB8, 0, 0, 0,  0, 0, 0, 0,
                              0, 0, 0, 0,     0, 0, 0, 0,
                              0xB8, 0, 0, 0,  0, 0, 0, 0]

  lemma CallRamCall()
    ensures |CALL_RAM| == 32
    ensures ReadU32BE(CALL_RAM, 0) == 0x0600_0000 && ReadU32BE(CALL_RAM, 4) == 0x18
  {
  }

  lemma CallRamEnds()
    ensures |CALL_RAM| == 32
    ensures ReadU32BE(CALL_RAM, 8) == 0xB800_0000 && ReadU32BE(CALL_RAM, 0x18) == 0xB800_0000
  {
  }

  /** The walker inside the callee: at 0x18, with 8 pushed. */
  function InCallee(): Walker
  {
    Initial(0).(address := 0x18, jumpStack := Initial(0).jumpStack[0 := 8], stackIndex := 1)
  }

  lemma CallStep()
    ensures Step(CALL_RAM, Initial(0)) == Next(InCallee())
  {
    CallRamCall();
  }

  lemma ReturnStep()
    ensures Step(CALL_RAM, InCallee()) == Next(Initial(0).(address := 8, jumpStack := InCallee().jumpStack))
  {
    CallRamEnds();
  }

  lemma EndStep()
    ensures var s := Initial(0).(address := 8, jumpStack := InCallee().jumpStack);
            Step(CALL_RAM, s) == Next(s.(address := 16, done := true))
  {
    CallRamEnds();
  }

  /** A walk that takes a step goes on from where the step left it. */
  lemma WalkStep(ram: seq<u8>, s: Walker, t: Walker, fuel: nat, f: Walker, n: nat)
    requires !s.done && fuel > 0 && Step(ram, s) == Next(t) && Walk(ram, t, fuel - 1) == Finished(f, n)
    ensures Walk(ram, s, fuel) == Finished(f, n + 1)
  {
  }

  /** A list that calls a sub-list at 0x18 which ends at once, then ends itself:
      three commands, finishing after the call with an empty stack. */
  lemma CallReturnScenario()
    ensures var r := ParseF3D(CALL_RAM, 0, 10);
            r.Finished? && r.steps == 3 && r.final.address == 16 && r.final.stackIndex == 0
  {
    var s1 := InCallee();
    var s2 := Initial(0).(address := 8, jumpStack := InCallee().jumpStack);
    var s3 := s2.(address := 16, done := true);
    CallStep();
    ReturnStep();
    EndStep();
    assert Walk(CALL_RAM, s3, 7) == Finished(s3, 0);
    WalkStep(CALL_RAM, s2, s3, 8, s3, 0);
    WalkStep(CALL_RAM, s1, s2, 9, s3, 1);
    WalkStep(CALL_RAM, Initial(0), s1, 10, s3, 2);
  }
}
