/** The scripting interface's CPU register objects (ScriptAPI_registers.cpp):
    `gpr`/`ugpr` read and write the lower/upper 32-bit half of a general
    purpose register, or of HI/LO; `cop0` reads and writes coprocessor-0
    registers by name. Register names are resolved through fixed tables, and
    each access checks its error conditions in a fixed order. */
module Registers {
  import opened Common
  import opened Duktape
  import CLib

  /** The names GPRIndex accepts, in register-number order. */
  const GPR_NAMES: seq<string> := [
    "r0", "at", "v0", "v1", "a0", "a1", "a2", "a3",
    "t0", "t1", "t2", "t3", "t4", "t5", "t6", "t7",
    "s0", "s1", "s2", "s3", "s4", "s5", "s6", "s7",
    "t8", "t9", "k0", "k1", "gp", "sp", "fp", "ra"]

  /** The names FPRIndex accepts, in register-number order. */
  const FPR_NAMES: seq<string> := [
    "f0", "f1", "f2", "f3", "f4", "f5", "f6", "f7", "f8",
    "f9", "f10", "f11", "f12", "f13", "f14", "f15", "f16",
    "f17", "f18", "f19", "f20", "f21", "f22", "f23", "f24",
    "f25", "f26", "f27", "f28", "f29", "f30", "f31"]

  /** The loop shared by GPRIndex and FPRIndex: the position of the first
      name equal to `key`, or -1. */
  function IndexOfName(names: seq<string>, key: string): int
  {
    if |names| == 0 then -1
    else if names[0] == key then 0
    else
      var k := IndexOfName(names[1..], key);
      if k < 0 then -1 else k + 1
  }

  /** The search returns -1 exactly for a name not in the table, and otherwise
      the first position holding it. */
  lemma {:induction false} IndexOfNameFinds(names: seq<string>, key: string)
    ensures var r := IndexOfName(names, key);
            && -1 <= r < |names|
            && (r == -1 <==> key !in names)
            && (r >= 0 ==> names[r] == key && forall j :: 0 <= j < r ==> names[j] != key)
  {
    if |names| > 0 && names[0] != key {
      IndexOfNameFinds(names[1..], key);
      assert forall j :: 0 < j < |names| ==> names[j] == names[1..][j - 1];
      assert key in names[1..] <==> key in names;
    }
  }

  /** GPRIndex on the C string of the key. */
  function GprIndex(name: string): int
  {
    IndexOfName(GPR_NAMES, name)
  }

  /** FPRIndex on the C string of the key. */
  function FprIndex(name: string): int
  {
    IndexOfName(FPR_NAMES, name)
  }

  function DigitOf(c: char): int
  {
    c as int - '0' as int
  }

  /** Reference numbering by the MIPS o32 calling convention: r0, at, v0-v1,
      a0-a3, t0-t7, s0-s7, t8-t9, k0-k1, gp, sp, fp, ra are registers 0..31;
      anything else is -1. */
  function AbiNumber(s: string): int
  {
    if |s| != 2 then -1
    else
      var c, d := s[0], s[1];
      var n := DigitOf(d);
      if c == 'r' then (if d == '0' then 0 else if d == 'a' then 31 else -1)
      else if c == 'a' then (if d == 't' then 1 else if 0 <= n <= 3 then 4 + n else -1)
      else if c == 'v' then (if 0 <= n <= 1 then 2 + n else -1)
      else if c == 't' then (if 0 <= n <= 7 then 8 + n else if 8 <= n <= 9 then 16 + n else -1)
      else if c == 's' then (if 0 <= n <= 7 then 16 + n else if d == 'p' then 29 else -1)
      else if c == 'k' then (if 0 <= n <= 1 then 26 + n else -1)
      else if c == 'g' && d == 'p' then 28
      else if c == 'f' && d == 'p' then 30
      else -1
  }

  /** Reference numbering of the FPU registers: "f" followed by the register
      number in decimal without leading zeros. */
  function FpuNumber(s: string): int
  {
    if |s| == 2 && s[0] == 'f' && 0 <= DigitOf(s[1]) <= 9 then DigitOf(s[1])
    else if |s| == 3 && s[0] == 'f' && 1 <= DigitOf(s[1]) <= 3 && 0 <= DigitOf(s[2]) <= 9
            && 10 * DigitOf(s[1]) + DigitOf(s[2]) < 32
    then 10 * DigitOf(s[1]) + DigitOf(s[2])
    else -1
  }

  lemma GprNamesLow()
    ensures forall i :: 0 <= i < 16 ==> AbiNumber(GPR_NAMES[i]) == i
  {
  }

  lemma GprNamesHigh()
    ensures forall i :: 16 <= i < 32 ==> AbiNumber(GPR_NAMES[i]) == i
  {
  }

  lemma FprNamesLow()
    ensures forall i :: 0 <= i < 16 ==> FpuNumber(FPR_NAMES[i]) == i
  {
  }

  lemma FprNamesHigh()
    ensures forall i :: 16 <= i < 32 ==> FpuNumber(FPR_NAMES[i]) == i
  {
  }

  /** Table position i holds the name of register i. */
  lemma GprNameNumber(i: int)
    requires 0 <= i < 32
    ensures AbiNumber(GPR_NAMES[i]) == i
  {
    if i < 16 { GprNamesLow(); } else { GprNamesHigh(); }
  }

  lemma FprNameNumber(i: int)
    requires 0 <= i < 32
    ensures FpuNumber(FPR_NAMES[i]) == i
  {
    if i < 16 { FprNamesLow(); } else { FprNamesHigh(); }
  }

  /** GPRIndex maps the 32 names one-to-one onto 0..31 in table order, each to
      its number under the calling convention, and every other name to -1. */
  lemma GprIndexNumbersNames(name: string)
    ensures -1 <= GprIndex(name) < 32
    ensures GprIndex(name) == -1 <==> name !in GPR_NAMES
    ensures GprIndex(name) >= 0 ==> GPR_NAMES[GprIndex(name)] == name && AbiNumber(name) == GprIndex(name)
  {
    IndexOfNameFinds(GPR_NAMES, name);
    var k := GprIndex(name);
    if k >= 0 {
      GprNameNumber(k);
    }
  }

  /** Each table name resolves to its own position: the mapping is onto 0..31. */
  lemma GprIndexOfTableName(i: int)
    requires 0 <= i < 32
    ensures GprIndex(GPR_NAMES[i]) == i
  {
    GprIndexNumbersNames(GPR_NAMES[i]);
    GprNameNumber(i);
  }

  /** FPRIndex maps "f0".."f31" one-to-one onto 0..31 and everything else to -1. */
  lemma FprIndexNumbersNames(name: string)
    ensures -1 <= FprIndex(name) < 32
    ensures FprIndex(name) == -1 <==> name !in FPR_NAMES
    ensures FprIndex(name) >= 0 ==> FPR_NAMES[FprIndex(name)] == name && FpuNumber(name) == FprIndex(name)
  {
    IndexOfNameFinds(FPR_NAMES, name);
    var k := FprIndex(name);
    if k >= 0 {
      FprNameNumber(k);
    }
  }

  lemma FprIndexOfTableName(i: int)
    requires 0 <= i < 32
    ensures FprIndex(FPR_NAMES[i]) == i
  {
    FprIndexNumbersNames(FPR_NAMES[i]);
    FprNameNumber(i);
  }

  /** A 64-bit register as its two 32-bit words: `UW[0]` and `UW[1]`. */
  datatype Reg64 = Reg64(lower: u32, upper: u32)

  /** `UW[bUpper ? 1 : 0]`. */
  function Half(r: Reg64, upper: bool): u32
  {
    if upper then r.upper else r.lower
  }

  /** The register with one half replaced. */
  function WithHalf(r: Reg64, upper: bool, v: u32): (r': Reg64)
    ensures Half(r', upper) == v && Half(r', !upper) == Half(r, !upper)
  {
    if upper then r.(upper := v) else r.(lower := v)
  }

  /** The coprocessor-0 registers the interface reaches; CAUSE and its shadow
      FAKE_CAUSE are reachable only together, through the name "cause". */
  datatype Cop0Reg =
    | Index | Random | EntryLo0 | EntryLo1 | Context | PageMask | Wired | BadVAddr
    | Count | EntryHi | Compare | Status | Epc | Config | TagLo | TagHi | ErrorEpc
    | Cause | FakeCause

  /** The name table of COP0RegPtr, in the source's order; "cause" is absent. */
  const COP0_TABLE: seq<(string, Cop0Reg)> := [
    ("index", Index), ("random", Random), ("entrylo0", EntryLo0), ("entrylo1", EntryLo1),
    ("context", Context), ("pagemask", PageMask), ("wired", Wired), ("badvaddr", BadVAddr),
    ("count", Count), ("entryhi", EntryHi), ("compare", Compare), ("status", Status),
    ("epc", Epc), ("config", Config), ("taglo", TagLo), ("taghi", TagHi),
    ("errorepc", ErrorEpc)]

  /** The table's search: the register of the first entry named `name`. */
  function LookupCop0(table: seq<(string, Cop0Reg)>, name: string): Option<Cop0Reg>
  {
    if |table| == 0 then None
    else if table[0].0 == name then Some(table[0].1)
    else LookupCop0(table[1..], name)
  }

  lemma {:induction false} LookupCop0Finds(table: seq<(string, Cop0Reg)>, name: string)
    ensures var r := LookupCop0(table, name);
            && (r.None? <==> forall i :: 0 <= i < |table| ==> table[i].0 != name)
            && (forall i :: 0 <= i < |table| && table[i].0 == name
                            && (forall j :: 0 <= j < i ==> table[j].0 != name) ==>
                  r == Some(table[i].1))
            && (r.Some? ==> exists i :: 0 <= i < |table| && r.value == table[i].1)
  {
    if |table| > 0 && table[0].0 != name {
      LookupCop0Finds(table[1..], name);
      assert forall i :: 0 < i < |table| ==> table[i] == table[1..][i - 1];
    }
  }

  /** COP0RegPtr with a register context present. */
  function Cop0RegOf(name: string): Option<Cop0Reg>
  {
    LookupCop0(COP0_TABLE, name)
  }

  /** No table entry reaches CAUSE or FAKE_CAUSE. */
  lemma Cop0TableOmitsCause()
    ensures forall i :: 0 <= i < |COP0_TABLE| ==> COP0_TABLE[i].1 != Cause && COP0_TABLE[i].1 != FakeCause
  {
  }

  /** No table entry is named "cause". */
  lemma Cop0TableOmitsCauseName()
    ensures forall i :: 0 <= i < |COP0_TABLE| ==> COP0_TABLE[i].0 != "cause"
  {
  }

  /** COP0RegPtr resolves exactly the 17 listed names, to the register listed
      with the first entry of that name. */
  lemma Cop0RegOfFinds(name: string)
    ensures Cop0RegOf(name).None? <==> forall i :: 0 <= i < |COP0_TABLE| ==> COP0_TABLE[i].0 != name
    ensures forall i :: 0 <= i < |COP0_TABLE| && COP0_TABLE[i].0 == name
                        && (forall j :: 0 <= j < i ==> COP0_TABLE[j].0 != name) ==>
              Cop0RegOf(name) == Some(COP0_TABLE[i].1)
  {
    LookupCop0Finds(COP0_TABLE, name);
  }

  /** No name resolves to CAUSE or FAKE_CAUSE. */
  lemma Cop0RegOfOmitsCause(name: string)
    ensures Cop0RegOf(name).Some? ==> Cop0RegOf(name).value != Cause && Cop0RegOf(name).value != FakeCause
  {
    LookupCop0Finds(COP0_TABLE, name);
    Cop0TableOmitsCause();
  }

  /** "cause" resolves to nothing. */
  lemma CauseUnresolved()
    ensures Cop0RegOf("cause").None?
  {
    LookupCop0Finds(COP0_TABLE, "cause");
    Cop0TableOmitsCauseName();
  }

  /** The CPU register state the interface reads and writes (g_Reg). */
  datatype RegisterFile = RegisterFile(gpr: seq<Reg64>, hi: Reg64, lo: Reg64, cop0: map<Cop0Reg, u32>)

  /** Thirty-two GPRs and a value for every coprocessor-0 register. */
  predicate Valid(f: RegisterFile)
  {
    |f.gpr| == 32 && forall r: Cop0Reg :: r in f.cop0
  }

  /** The errors the interface throws. */
  datatype RegError =
    | InvalidRegister      // "invalid register name or number"
    | ContextUnavailable   // "CPU register context is unavailable"
    | AssignmentType       // "invalid register value assignment" (TypeError)

  datatype Result<T> = Ok(value: T) | Failure(error: RegError)

  /** What a `gpr`/`ugpr` key designates. */
  datatype GprTarget = HiReg | LoReg | GprNumber(index: int)

  /** A number key is the register number (clamped to `int`); a string key is
      "hi", "lo" or a register name; any other key names register -1. */
  function TargetOf(key: JsValue): GprTarget
  {
    match key
    case JsNumber(n) => GprNumber(ToInt(n))
    case JsString(s) =>
      var name := CLib.CStr(s);
      if name == "hi" then HiReg else if name == "lo" then LoReg else GprNumber(GprIndex(name))
    case _ => GprNumber(-1)
  }

  /** GPRGetImpl: read the selected half of HI, LO or a GPR. `ctx` is None when
      no register context exists. */
  function GprGet(ctx: Option<RegisterFile>, key: JsValue, upper: bool): (r: Result<u32>)
    requires ctx.Some? ==> Valid(ctx.value)
    ensures ctx.None? ==> r == Failure(ContextUnavailable)
    ensures r.Failure? ==> r.error != AssignmentType
    ensures ctx.Some? && TargetOf(key).GprNumber? ==>
              (r.Ok? <==> 0 <= TargetOf(key).index < 32)
  {
    match ctx
    case None => Failure(ContextUnavailable)
    case Some(f) =>
      match TargetOf(key)
      case HiReg => Ok(Half(f.hi, upper))
      case LoReg => Ok(Half(f.lo, upper))
      case GprNumber(i) =>
        if i < 0 || i > 31 then Failure(InvalidRegister) else Ok(Half(f.gpr[i], upper))
  }

  /** GPRSetImpl: write the selected half of HI, LO or a GPR with the value
      clamped to 32 bits. Writes to register 0 are accepted and discarded. */
  function GprSet(ctx: Option<RegisterFile>, key: JsValue, value: JsValue, upper: bool): (r: Result<RegisterFile>)
    requires ctx.Some? ==> Valid(ctx.value)
    ensures r.Ok? ==> Valid(r.value)
    ensures ctx.None? ==> r == Failure(ContextUnavailable)
    ensures ctx.Some? && !value.JsNumber? ==> r == Failure(AssignmentType)
    ensures ctx.Some? && value.JsNumber? && TargetOf(key).GprNumber? ==>
              (r.Ok? <==> 0 <= TargetOf(key).index < 32)
    ensures ctx.Some? && TargetOf(key) == GprNumber(0) && r.Ok? ==> r.value == ctx.value
  {
    match ctx
    case None => Failure(ContextUnavailable)
    case Some(f) =>
      if !value.JsNumber? then Failure(AssignmentType)
      else
        var v := ToUint(value.n);
        match TargetOf(key)
        case HiReg => Ok(f.(hi := WithHalf(f.hi, upper, v)))
        case LoReg => Ok(f.(lo := WithHalf(f.lo, upper, v)))
        case GprNumber(i) =>
          if i == 0 then Ok(f)
          else if i < 0 || i > 31 then Failure(InvalidRegister)
          else Ok(f.(gpr := f.gpr[i := WithHalf(f.gpr[i], upper, v)]))
  }

  /** A successful set is read back by a get of the same key and half, except
      through register 0, whose writes are discarded. */
  lemma GprSetThenGet(f: RegisterFile, key: JsValue, value: JsValue, upper: bool)
    requires Valid(f) && GprSet(Some(f), key, value, upper).Ok?
    ensures var f' := GprSet(Some(f), key, value, upper).value;
            GprGet(Some(f'), key, upper) ==
              if TargetOf(key) == GprNumber(0) then GprGet(Some(f), key, upper)
              else Ok(ToUint(value.n))
  {
  }

  /** Two keys reach the same storage exactly when they designate the same
      target and half; numbers outside 0..31 reach nothing. */
  predicate SameCell(t: GprTarget, upper: bool, t': GprTarget, upper': bool)
  {
    upper == upper' && t == t'
  }

  /** A set changes only the half it names: every other half of every GPR, the
      other half of HI/LO and the coprocessor-0 registers keep their values. */
  lemma GprSetFrame(f: RegisterFile, key: JsValue, value: JsValue, upper: bool)
    requires Valid(f) && GprSet(Some(f), key, value, upper).Ok?
    ensures var f' := GprSet(Some(f), key, value, upper).value;
            && f'.cop0 == f.cop0
            && (forall i, h :: 0 <= i < 32 && !SameCell(TargetOf(key), upper, GprNumber(i), h) ==>
                  Half(f'.gpr[i], h) == Half(f.gpr[i], h))
            && (forall h :: !SameCell(TargetOf(key), upper, HiReg, h) ==> Half(f'.hi, h) == Half(f.hi, h))
            && (forall h :: !SameCell(TargetOf(key), upper, LoReg, h) ==> Half(f'.lo, h) == Half(f.lo, h))
  {
  }

  /** The register-0 rule: a set through the number 0 or the name "r0" succeeds
      and changes nothing. */
  lemma R0WritesIgnored(f: RegisterFile, value: JsValue, upper: bool)
    requires Valid(f) && value.JsNumber?
    ensures GprSet(Some(f), JsNumber(0), value, upper) == Ok(f)
    ensures GprSet(Some(f), JsString("r0"), value, upper) == Ok(f)
  {
    assert CLib.CStr("r0") == "r0" by {
      assert CLib.CStr("r0") == ['r'] + CLib.CStr("0");
      assert CLib.CStr("0") == ['0'] + CLib.CStr("");
    }
    GprIndexOfTableName(0);
  }

  /** The order of the checks: a missing context wins over everything; then a
      non-number value wins over any key, even one that names no register. */
  lemma GprSetErrorOrder(ctx: Option<RegisterFile>, key: JsValue, value: JsValue, upper: bool)
    requires ctx.Some? ==> Valid(ctx.value)
    ensures ctx.None? ==> GprSet(ctx, key, value, upper) == Failure(ContextUnavailable)
    ensures ctx.Some? && !value.JsNumber? ==> GprSet(ctx, key, value, upper) == Failure(AssignmentType)
    ensures ctx.Some? && value.JsNumber? && TargetOf(key).GprNumber?
            && (TargetOf(key).index < 0 || TargetOf(key).index > 31) ==>
              GprSet(ctx, key, value, upper) == Failure(InvalidRegister)
  {
  }

  /** js_cop0_get for every name but "cause": the named register's value. A
      read of "cause" throws the invalid-register error. */
  function Cop0Get(ctx: Option<RegisterFile>, key: JsValue): (r: Result<u32>)
    requires ctx.Some? ==> Valid(ctx.value)
    ensures ctx.None? ==> r == Failure(ContextUnavailable)
    ensures ctx.Some? ==> (r.Ok? <==> key.JsString? && Cop0RegOf(CLib.CStr(key.text)).Some?)
    ensures r.Ok? ==> r.value == ctx.value.cop0[Cop0RegOf(CLib.CStr(key.text)).value]
  {
    match ctx
    case None => Failure(ContextUnavailable)
    case Some(f) =>
      if !key.JsString? then Failure(InvalidRegister)
      else
        match Cop0RegOf(CLib.CStr(key.text))
        case None => Failure(InvalidRegister)
        case Some(reg) => Ok(f.cop0[reg])
  }

  /** js_cop0_set: "cause" writes CAUSE and FAKE_CAUSE together; any other
      listed name writes its register with the value clamped to 32 bits. */
  function Cop0Set(ctx: Option<RegisterFile>, key: JsValue, value: JsValue): (r: Result<RegisterFile>)
    requires ctx.Some? ==> Valid(ctx.value)
    ensures r.Ok? ==> Valid(r.value)
    ensures ctx.None? ==> r == Failure(ContextUnavailable)
    ensures ctx.Some? && !key.JsString? ==> r == Failure(InvalidRegister)
    ensures ctx.Some? && key.JsString? && !value.JsNumber? ==> r == Failure(AssignmentType)
    ensures r.Ok? ==> r.value.gpr == ctx.value.gpr && r.value.hi == ctx.value.hi && r.value.lo == ctx.value.lo
    ensures r.Ok? && ctx.Some? && key.JsString? && value.JsNumber? && CLib.CStr(key.text) != "cause" ==>
              && Cop0RegOf(CLib.CStr(key.text)).Some?
              && r.value.cop0[Cop0RegOf(CLib.CStr(key.text)).value] == ToUint(value.n)
              && forall reg :: reg != Cop0RegOf(CLib.CStr(key.text)).value ==> r.value.cop0[reg] == ctx.value.cop0[reg]
  {
    match ctx
    case None => Failure(ContextUnavailable)
    case Some(f) =>
      if !key.JsString? then Failure(InvalidRegister)
      else
        var name := CLib.CStr(key.text);
        var reg := Cop0RegOf(name);
        if !value.JsNumber? then Failure(AssignmentType)
        else
          var v := ToUint(value.n);
          if name == "cause" then Ok(f.(cop0 := f.cop0[FakeCause := v][Cause := v]))
          else if reg.None? then Failure(InvalidRegister)
          else Ok(f.(cop0 := f.cop0[reg.value := v]))
  }

  /** Setting "cause" stores the same value in CAUSE and FAKE_CAUSE and touches
      no other coprocessor-0 register. */
  lemma Cop0SetCause(f: RegisterFile, text: string, value: JsValue)
    requires Valid(f) && CLib.CStr(text) == "cause" && value.JsNumber?
    ensures var r := Cop0Set(Some(f), JsString(text), value);
            && r.Ok?
            && r.value.cop0[Cause] == ToUint(value.n) && r.value.cop0[FakeCause] == ToUint(value.n)
            && forall reg :: reg != Cause && reg != FakeCause ==> r.value.cop0[reg] == f.cop0[reg]
  {
  }

  /** A successful set of a listed name is read back by a get of the same name;
      every other listed register keeps its value. */
  lemma Cop0SetThenGet(f: RegisterFile, key: JsValue, value: JsValue, other: JsValue)
    requires Valid(f) && key.JsString? && Cop0RegOf(CLib.CStr(key.text)).Some? && value.JsNumber?
    requires other.JsString? && Cop0RegOf(CLib.CStr(other.text)) != Cop0RegOf(CLib.CStr(key.text))
    ensures var r := Cop0Set(Some(f), key, value);
            && r.Ok?
            && Cop0Get(Some(r.value), key) == Ok(ToUint(value.n))
            && Cop0Get(Some(r.value), other) == Cop0Get(Some(f), other)
  {
    CauseUnresolved();
  }
}
