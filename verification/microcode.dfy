/** Microcode identification (DisplayListParser.cpp): the loaded microcode is
    fingerprinted by a wrapping sum of its first 3072 bytes read as 32-bit words,
    and the fingerprint selects the first matching entry of a registry of known
    microcode versions, each with its own opcode table. */
module Microcode {
  import opened Common

  /** A word-granular view of memory: the 32-bit word found at a byte address.
      Used both for the private RAM snapshot and for live physical memory. */
  type WordReader = nat -> u32

  const UCODE_CHECKSUM_BYTES: nat := 3072
  const UCODE_CHECKSUM_WORDS: nat := 768   // UCODE_CHECKSUM_BYTES / 4

  /** Identifies a decode or execute routine of an opcode table entry; the
      routines themselves are supplied to the interpreter as `Callbacks`. */
  type HandlerId = nat

  /** One opcode table entry (dl_cmd_info_t). */
  datatype CommandInfo = CommandInfo(
    commandByte: u8,
    commandName: string,
    decodeFunc: Option<HandlerId>,
    opFunc: Option<HandlerId>)

  /** The version tag; `UCodeUnknown` is the sentinel for unidentified microcode. */
  datatype UCodeVersion = UCodeUnknown | UCodeKnown(tag: nat)

  /** One registry entry (ucode_version_info_t). */
  datatype UCodeVersionInfo = UCodeVersionInfo(
    checksum: u32,
    version: UCodeVersion,
    name: string,
    commandTable: Option<seq<CommandInfo>>)

  /** One entry of a value-to-name table (name_lut_entry_t). */
  datatype NameEntry = NameEntry(value: u32, name: string)

  /** The 768 words the fingerprint covers, read at byte offsets
      `ucodeAddr + 0, + 4, ..., + 3068` of the snapshot. */
  function UCodeWords(snapshot: WordReader, ucodeAddr: u32): (ws: seq<u32>)
    ensures |ws| == UCODE_CHECKSUM_WORDS
  {
    seq(UCODE_CHECKSUM_WORDS, i requires 0 <= i => snapshot(ucodeAddr + 4 * i))
  }

  /** Reference definition: the mathematical sum of a word sequence. */
  function IntSum(ws: seq<u32>): nat
  {
    if |ws| == 0 then 0 else IntSum(ws[..|ws| - 1]) + ws[|ws| - 1]
  }

  /** The fingerprint: the sum of the 768 words reduced modulo 2^32. */
  function Checksum(snapshot: WordReader, ucodeAddr: u32): u32
  {
    Wrap32(IntSum(UCodeWords(snapshot, ucodeAddr)))
  }

  lemma AddMod(a: int, b: int)
    ensures Wrap32(Wrap32(a) + b) == Wrap32(a + b)
  {
    var q := a / TWO_32;
    assert a == q * TWO_32 + a % TWO_32;
    assert a + b == q * TWO_32 + (a % TWO_32 + b);
  }

  /** The source's loop: a `uint32_t` accumulator that wraps on every addition
      computes the fingerprint. */
  method ComputeChecksum(snapshot: WordReader, ucodeAddr: u32) returns (sum: u32)
    ensures sum == IntSum(UCodeWords(snapshot, ucodeAddr)) % TWO_32
  {
    ghost var ws := UCodeWords(snapshot, ucodeAddr);
    sum := 0;
    var i := 0;
    while i < UCODE_CHECKSUM_BYTES
      invariant 0 <= i <= UCODE_CHECKSUM_BYTES && i % 4 == 0
      invariant sum == Wrap32(IntSum(ws[..i / 4]))
    {
      assert ws[..i / 4 + 1][..i / 4] == ws[..i / 4];
      AddMod(IntSum(ws[..i / 4]), snapshot(ucodeAddr + i));
      sum := Wrap32(sum + snapshot(ucodeAddr + i));
      i := i + 4;
    }
    assert ws[..UCODE_CHECKSUM_WORDS] == ws;
  }

  /** Replacing one word changes the sum by exactly the difference. */
  lemma {:induction false} IntSumUpdate(ws: seq<u32>, k: nat, v: u32)
    requires k < |ws|
    ensures IntSum(ws[k := v]) == IntSum(ws) - ws[k] + v
    decreases |ws|
  {
    var n := |ws| - 1;
    assert ws[k := v][..n] == if k < n then ws[..n][k := v] else ws[..n];
    if k < n {
      IntSumUpdate(ws[..n], k, v);
    }
  }

  /** The fingerprint detects any change confined to a single word of the
      region, and ignores every byte outside it. */
  lemma ChecksumSensitivity(snapshot: WordReader, other: WordReader, ucodeAddr: u32, k: nat)
    requires k < UCODE_CHECKSUM_WORDS
    requires forall i :: 0 <= i < UCODE_CHECKSUM_WORDS && i != k ==>
               other(ucodeAddr + 4 * i) == snapshot(ucodeAddr + 4 * i)
    ensures (other(ucodeAddr + 4 * k) == snapshot(ucodeAddr + 4 * k))
            <==> (Checksum(other, ucodeAddr) == Checksum(snapshot, ucodeAddr))
  {
    var ws, ws' := UCodeWords(snapshot, ucodeAddr), UCodeWords(other, ucodeAddr);
    assert ws' == ws[k := ws'[k]];
    IntSumUpdate(ws, k, ws'[k]);
    var d := ws'[k] as int - ws[k] as int;
    assert IntSum(ws') == IntSum(ws) + d;
    var q := IntSum(ws) / TWO_32;
    assert IntSum(ws) == q * TWO_32 + IntSum(ws) % TWO_32;
    assert -TWO_32 < d < TWO_32;
  }

  /** GetUCodeVersionInfo: the first registry entry with the given checksum, or
      none. */
  function GetUCodeVersionInfo(registry: seq<UCodeVersionInfo>, checksum: u32): Option<UCodeVersionInfo>
  {
    if |registry| == 0 then None
    else if registry[0].checksum == checksum then Some(registry[0])
    else GetUCodeVersionInfo(registry[1..], checksum)
  }

  /** An entry is found exactly when the registry has one with the checksum,
      and it is the first. */
  lemma {:induction false} GetUCodeVersionInfoFinds(registry: seq<UCodeVersionInfo>, checksum: u32)
    ensures var r := GetUCodeVersionInfo(registry, checksum);
            && (r.None? <==> forall i :: 0 <= i < |registry| ==> registry[i].checksum != checksum)
            && (r.Some? ==> r.value.checksum == checksum)
            && forall i :: 0 <= i < |registry| && registry[i].checksum == checksum
                           && (forall j :: 0 <= j < i ==> registry[j].checksum != checksum) ==>
                 r == Some(registry[i])
  {
    if |registry| > 0 && registry[0].checksum != checksum {
      GetUCodeVersionInfoFinds(registry[1..], checksum);
      assert forall i :: 0 < i < |registry| ==> registry[i] == registry[1..][i - 1];
    }
  }

  /** LookupCommand: the first table entry for the opcode byte, or none. */
  function LookupCommand(table: seq<CommandInfo>, commandByte: u8): Option<CommandInfo>
  {
    if |table| == 0 then None
    else if table[0].commandByte == commandByte then Some(table[0])
    else LookupCommand(table[1..], commandByte)
  }

  /** An entry for the opcode byte holds exactly when the table has one, and
      it is the first. */
  lemma {:induction false} LookupCommandFinds(table: seq<CommandInfo>, commandByte: u8)
    ensures var r := LookupCommand(table, commandByte);
            && (r.None? <==> forall i :: 0 <= i < |table| ==> table[i].commandByte != commandByte)
            && (r.Some? ==> r.value.commandByte == commandByte)
            && forall i :: 0 <= i < |table| && table[i].commandByte == commandByte
                           && (forall j :: 0 <= j < i ==> table[j].commandByte != commandByte) ==>
                 r == Some(table[i])
  {
    if |table| > 0 && table[0].commandByte != commandByte {
      LookupCommandFinds(table[1..], commandByte);
      assert forall i :: 0 < i < |table| ==> table[i] == table[1..][i - 1];
    }
  }

  /** LookupName: the name of the first entry with the given value, or none. */
  function LookupName(names: seq<NameEntry>, value: u32): Option<string>
  {
    if |names| == 0 then None
    else if names[0].value == value then Some(names[0].name)
    else LookupName(names[1..], value)
  }

  /** A name is found exactly when some entry has the value, and it is the
      first such entry's name. */
  lemma {:induction false} LookupNameFinds(names: seq<NameEntry>, value: u32)
    ensures var r := LookupName(names, value);
            && (r.None? <==> forall i :: 0 <= i < |names| ==> names[i].value != value)
            && forall i :: 0 <= i < |names| && names[i].value == value
                           && (forall j :: 0 <= j < i ==> names[j].value != value) ==>
                 r == Some(names[i].name)
  {
    if |names| > 0 && names[0].value != value {
      LookupNameFinds(names[1..], value);
      assert forall i :: 0 < i < |names| ==> names[i] == names[1..][i - 1];
    }
  }
}
