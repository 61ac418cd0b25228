/** The debugger engine behind the native call boundary, as an oracle: its memory,
    its label and comment stores, its module lookup and its one-instruction decoder.
    Nothing here is plugin code; it is the state the plugin's native calls observe
    and change, with the fixed buffer sizes both sides agree on. */
module Engine {
  import opened Prelude

  /** Capacities of the engine's fixed text buffers, in bytes. */
  const MAX_MODULE_SIZE: nat := 256
  const MAX_LABEL_SIZE: nat := 256
  const MAX_COMMENT_SIZE: nat := 512
  const MAX_MNEMONIC_SIZE: nat := 64

  /** Operand kinds of `BASIC_INSTRUCTION_INFO.type`, as the SDK names them. */
  const TYPE_VALUE: nat := 1
  const TYPE_MEMORY: nat := 2
  const TYPE_ADDR: nat := 4

  /** `BASIC_INSTRUCTION_INFO.size`, a C# `int` the decoder never makes negative. */
  type InstructionLength = n: int | 0 <= n < 0x8000_0000

  /** What `DbgDisasmFastAt` reports for one address: operand kind, immediate
      (`value.value`), branch/call target (`addr`), flags, length in bytes (0 when the
      bytes do not decode) and the instruction text. */
  datatype Disassembled = Disassembled(
    kind: nat,
    immediate: U64,
    addr: U64,
    isBranch: bool,
    isCall: bool,
    size: InstructionLength,
    instruction: string)

  /** Everything the native calls can observe at one moment. `addrInfoOk` is the
      success flag `DbgAddrInfoGet` reports for an address and a set of flags; the
      bridge's rule for it is not part of this model. */
  datatype Snapshot = Snapshot(
    memory: Memory,
    labels: map<U64, string>,
    comments: map<U64, string>,
    moduleAt: U64 -> Option<string>,
    disasm: (Memory, U64) -> Disassembled,
    addrInfoOk: (U64, AddrInfoFlags) -> bool)

  // ---- text as the engine stores it in fixed buffers ----

  /** One character as the single byte the engine stores for it (text is treated
      byte-per-character; characters above 0xFF become '?'). */
  function CharByte(c: char): Byte {
    if c as int < 0x100 then c as int else '?' as int
  }

  function ByteChar(b: Byte): char {
    b as char
  }

  function EncodeText(t: string): (bytes: seq<Byte>)
    ensures |bytes| == |t|
    ensures forall i :: 0 <= i < |t| ==> bytes[i] == CharByte(t[i])
  {
    seq(|t|, i requires 0 <= i < |t| => CharByte(t[i]))
  }

  /** Text that survives a byte buffer unchanged: one byte per character, no NUL. */
  predicate IsBufferText(t: string) {
    forall i :: 0 <= i < |t| ==> 0 < t[i] as int < 0x100
  }

  function Zeros(n: nat): (z: seq<Byte>)
    ensures |z| == n && forall i :: 0 <= i < n ==> z[i] == 0
  {
    seq(n, i => 0)
  }

  /** How the engine fills a buffer of `cap` bytes with `t`: at most `cap - 1`
      characters, then NUL bytes up to the capacity. */
  function FillBuffer(t: string, cap: nat): (buf: seq<Byte>)
    requires cap >= 1
    ensures |buf| == cap
    ensures buf[cap - 1] == 0
  {
    var n := if |t| < cap then |t| else cap - 1;
    EncodeText(t[..n]) + Zeros(cap - n)
  }

  // ---- native queries ----

  /** `DbgGetLabelAt`: success flag and filled buffer. */
  function NativeLabelAt(s: Snapshot, addr: U64): Option<seq<Byte>> {
    if addr in s.labels then Some(FillBuffer(s.labels[addr], MAX_LABEL_SIZE)) else None
  }

  /** `DbgGetCommentAt`. */
  function NativeCommentAt(s: Snapshot, addr: U64): Option<seq<Byte>> {
    if addr in s.comments then Some(FillBuffer(s.comments[addr], MAX_COMMENT_SIZE)) else None
  }

  /** `DbgGetModuleAt`. */
  function NativeModuleAt(s: Snapshot, addr: U64): Option<seq<Byte>> {
    match s.moduleAt(addr)
    case None => None
    case Some(name) => Some(FillBuffer(name, MAX_MODULE_SIZE))
  }

  /** The `ADDRINFOFLAGS` a caller of `DbgAddrInfoGet` can request here. */
  datatype AddrInfoFlags = AddrInfoFlags(wantModule: bool, wantLabel: bool, wantComment: bool)

  /** The three caller-provided buffers after `DbgAddrInfoGet` returns. */
  datatype AddrInfoBuffers = AddrInfoBuffers(moduleBuffer: seq<Byte>, labelBuffer: seq<Byte>, commentBuffer: seq<Byte>)

  /** Some field the caller requested is one the engine knows at `addr`. */
  predicate Found(s: Snapshot, addr: U64, flags: AddrInfoFlags) {
    (flags.wantModule && s.moduleAt(addr).Some?) ||
    (flags.wantLabel && addr in s.labels) ||
    (flags.wantComment && addr in s.comments)
  }

  /** The success rule of the x64dbg bridge as documented: a query succeeds exactly
      when some requested field was found. It is a hypothesis of the lemmas that
      need it, not part of `AddrInfoGet`. */
  predicate SuccessMeansFound(s: Snapshot, addr: U64, flags: AddrInfoFlags) {
    s.addrInfoOk(addr, flags) <==> Found(s, addr, flags)
  }

  /** `DbgAddrInfoGet`: on success, fills each requested field that exists; a field
      it does not fill keeps the NUL the caller wrote into its first byte. */
  function AddrInfoGet(s: Snapshot, addr: U64, flags: AddrInfoFlags): Option<AddrInfoBuffers> {
    var moduleFound := flags.wantModule && s.moduleAt(addr).Some?;
    var labelFound := flags.wantLabel && addr in s.labels;
    var commentFound := flags.wantComment && addr in s.comments;
    if !s.addrInfoOk(addr, flags) then None
    else
      Some(AddrInfoBuffers(
        if moduleFound then FillBuffer(s.moduleAt(addr).value, MAX_MODULE_SIZE) else Zeros(MAX_MODULE_SIZE),
        if labelFound then FillBuffer(s.labels[addr], MAX_LABEL_SIZE) else Zeros(MAX_LABEL_SIZE),
        if commentFound then FillBuffer(s.comments[addr], MAX_COMMENT_SIZE) else Zeros(MAX_COMMENT_SIZE)))
  }

  /** The live engine: the native calls that change state act on this object. */
  class Debugger {
    var state: Snapshot

    constructor (initial: Snapshot)
      ensures state == initial
    {
      state := initial;
    }

    /** `DbgSetLabelAt`. */
    method SetLabelAt(addr: U64, text: string) returns (ok: bool)
      modifies this
      ensures ok
      ensures state == old(state).(labels := old(state).labels[addr := text])
    {
      state := state.(labels := state.labels[addr := text]);
      ok := true;
    }

    /** `DbgSetCommentAt`. */
    method SetCommentAt(addr: U64, text: string) returns (ok: bool)
      modifies this
      ensures ok
      ensures state == old(state).(comments := old(state).comments[addr := text])
    {
      state := state.(comments := state.comments[addr := text]);
      ok := true;
    }

    /** The native `DbgMemWrite(va, src, size)`: writes all bytes or nothing. */
    method MemWrite(va: U64, data: seq<Byte>) returns (ok: bool)
      modifies this
      ensures ok == Mapped(old(state).memory, va, |data|)
      ensures ok ==> state == old(state).(memory := Write(old(state).memory, va, data))
      ensures !ok ==> state == old(state)
    {
      ok := Mapped(state.memory, va, |data|);
      if ok {
        state := state.(memory := Write(state.memory, va, data));
      }
    }
  }
}
