/**
 * The entities the x86-64 decoder works with: legacy prefixes, the REX
 * extension bits, the opcode descriptors supplied by the opcode tables, and
 * the decoded operands and instruction.
 */
module X64Types {
  import opened Wrappers

  /** One flag of the `Prefixes` record (lib/disasm/x64.js:36-50). */
  datatype Prefix =
    | Lock | RepNe | RepNz
    | OverrideCs | OverrideSs | OverrideDs | OverrideEs | OverrideFs | OverrideGs
    | Likely | Unlikely
    | OpOverride | AddrOverride

  type Bit = n: nat | n <= 1

  /** The four extension bits of a REX byte. */
  datatype Rex = Rex(w: Bit, r: Bit, x: Bit, b: Bit)

  /**
   * The `kind` of an operand descriptor. `Fixed` carries the descriptor's
   * literal `value`; `Other` stands for any kind name the decoder has no
   * register table for.
   */
  datatype Kind = General | Mmx | Xmm | Unknown | Fixed(value: string) | Other(name: string)

  /** A table-supplied operand descriptor: its kind and its slot in the operand list. */
  datatype OperandDesc = OperandDesc(kind: Kind, index: nat)

  /**
   * A table-supplied opcode descriptor. `r` receives the ModRM reg field;
   * `m` (memory only) or `rm` (register or memory) receives the ModRM rm field.
   * `None` is the table's `null`.
   */
  datatype Descriptor = Descriptor(
    mnemonic: string,
    operands: seq<OperandDesc>,
    modrm: bool,
    r: Option<OperandDesc>,
    m: Option<OperandDesc>,
    rm: Option<OperandDesc>)

  /** The four opcode tables, keyed by the last opcode byte. */
  datatype Tables = Tables(
    one: map<int, Descriptor>,
    two: map<int, Descriptor>,
    three1: map<int, Descriptor>,
    three2: map<int, Descriptor>)

  /** The cursor read that produced a displacement. */
  datatype Reader = Int8 | Int32 | Int32LE

  /** Number of bytes a reader consumes. */
  function ReaderWidth(via: Reader): nat
  {
    match via
    case Int8 => 1
    case Int32 => 4
    case Int32LE => 4
  }

  /**
   * One element of a memory expression: a register name (possibly
   * `undefined`), a `[scale, name]` pair, a displacement (the raw bytes and
   * the read that produced them), or the bare number 4 that the SIB decoder
   * leaves in place of a missing index.
   */
  datatype MemPart =
    | Reg(name: Option<string>)
    | Scaled(scale: nat, name: Option<string>)
    | Disp(via: Reader, raw: seq<bv8>)
    | NoIndex

  /** A resolved operand: a register name, a memory expression or a literal. */
  datatype Operand = Register(name: string) | Memory(parts: seq<MemPart>) | Literal(text: string)

  /** An operand slot; `None` is an unwritten or `undefined` slot. */
  type Slot = Option<Operand>

  /** The slot value for a register lookup that may have yielded `undefined`. */
  function NameSlot(name: Option<string>): Slot
  {
    match name
    case Some(n) => Some(Register(n))
    case None => None
  }

  /** The decoded instruction: the descriptor's `type` (its mnemonic) and the operand slots. */
  datatype Instruction = Instruction(mnemonic: string, operands: seq<Slot>)

  datatype DecodeError =
    | Truncated                   // the cursor ran out of bytes
    | UnknownOpcode               // the opcode table has no entry
    | MissingOperand              // a null operand descriptor was dereferenced
    | NoRegisterTable             // an operand kind without a register table was resolved
    | RegisterFormOfMemoryOnly    // mod == 3 for a memory-only opcode
    | RexXWithoutSib              // REX.X set on a ModRM form without a SIB byte

  /** Every operand slot a descriptor names lies inside an operand list of length `n`. */
  ghost predicate Fits(d: Descriptor, n: nat)
  {
    && (forall o :: o in d.operands ==> o.index < n)
    && (d.r.Some? ==> d.r.value.index < n)
    && (d.m.Some? ==> d.m.value.index < n)
    && (d.rm.Some? ==> d.rm.value.index < n)
  }

  /** Every descriptor of one table fits its own operand list. */
  ghost predicate TableFits(t: map<int, Descriptor>)
  {
    forall d :: d in t.Values ==> Fits(d, |d.operands|)
  }

  /** Every descriptor of the tables fits the operand list allocated for it. */
  ghost predicate TablesFit(t: Tables)
  {
    TableFits(t.one) && TableFits(t.two) && TableFits(t.three1) && TableFits(t.three2)
  }
}
