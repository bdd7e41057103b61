/**
 * The decoder as functions of the byte buffer and a position: each function
 * gives what one step of lib/disasm/x64.js produces and where the cursor is
 * afterwards. The methods of class `X64` are proved against these.
 */
module X64Spec {
  import opened Wrappers
  import opened X64Types
  import opened X64Registers
  import opened X64Fields

  // ---------------------------------------------------------------------
  // Cursor reads

  /** `peek`: the byte at `pos`, or nothing past the end of the buffer. */
  function PeekAt(buf: seq<bv8>, pos: nat): Option<bv8>
  {
    if pos < |buf| then Some(buf[pos]) else None
  }

  /** `readUInt8` at `pos`. */
  function ByteAt(buf: seq<bv8>, pos: nat): Result<bv8, DecodeError>
  {
    if pos < |buf| then Ok(buf[pos]) else Err(Truncated)
  }

  /** `readInt8`, `readInt32` or `readInt32LE` at `pos`, kept as the raw bytes read. */
  function DispAt(buf: seq<bv8>, pos: nat, via: Reader): (r: Result<MemPart, DecodeError>)
    ensures r.Ok? <==> pos + ReaderWidth(via) <= |buf|
    ensures r.Err? ==> r.error == Truncated
    ensures r.Ok? ==> r.value.Disp? && r.value.via == via && |r.value.raw| == ReaderWidth(via)
    ensures r.Ok? ==> r.value.raw == buf[pos..pos + ReaderWidth(via)]
  {
    if pos + ReaderWidth(via) <= |buf| then Ok(Disp(via, buf[pos..pos + ReaderWidth(via)]))
    else Err(Truncated)
  }

  // ---------------------------------------------------------------------
  // Prefixes and REX

  /** `readPrefix` at `pos`: it consumes the peeked byte exactly when a prefix is returned. */
  function PrefixAt(buf: seq<bv8>, pos: nat): Option<Prefix>
  {
    match PeekAt(buf, pos)
    case None => None
    case Some(b) => PrefixOf(b)
  }

  /**
   * The do/while prefix loop of `disasmInstruction`: the flags it sets and
   * the position where it stops.
   */
  function ScanPrefixes(buf: seq<bv8>, pos: nat): (r: (set<Prefix>, nat))
    requires pos <= |buf|
    ensures pos <= r.1 <= |buf|
    decreases |buf| - pos
  {
    match PrefixAt(buf, pos)
    case None => ({}, pos)
    case Some(p) =>
      var rest := ScanPrefixes(buf, pos + 1);
      ({p} + rest.0, rest.1)
  }

  /** `readREX` at `pos`: the REX bits, if any, and the position afterwards. */
  function RexAt(buf: seq<bv8>, pos: nat): (r: (Option<Rex>, nat))
    ensures r.0.Some? <==> pos < |buf| && buf[pos] & 0x40 == 0x40
    ensures r.1 == if r.0.Some? then pos + 1 else pos
    ensures r.0.Some? ==> r.0 == RexOf(buf[pos])
  {
    match PeekAt(buf, pos)
    case None => (None, pos)
    case Some(b) =>
      match RexOf(b)
      case None => (None, pos)
      case Some(rex) => (Some(rex), pos + 1)
  }

  // ---------------------------------------------------------------------
  // Opcodes

  /** A table entry by byte; a miss is `undefined`. */
  function Lookup(m: map<int, Descriptor>, b: bv8): (d: Option<Descriptor>)
    ensures d.Some? <==> b as int in m
    ensures d.Some? ==> d.value == m[b as int] && d.value in m.Values
  {
    if b as int in m then Some(m[b as int]) else None
  }

  /**
   * The opcode byte sequences: one byte other than 0x0f; 0x0f followed by a
   * byte other than 0x38 and 0x3a; or 0x0f, 0x38 or 0x3a, and one more byte.
   */
  predicate IsOpcode(s: seq<bv8>)
  {
    || (|s| == 1 && s[0] != 0x0f)
    || (|s| == 2 && s[0] == 0x0f && s[1] != 0x38 && s[1] != 0x3a)
    || (|s| == 3 && s[0] == 0x0f && (s[1] == 0x38 || s[1] == 0x3a))
  }

  predicate InTables(t: Tables, d: Descriptor)
  {
    d in t.one.Values || d in t.two.Values || d in t.three1.Values || d in t.three2.Values
  }

  /** The descriptor an opcode sequence names: the table is chosen by the escape bytes, the key is the last byte. */
  function Resolve(t: Tables, s: seq<bv8>): Option<Descriptor>
    requires IsOpcode(s)
  {
    if |s| == 1 then Lookup(t.one, s[0])
    else if |s| == 2 then Lookup(t.two, s[1])
    else if s[1] == 0x38 then Lookup(t.three1, s[2])
    else Lookup(t.three2, s[2])
  }

  /** `readOpcode` at `pos`. */
  function OpcodeAt(t: Tables, buf: seq<bv8>, pos: nat): (r: Result<(Option<Descriptor>, nat), DecodeError>)
    ensures r.Ok? ==> pos < r.value.1 <= |buf| && IsOpcode(buf[pos..r.value.1])
    ensures r.Ok? ==> r.value.0 == Resolve(t, buf[pos..r.value.1])
    ensures r.Ok? && r.value.0.Some? ==> InTables(t, r.value.0.value)
    ensures r.Err? ==> r.error == Truncated && forall e :: pos < e <= |buf| ==> !IsOpcode(buf[pos..e])
  {
    var b :- ByteAt(buf, pos);
    if b != 0x0f then
      Ok((Lookup(t.one, b), pos + 1))
    else
      var b2 :- ByteAt(buf, pos + 1);
      if b2 == 0x38 then
        var b3 :- ByteAt(buf, pos + 2);
        Ok((Lookup(t.three1, b3), pos + 3))
      else if b2 == 0x3a then
        var b3 :- ByteAt(buf, pos + 2);
        Ok((Lookup(t.three2, b3), pos + 3))
      else
        Ok((Lookup(t.two, b2), pos + 2))
  }

  // ---------------------------------------------------------------------
  // ModRM and SIB

  /** The ModRM reg field, extended by REX.R when a REX byte is present. */
  function ModrmReg(b: bv8, rex: Option<Rex>): nat
  {
    if rex.Some? then Extend(SplitModrm(b).reg, rex.value.r) else SplitModrm(b).reg
  }

  /** The SIB index field, extended by REX.X when a REX byte is present. */
  function SibIndex(b: bv8, rex: Option<Rex>): nat
  {
    if rex.Some? then Extend(SplitSib(b).index, rex.value.x) else SplitSib(b).index
  }

  /** The SIB base field, extended by REX.B when a REX byte is present. */
  function SibBase(b: bv8, rex: Option<Rex>): nat
  {
    if rex.Some? then Extend(SplitSib(b).base, rex.value.b) else SplitSib(b).base
  }

  /** The ModRM rm field of the no-SIB memory form, extended by REX.B when a REX byte is present. */
  function RmField(rm: nat, rex: Option<Rex>): nat
    requires rm < 8
  {
    if rex.Some? then Extend(rm, rex.value.b) else rm
  }

  /** Displacement bytes after a SIB byte: 1 for mod 1, 4 for mod 2, and for mod 0 four only when base is 5. */
  function SibDispSize(mod: nat, base: nat): nat
  {
    if mod == 1 then 1 else if mod == 2 then 4 else if base == 5 then 4 else 0
  }

  /** The reader of a SIB displacement: `readInt8` for mod 1, `readInt32` otherwise. */
  function SibReader(mod: nat): Reader
  {
    if mod == 1 then Int8 else Int32
  }

  /** The reader of a displacement without SIB: `readInt8` for mod 1, `readInt32LE` otherwise. */
  function PlainReader(mod: nat): Reader
  {
    if mod == 1 then Int8 else Int32LE
  }

  /** The descriptor that receives the rm field: `opcode.m || opcode.rm`. */
  function RmDesc(d: Descriptor): Option<OperandDesc>
  {
    if d.m.Some? then d.m else d.rm
  }

  /** The index term of a SIB expression: the number 4 when there is no index, else a name or `[scale, name]`. */
  function IndexTerm(op: Option<OperandDesc>, rex: Option<Rex>, scale: nat, index: nat): (r: Result<MemPart, DecodeError>)
    ensures r.Ok? <==> index == 4 || Resolves(op, rex)
    ensures r.Ok? ==> (r.value == NoIndex <==> index == 4)
    ensures r.Ok? && index != 4 ==> GetRegister(op, rex, index).Ok? && r.value == (if scale == 1 then Reg(GetRegister(op, rex, index).value) else Scaled(scale, GetRegister(op, rex, index).value))
  {
    if index != 4 then
      var name :- GetRegister(op, rex, index);
      Ok(if scale == 1 then Reg(name) else Scaled(scale, name))
    else
      Ok(NoIndex)
  }

  /**
   * The SIB path of `readModrm`, from the SIB byte at `pos`: the memory
   * expression and the position after its displacement.
   */
  function SibAt(buf: seq<bv8>, pos: nat, rex: Option<Rex>, op: Option<OperandDesc>, mod: nat): (r: Result<(seq<MemPart>, nat), DecodeError>)
    requires mod < 3
    ensures r.Ok? ==> pos < |buf|
    ensures r.Ok? ==> r.value.1 == pos + 1 + SibDispSize(mod, SibBase(buf[pos], rex)) <= |buf|
    ensures r.Ok? ==> 1 <= |r.value.0| <= 3
    ensures r.Ok? ==> forall p :: p in r.value.0 && p.Scaled? ==> p.scale in {2, 4, 8}
    ensures r.Ok? ==> (NoIndex in r.value.0 <==> SibIndex(buf[pos], rex) == 4 && SibBase(buf[pos], rex) == 5)
    ensures r.Ok? && SibBase(buf[pos], rex) != 5 ==> GetRegister(op, rex, SibBase(buf[pos], rex)).Ok? && r.value.0[0] == Reg(GetRegister(op, rex, SibBase(buf[pos], rex)).value)
    ensures r.Ok? && SibBase(buf[pos], rex) == 5 && mod == 0 ==> |r.value.0| == 2 && r.value.0[1].Disp? && r.value.0[1].via == Int32
    ensures r.Ok? && SibBase(buf[pos], rex) == 5 && mod != 0 ==> |r.value.0| == 3 && GetRegister(op, rex, 6).Ok? && r.value.0[2] == Reg(GetRegister(op, rex, 6).value)
    ensures r.Ok? ==>
      var sib := buf[pos];
      && IndexTerm(op, rex, SplitSib(sib).scale, SibIndex(sib, rex)).Ok?
      && (SibBase(sib, rex) == 5 ==>
            && r.value.0[0] == IndexTerm(op, rex, SplitSib(sib).scale, SibIndex(sib, rex)).value
            && r.value.0[1] == DispAt(buf, pos + 1, SibReader(mod)).value)
      && (SibBase(sib, rex) != 5 ==>
            |r.value.0| == 1 + (if SibIndex(sib, rex) == 4 then 0 else 1) + (if mod == 0 then 0 else 1))
      && (SibBase(sib, rex) != 5 && SibIndex(sib, rex) != 4 ==>
            r.value.0[1] == IndexTerm(op, rex, SplitSib(sib).scale, SibIndex(sib, rex)).value)
      && (SibBase(sib, rex) != 5 && mod != 0 ==>
            r.value.0[|r.value.0| - 1] == DispAt(buf, pos + 1, SibReader(mod)).value)
    ensures
      && pos < |buf|
      && pos + 1 + SibDispSize(mod, SibBase(buf[pos], rex)) <= |buf|
      && ((SibIndex(buf[pos], rex) == 4 && SibBase(buf[pos], rex) == 5 && mod == 0) || Resolves(op, rex))
      ==> r.Ok?
    ensures r.Ok? ==> (SibIndex(buf[pos], rex) == 4 && SibBase(buf[pos], rex) == 5 && mod == 0) || Resolves(op, rex)
    ensures r.Err? ==> r.error in {Truncated, MissingOperand, NoRegisterTable}
  {
    var sib :- ByteAt(buf, pos);
    var index := SibIndex(sib, rex);
    var indexTerm :- IndexTerm(op, rex, SplitSib(sib).scale, index);
    SibAddressAt(buf, pos + 1, rex, op, mod, indexTerm, index, SibBase(sib, rex))
  }

  /**
   * The address built after the SIB byte (`ptr`), from the displacement at
   * `pos`: base 5 means no base register for mod 0 and register 6 otherwise;
   * any other base is a register, followed by the index term when there is
   * an index.
   */
  function SibAddressAt(buf: seq<bv8>, pos: nat, rex: Option<Rex>, op: Option<OperandDesc>, mod: nat,
                        indexTerm: MemPart, index: nat, base: nat): (r: Result<(seq<MemPart>, nat), DecodeError>)
    requires pos <= |buf| && mod < 3
    requires indexTerm == NoIndex <==> index == 4
    ensures r.Ok? ==> r.value.1 == pos + SibDispSize(mod, base) <= |buf|
    ensures r.Ok? ==> 1 <= |r.value.0| <= 3
    ensures r.Ok? ==> forall p :: p in r.value.0 && p.Scaled? ==> p == indexTerm
    ensures r.Ok? ==> (NoIndex in r.value.0 <==> index == 4 && base == 5)
    ensures r.Ok? && base != 5 ==> GetRegister(op, rex, base).Ok? && r.value.0[0] == Reg(GetRegister(op, rex, base).value)
    ensures r.Ok? && base == 5 && mod == 0 ==> |r.value.0| == 2 && r.value.0[1].Disp? && r.value.0[1].via == Int32
    ensures r.Ok? && base == 5 && mod != 0 ==> |r.value.0| == 3 && GetRegister(op, rex, 6).Ok? && r.value.0[2] == Reg(GetRegister(op, rex, 6).value)
    ensures r.Ok? && base == 5 ==> r.value.0[0] == indexTerm && r.value.0[1] == DispAt(buf, pos, SibReader(mod)).value
    ensures r.Ok? && base != 5 ==> |r.value.0| == 1 + (if index == 4 then 0 else 1) + (if mod == 0 then 0 else 1)
    ensures r.Ok? && base != 5 && index != 4 ==> r.value.0[1] == indexTerm
    ensures r.Ok? && base != 5 && mod != 0 ==> r.value.0[|r.value.0| - 1] == DispAt(buf, pos, SibReader(mod)).value
    ensures r.Ok? <==> pos + SibDispSize(mod, base) <= |buf| && ((base == 5 && mod == 0) || Resolves(op, rex))
    ensures r.Err? ==> r.error in {Truncated, MissingOperand, NoRegisterTable}
  {
    if base == 5 then
      if mod == 0 then
        var disp :- DispAt(buf, pos, Int32);
        Ok(([indexTerm, disp], pos + 4))
      else
        var disp :- DispAt(buf, pos, SibReader(mod));
        var r6 :- GetRegister(op, rex, 6);
        Ok(([indexTerm, disp, Reg(r6)], pos + ReaderWidth(disp.via)))
    else
      var baseName :- GetRegister(op, rex, base);
      if mod == 0 then
        Ok((if index == 4 then [Reg(baseName)] else [Reg(baseName), indexTerm], pos))
      else
        var disp :- DispAt(buf, pos, SibReader(mod));
        Ok((if index == 4 then [Reg(baseName), disp] else [Reg(baseName), indexTerm, disp], pos + ReaderWidth(disp.via)))
  }

  /**
   * The memory path without SIB (mod != 3, rm != 4), from the byte after
   * ModRM at `pos`: REX.X must be clear, rm is extended by REX.B, and a
   * displacement follows for mod 1 (`readInt8`) and mod 2 (`readInt32LE`).
   */
  function PlainAt(buf: seq<bv8>, pos: nat, rex: Option<Rex>, op: Option<OperandDesc>, mod: nat, rm: nat): (r: Result<(seq<MemPart>, nat), DecodeError>)
    requires pos <= |buf| && mod < 3 && rm < 8
    ensures rex.Some? && rex.value.x == 1 ==> r == Err(RexXWithoutSib)
    ensures r.Ok? ==> op.Some? && r.value.1 <= |buf|
    ensures r.Ok? ==> |r.value.0| >= 1 && GetRegister(op, rex, RmField(rm, rex)).Ok?
    ensures r.Ok? ==> r.value.0[0] == Reg(GetRegister(op, rex, RmField(rm, rex)).value)
    ensures r.Ok? && mod == 0 ==> |r.value.0| == 1 && r.value.1 == pos
    ensures r.Ok? && mod == 1 ==> |r.value.0| == 2 && r.value.0[1].Disp? && r.value.0[1].via == Int8 && r.value.1 == pos + 1
    ensures r.Ok? && mod == 2 ==> |r.value.0| == 2 && r.value.0[1].Disp? && r.value.0[1].via == Int32LE && r.value.1 == pos + 4
    ensures r.Ok? && mod != 0 ==> r.value.0[1] == DispAt(buf, pos, PlainReader(mod)).value
    ensures r.Ok? <==>
      && (rex.None? || rex.value.x == 0)
      && Resolves(op, rex)
      && pos + (if mod == 0 then 0 else ReaderWidth(PlainReader(mod))) <= |buf|
    ensures r.Err? ==> r.error in {RexXWithoutSib, Truncated, MissingOperand, NoRegisterTable}
  {
    if rex.Some? && rex.value.x != 0 then
      Err(RexXWithoutSib)
    else
      var reg := RmField(rm, rex);
      if mod == 0 then
        var name :- GetRegister(op, rex, reg);
        Ok(([Reg(name)], pos))
      else
        var disp :- DispAt(buf, pos, PlainReader(mod));
        var name :- GetRegister(op, rex, reg);
        Ok(([Reg(name), disp], pos + ReaderWidth(disp.via)))
  }

  /**
   * `readModrm` from the ModRM byte at `pos`, writing into the operand slots
   * `slots`: the slots afterwards and the position after the last byte read.
   */
  function ModrmAt(buf: seq<bv8>, pos: nat, rex: Option<Rex>, d: Descriptor, slots: seq<Slot>): (r: Result<(seq<Slot>, nat), DecodeError>)
    requires Fits(d, |slots|)
    ensures r.Ok? ==> pos < |buf| && |r.value.0| == |slots| && pos + 1 <= r.value.1 <= pos + 6 && r.value.1 <= |buf|
    ensures r.Ok? ==> d.r.Some? && RmDesc(d).Some?
    ensures r.Ok? ==> forall i :: 0 <= i < |slots| && i != d.r.value.index && i != RmDesc(d).value.index ==> r.value.0[i] == slots[i]
    ensures r.Ok? ==> GetRegister(d.r, rex, ModrmReg(buf[pos], rex)).Ok?
    ensures r.Ok? && d.r.value.index != RmDesc(d).value.index ==>
      r.value.0[d.r.value.index] == NameSlot(GetRegister(d.r, rex, ModrmReg(buf[pos], rex)).value)
  {
    var b :- ByteAt(buf, pos);
    if d.r.None? then Err(MissingOperand)
    else
      var regName :- GetRegister(d.r, rex, ModrmReg(b, rex));
      RmAt(buf, pos + 1, rex, d, SplitModrm(b).mod, SplitModrm(b).rm, slots[d.r.value.index := NameSlot(regName)])
  }

  /**
   * The rm half of `readModrm`, after the ModRM byte that ends at `pos`: a
   * SIB address when rm is 4 in a memory form, the register named by the
   * unextended rm field in the register form (refused for a memory-only
   * operand), and otherwise the address without SIB.
   */
  function RmAt(buf: seq<bv8>, pos: nat, rex: Option<Rex>, d: Descriptor, mod: nat, rm: nat, slots: seq<Slot>): (r: Result<(seq<Slot>, nat), DecodeError>)
    requires pos <= |buf| && mod < 4 && rm < 8 && Fits(d, |slots|)
    ensures r.Ok? ==> |r.value.0| == |slots| && pos <= r.value.1 <= pos + 5 && r.value.1 <= |buf| && RmDesc(d).Some?
    ensures r.Ok? ==> forall i :: 0 <= i < |slots| && i != RmDesc(d).value.index ==> r.value.0[i] == slots[i]
    ensures r.Ok? && mod == 3 ==>
      && d.m.None? && r.value.1 == pos
      && GetRegister(RmDesc(d), rex, rm).Ok?
      && r.value.0[RmDesc(d).value.index] == NameSlot(GetRegister(RmDesc(d), rex, rm).value)
    ensures r.Ok? && mod != 3 ==> r.value.0[RmDesc(d).value.index].Some? && r.value.0[RmDesc(d).value.index].value.Memory?
    ensures mod == 3 ==> (r.Ok? <==> d.m.None? && Resolves(RmDesc(d), rex))
    ensures mod == 3 && d.m.Some? ==> r == Err(RegisterFormOfMemoryOnly)
    ensures mod != 3 && rm == 4 ==> (r.Ok? <==> RmDesc(d).Some? && SibAt(buf, pos, rex, RmDesc(d), mod).Ok?)
    ensures r.Ok? && mod != 3 && rm == 4 ==>
      var sib := SibAt(buf, pos, rex, RmDesc(d), mod).value;
      r.value.0[RmDesc(d).value.index] == Some(Memory(sib.0)) && r.value.1 == sib.1
    ensures mod != 3 && rm != 4 ==> (r.Ok? <==> PlainAt(buf, pos, rex, RmDesc(d), mod, rm).Ok?)
    ensures r.Ok? && mod != 3 && rm != 4 ==>
      var plain := PlainAt(buf, pos, rex, RmDesc(d), mod, rm).value;
      r.value.0[RmDesc(d).value.index] == Some(Memory(plain.0)) && r.value.1 == plain.1
  {
    var op := RmDesc(d);
    if mod != 3 && rm == 4 then
      var sib :- SibAt(buf, pos, rex, op, mod);
      if op.None? then Err(MissingOperand)
      else Ok((slots[op.value.index := Some(Memory(sib.0))], sib.1))
    else if mod == 3 then
      if d.m.Some? then Err(RegisterFormOfMemoryOnly)
      else
        var name :- GetRegister(op, rex, rm);
        Ok((slots[op.value.index := NameSlot(name)], pos))
    else
      var plain :- PlainAt(buf, pos, rex, op, mod, rm);
      Ok((slots[op.value.index := Some(Memory(plain.0))], plain.1))
  }

  // ---------------------------------------------------------------------
  // Fixed operands

  /** The slot value for a literal that may be `undefined`. */
  function LiteralSlot(text: Option<string>): Slot
  {
    match text
    case Some(s) => Some(Literal(s))
    case None => None
  }

  /**
   * `readOperand`'s choice for a fixed operand: the whole value when it has
   * no '/', otherwise the piece REX.B selects; without a REX byte `rex.b` is
   * `undefined` and so is the piece.
   */
  function FixedValue(value: string, rex: Option<Rex>): (r: Option<string>)
    ensures '/' !in value ==> r == Some(value)
    ensures '/' in value && rex.None? ==> r.None?
    ensures '/' in value && rex.Some? ==> r.Some? && '/' !in r.value
    ensures '/' in value && rex.Some? && rex.value.b == 0 ==> r.value + "/" <= value
    ensures '/' in value && rex.Some? && rex.value.b == 1 ==>
      var i := SlashFrom(value, 0);
      i < |value| && value[..i + 1] + r.value <= value && (i + 1 + |r.value| == |value| || value[i + 1 + |r.value|] == '/')
  {
    var variants := Split2(value);
    if |variants| == 2 then
      if rex.Some? then Some(variants[rex.value.b]) else None
    else
      Some(variants[0])
  }

  /** One `readOperand` call on the slots. */
  function FixedWrite(op: OperandDesc, rex: Option<Rex>, slots: seq<Slot>): seq<Slot>
    requires op.index < |slots|
  {
    if op.kind.Fixed? then slots[op.index := LiteralSlot(FixedValue(op.kind.value, rex))] else slots
  }

  /** The `forEach` over the operand descriptors, in order. */
  function FillFixed(ops: seq<OperandDesc>, rex: Option<Rex>, slots: seq<Slot>): (r: seq<Slot>)
    requires forall o :: o in ops ==> o.index < |slots|
    ensures |r| == |slots|
  {
    if ops == [] then slots
    else
      var last := ops[|ops| - 1];
      FixedWrite(last, rex, FillFixed(ops[..|ops| - 1], rex, slots))
  }

  // ---------------------------------------------------------------------
  // The instruction

  /** `disasmInstruction` at `pos`: the instruction and the position after its last byte. */
  function DisasmAt(t: Tables, buf: seq<bv8>, pos: nat): (r: Result<(Instruction, nat), DecodeError>)
    requires pos <= |buf| && TablesFit(t)
    ensures r.Ok? ==> pos < r.value.1 <= |buf|
  {
    DecodeAt(t, buf, ScanPrefixes(buf, pos).1)
  }

  /** The part of `disasmInstruction` after the prefixes, from the REX byte if any at `pos`. */
  function DecodeAt(t: Tables, buf: seq<bv8>, pos: nat): (r: Result<(Instruction, nat), DecodeError>)
    requires pos <= |buf| && TablesFit(t)
    ensures r.Ok? ==> pos < r.value.1 <= |buf|
  {
    var rex := RexAt(buf, pos);
    var oc :- OpcodeAt(t, buf, rex.1);
    if oc.0.None? then Err(UnknownOpcode)
    else
      var d := oc.0.value;
      assert Fits(d, |d.operands|);
      var slots := seq(|d.operands|, _ => None);
      var mr :- if d.modrm then ModrmAt(buf, oc.1, rex.0, d, slots) else Ok((slots, oc.1));
      Ok((Instruction(d.mnemonic, FillFixed(d.operands, rex.0, mr.0)), mr.1))
  }
}
