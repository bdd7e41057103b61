/**
 * The decoder object: a forward-only byte cursor over `buf` together with
 * the decoding methods of lib/disasm/x64.js. Every method is proved to do
 * exactly what the matching function of `X64Spec` describes, including how
 * far it moves the cursor.
 */
module X64Decoder {
  import opened Wrappers
  import opened X64Types
  import opened X64Registers
  import opened X64Fields
  import opened X64Spec

  class X64 {
    /** The bytes being decoded. */
    const buf: seq<bv8>
    /** The opcode tables (`X64.opcodeTable`). */
    const tables: Tables
    /** The cursor position. */
    var offset: nat

    ghost predicate Valid()
      reads this
    {
      offset <= |buf| && TablesFit(tables)
    }

    constructor (buf: seq<bv8>, tables: Tables)
      requires TablesFit(tables)
      ensures Valid() && this.buf == buf && this.tables == tables && offset == 0
    {
      this.buf := buf;
      this.tables := tables;
      offset := 0;
    }

    // -------------------------------------------------------------------
    // Cursor primitives of the base decoder, specified only by what they
    // return and how far they move the cursor.

    method Peek() returns (b: Option<bv8>)
      requires Valid()
      ensures b == PeekAt(buf, offset)
    {
      b := if offset < |buf| then Some(buf[offset]) else None;
    }

    method Skip(n: nat)
      requires Valid() && offset + n <= |buf|
      modifies this
      ensures Valid() && offset == old(offset) + n
    {
      offset := offset + n;
    }

    method ReadUInt8() returns (r: Result<bv8, DecodeError>)
      requires Valid()
      modifies this
      ensures Valid() && r == ByteAt(buf, old(offset))
      ensures offset == if r.Ok? then old(offset) + 1 else old(offset)
    {
      if offset < |buf| {
        r := Ok(buf[offset]);
        offset := offset + 1;
      } else {
        r := Err(Truncated);
      }
    }

    /** Reads the bytes of one displacement, tagged with the read that produced them. */
    method ReadDisp(via: Reader) returns (r: Result<MemPart, DecodeError>)
      requires Valid()
      modifies this
      ensures Valid() && r == DispAt(buf, old(offset), via)
      ensures offset == if r.Ok? then old(offset) + ReaderWidth(via) else old(offset)
    {
      var n := ReaderWidth(via);
      if offset + n <= |buf| {
        r := Ok(Disp(via, buf[offset..offset + n]));
        offset := offset + n;
      } else {
        r := Err(Truncated);
      }
    }

    method ReadInt8() returns (r: Result<MemPart, DecodeError>)
      requires Valid()
      modifies this
      ensures Valid() && r == DispAt(buf, old(offset), Int8)
      ensures offset == if r.Ok? then old(offset) + 1 else old(offset)
    {
      r := ReadDisp(Int8);
    }

    method ReadInt32() returns (r: Result<MemPart, DecodeError>)
      requires Valid()
      modifies this
      ensures Valid() && r == DispAt(buf, old(offset), Int32)
      ensures offset == if r.Ok? then old(offset) + 4 else old(offset)
    {
      r := ReadDisp(Int32);
    }

    method ReadInt32LE() returns (r: Result<MemPart, DecodeError>)
      requires Valid()
      modifies this
      ensures Valid() && r == DispAt(buf, old(offset), Int32LE)
      ensures offset == if r.Ok? then old(offset) + 4 else old(offset)
    {
      r := ReadDisp(Int32LE);
    }

    // -------------------------------------------------------------------
    // Decoding steps

    /** `readPrefix`: one byte is consumed exactly when it is a prefix byte. */
    method ReadPrefix() returns (p: Option<Prefix>)
      requires Valid()
      modifies this
      ensures Valid() && p == PrefixAt(buf, old(offset))
      ensures offset == if p.Some? then old(offset) + 1 else old(offset)
    {
      var b := Peek();
      p := if b.Some? then PrefixOf(b.value) else None;
      if p.Some? {
        Skip(1);
      }
    }

    /** `readREX`: one byte is consumed exactly when it has bit 0x40 set. */
    method ReadREX() returns (rex: Option<Rex>)
      requires Valid()
      modifies this
      ensures Valid() && (rex, offset) == RexAt(buf, old(offset))
    {
      var b := Peek();
      if b.None? || b.value & 0x40 != 0x40 {
        return None;
      }
      Skip(1);
      rex := RexOf(b.value);
    }

    /** `readOpcode`: one, two or three bytes, then a lookup in the table they select. */
    method ReadOpcode() returns (r: Result<Option<Descriptor>, DecodeError>)
      requires Valid()
      modifies this
      ensures Valid()
      ensures var spec := OpcodeAt(tables, buf, old(offset));
        && (r.Ok? <==> spec.Ok?)
        && (r.Ok? ==> r.value == spec.value.0 && offset == spec.value.1)
        && (r.Err? ==> r.error == spec.error)
    {
      var b :- ReadUInt8();
      if b != 0x0f {
        return Ok(Lookup(tables.one, b));
      }
      b :- ReadUInt8();
      if b == 0x38 {
        var b3 :- ReadUInt8();
        return Ok(Lookup(tables.three1, b3));
      }
      if b == 0x3a {
        var b3 :- ReadUInt8();
        return Ok(Lookup(tables.three2, b3));
      }
      return Ok(Lookup(tables.two, b));
    }

    /**
     * The SIB path of `readModrm`: reads the SIB byte and the displacement
     * and builds the memory expression.
     */
    method ReadSib(rex: Option<Rex>, op: Option<OperandDesc>, mod: nat) returns (r: Result<seq<MemPart>, DecodeError>)
      requires Valid() && mod < 3
      modifies this
      ensures Valid()
      ensures var spec := SibAt(buf, old(offset), rex, op, mod);
        && (r.Ok? <==> spec.Ok?)
        && (r.Ok? ==> r.value == spec.value.0 && offset == spec.value.1)
        && (r.Err? ==> r.error == spec.error)
    {
      ghost var pos := offset;
      var sib :- ReadUInt8();
      var s := SplitSib(sib);
      var index, base := s.index, s.base;
      if rex.Some? {
        index := Extend(index, rex.value.x);
        base := Extend(base, rex.value.b);
      }
      assert sib == buf[pos] && offset == pos + 1;
      assert index == SibIndex(sib, rex) && base == SibBase(sib, rex);
      var indexTerm := NoIndex;
      if index != 4 {
        var name :- GetRegister(op, rex, index);
        indexTerm := if s.scale == 1 then Reg(name) else Scaled(s.scale, name);
      }
      assert IndexTerm(op, rex, s.scale, index) == Ok(indexTerm);
      r := ReadSibAddress(rex, op, mod, indexTerm, index, base);
    }

    /** The address after the SIB byte (`ptr`): reads the displacement and resolves the base. */
    method ReadSibAddress(rex: Option<Rex>, op: Option<OperandDesc>, mod: nat, indexTerm: MemPart, index: nat, base: nat)
      returns (r: Result<seq<MemPart>, DecodeError>)
      requires Valid() && mod < 3
      requires indexTerm == NoIndex <==> index == 4
      modifies this
      ensures Valid()
      ensures var spec := SibAddressAt(buf, old(offset), rex, op, mod, indexTerm, index, base);
        && (r.Ok? <==> spec.Ok?)
        && (r.Ok? ==> r.value == spec.value.0 && offset == spec.value.1)
        && (r.Err? ==> r.error == spec.error)
    {
      if base == 5 {
        if mod == 0 {
          var disp :- ReadInt32();
          return Ok([indexTerm, disp]);
        } else if mod == 1 {
          var disp :- ReadInt8();
          var r6 :- GetRegister(op, rex, 6);
          return Ok([indexTerm, disp, Reg(r6)]);
        } else {
          var disp :- ReadInt32();
          var r6 :- GetRegister(op, rex, 6);
          return Ok([indexTerm, disp, Reg(r6)]);
        }
      }
      var baseName :- GetRegister(op, rex, base);
      if mod == 0 {
        return Ok(if index == 4 then [Reg(baseName)] else [Reg(baseName), indexTerm]);
      }
      var disp;
      if mod == 1 {
        disp :- ReadInt8();
      } else {
        disp :- ReadInt32();
      }
      return Ok(if index == 4 then [Reg(baseName), disp] else [Reg(baseName), indexTerm, disp]);
    }

    /**
     * The memory path of `readModrm` without a SIB byte: REX.X must be clear,
     * rm is extended by REX.B, and a displacement may follow.
     */
    method ReadPlainMemory(rex: Option<Rex>, op: Option<OperandDesc>, mod: nat, rm: nat) returns (r: Result<seq<MemPart>, DecodeError>)
      requires Valid() && mod < 3 && rm < 8
      modifies this
      ensures Valid()
      ensures var spec := PlainAt(buf, old(offset), rex, op, mod, rm);
        && (r.Ok? <==> spec.Ok?)
        && (r.Ok? ==> r.value == spec.value.0 && offset == spec.value.1)
        && (r.Err? ==> r.error == spec.error)
    {
      var reg := rm;
      if rex.Some? {
        if rex.value.x != 0 {
          return Err(RexXWithoutSib);
        }
        reg := Extend(reg, rex.value.b);
      }
      if mod == 0 {
        var name :- GetRegister(op, rex, reg);
        return Ok([Reg(name)]);
      }
      var imm;
      if mod == 1 {
        imm :- ReadInt8();
      } else {
        imm :- ReadInt32LE();
      }
      var name :- GetRegister(op, rex, reg);
      return Ok([Reg(name), imm]);
    }

    /**
     * `readModrm`: reads the ModRM byte and, for memory forms, a SIB byte and
     * a displacement, writing the reg operand and the rm operand into `res`.
     */
    method ReadModrm(rex: Option<Rex>, opcode: Descriptor, res: array<Slot>) returns (r: Result<(), DecodeError>)
      requires Valid() && Fits(opcode, res.Length)
      modifies this, res
      ensures Valid()
      ensures var spec := ModrmAt(buf, old(offset), rex, opcode, old(res[..]));
        && (r.Ok? <==> spec.Ok?)
        && (r.Ok? ==> res[..] == spec.value.0 && offset == spec.value.1)
        && (r.Err? ==> r.error == spec.error)
    {
      var b :- ReadUInt8();
      assert b == buf[old(offset)] && offset == old(offset) + 1;
      var f := SplitModrm(b);
      var reg := f.reg;
      if rex.Some? {
        reg := Extend(reg, rex.value.r);
      }
      assert reg == ModrmReg(b, rex);
      if opcode.r.None? {
        return Err(MissingOperand);
      }
      var regName :- GetRegister(opcode.r, rex, reg);
      res[opcode.r.value.index] := NameSlot(regName);
      assert res[..] == old(res[..])[opcode.r.value.index := NameSlot(regName)];
      r := ReadRm(rex, opcode, f.mod, f.rm, res);
    }

    /** The rm half of `readModrm`, once the ModRM byte is read and the reg operand written. */
    method ReadRm(rex: Option<Rex>, opcode: Descriptor, mod: nat, rm: nat, res: array<Slot>) returns (r: Result<(), DecodeError>)
      requires Valid() && mod < 4 && rm < 8 && Fits(opcode, res.Length)
      modifies this, res
      ensures Valid()
      ensures var spec := RmAt(buf, old(offset), rex, opcode, mod, rm, old(res[..]));
        && (r.Ok? <==> spec.Ok?)
        && (r.Ok? ==> res[..] == spec.value.0 && offset == spec.value.1)
        && (r.Err? ==> r.error == spec.error)
    {
      var op := if opcode.m.Some? then opcode.m else opcode.rm;
      if mod != 3 && rm == 4 {
        var ptr :- ReadSib(rex, op, mod);
        if op.None? {
          return Err(MissingOperand);
        }
        res[op.value.index] := Some(Memory(ptr));
        return Ok(());
      }

      if mod == 3 {
        if opcode.m.Some? {
          return Err(RegisterFormOfMemoryOnly);
        }
        var name :- GetRegister(op, rex, rm);
        res[op.value.index] := NameSlot(name);
        return Ok(());
      }

      var ptr :- ReadPlainMemory(rex, op, mod, rm);
      res[op.value.index] := Some(Memory(ptr));
      return Ok(());
    }

    /** `readOperand`: only a fixed operand writes its slot, and only that slot. */
    method ReadOperand(rex: Option<Rex>, op: OperandDesc, operands: array<Slot>)
      requires op.index < operands.Length
      modifies operands
      ensures !op.kind.Fixed? ==> operands[..] == old(operands[..])
      ensures op.kind.Fixed? ==> operands[..] == old(operands[..])[op.index := LiteralSlot(FixedValue(op.kind.value, rex))]
    {
      if !op.kind.Fixed? {
        return;
      }
      var variants := Split2(op.kind.value);
      var res: Option<string>;
      if |variants| == 2 {
        res := if rex.Some? then Some(variants[rex.value.b]) else None;
      } else {
        res := Some(variants[0]);
      }
      operands[op.index] := LiteralSlot(res);
    }

    /**
     * `disasmInstruction`: prefixes, REX, opcode, ModRM when the descriptor
     * asks for it, then the fixed operands.
     */
    method DisasmInstruction() returns (r: Result<Instruction, DecodeError>)
      requires Valid()
      modifies this
      ensures Valid()
      ensures var spec := DisasmAt(tables, buf, old(offset));
        && (r.Ok? <==> spec.Ok?)
        && (r.Ok? ==> r.value == spec.value.0 && offset == spec.value.1)
        && (r.Err? ==> r.error == spec.error)
    {
      ghost var start := offset;
      var prefixes: set<Prefix> := {};
      var more := true;
      assert ScanPrefixes(buf, start).0 == prefixes + ScanPrefixes(buf, start).0;
      while more
        invariant Valid() && start <= offset
        invariant more ==> ScanPrefixes(buf, start).0 == prefixes + ScanPrefixes(buf, offset).0
        invariant ScanPrefixes(buf, start).1 == ScanPrefixes(buf, offset).1
        invariant !more ==> ScanPrefixes(buf, start).0 == prefixes && ScanPrefixes(buf, offset).1 == offset
        decreases |buf| - offset + (if more then 1 else 0)
      {
        ghost var before := offset;
        var prefix := ReadPrefix();
        ScanStep(buf, before, prefix);
        if prefix.Some? {
          assert prefixes + ({prefix.value} + ScanPrefixes(buf, offset).0) == prefixes + {prefix.value} + ScanPrefixes(buf, offset).0;
          prefixes := prefixes + {prefix.value};
        }
        more := prefix.Some?;
      }
      assert DisasmAt(tables, buf, start) == DecodeAt(tables, buf, offset);
      r := ReadInstruction();
    }

    /** The rest of `disasmInstruction` once the prefixes are consumed: REX, opcode, ModRM, fixed operands. */
    method ReadInstruction() returns (r: Result<Instruction, DecodeError>)
      requires Valid()
      modifies this
      ensures Valid()
      ensures var spec := DecodeAt(tables, buf, old(offset));
        && (r.Ok? <==> spec.Ok?)
        && (r.Ok? ==> r.value == spec.value.0 && offset == spec.value.1)
        && (r.Err? ==> r.error == spec.error)
    {
      ghost var start := offset;

      var rex := ReadREX();
      assert (rex, offset) == RexAt(buf, start);
      ghost var afterRex := offset;
      var found :- ReadOpcode();
      if found.None? {
        return Err(UnknownOpcode);
      }
      var op := found.value;
      assert OpcodeAt(tables, buf, afterRex) == Ok((found, offset));
      assert Fits(op, |op.operands|);

      var operands := new Slot[|op.operands|](_ => None);
      assert operands[..] == seq(|op.operands|, _ => None);
      ghost var afterOpcode := offset;
      if op.modrm {
        var m := ReadModrm(rex, op, operands);
        if m.Err? {
          return Err(m.error);
        }
        assert ModrmAt(buf, afterOpcode, rex, op, seq(|op.operands|, _ => None)) == Ok((operands[..], offset));
      }

      ReadOperands(rex, op.operands, operands);
      return Ok(Instruction(op.mnemonic, operands[..]));
    }

    /** The `forEach` of `disasmInstruction` that hands every descriptor to `readOperand`, in order. */
    method ReadOperands(rex: Option<Rex>, ops: seq<OperandDesc>, operands: array<Slot>)
      requires forall o :: o in ops ==> o.index < operands.Length
      modifies operands
      ensures operands[..] == FillFixed(ops, rex, old(operands[..]))
    {
      ghost var filled := operands[..];
      for i := 0 to |ops|
        invariant operands[..] == FillFixed(ops[..i], rex, filled)
      {
        assert ops[..i + 1][..i] == ops[..i];
        ReadOperand(rex, ops[i], operands);
      }
      assert ops[..|ops|] == ops;
    }
  }

  /** One round of the prefix loop, as seen by `ScanPrefixes`. */
  lemma ScanStep(buf: seq<bv8>, pos: nat, p: Option<Prefix>)
    requires pos <= |buf| && p == PrefixAt(buf, pos)
    ensures p.None? ==> ScanPrefixes(buf, pos) == ({}, pos)
    ensures p.Some? ==>
      && pos < |buf|
      && ScanPrefixes(buf, pos).0 == {p.value} + ScanPrefixes(buf, pos + 1).0
      && ScanPrefixes(buf, pos).1 == ScanPrefixes(buf, pos + 1).1
  {
  }
}
