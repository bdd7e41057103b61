/** Properties of the decoder that relate several steps or several inputs. */
module X64Properties {
  import opened Wrappers
  import opened X64Types
  import opened X64Registers
  import opened X64Fields
  import opened X64Spec

  // ---------------------------------------------------------------------
  // Fixed operands

  /** The fixed-operand pass never touches a slot that no fixed descriptor names. */
  lemma {:induction false} FillFixedKeeps(ops: seq<OperandDesc>, rex: Option<Rex>, slots: seq<Slot>, i: nat)
    requires forall o :: o in ops ==> o.index < |slots|
    requires i < |slots|
    requires forall o :: o in ops && o.kind.Fixed? ==> o.index != i
    ensures FillFixed(ops, rex, slots)[i] == slots[i]
  {
    if ops != [] {
      var init := ops[..|ops| - 1];
      assert forall o :: o in init ==> o in ops;
      FillFixedKeeps(init, rex, slots, i);
    }
  }

  /** A fixed descriptor's slot holds its selected literal unless a later fixed descriptor names the same slot. */
  lemma {:induction false} FillFixedWrites(ops: seq<OperandDesc>, rex: Option<Rex>, slots: seq<Slot>, k: nat)
    requires forall o :: o in ops ==> o.index < |slots|
    requires k < |ops| && ops[k].kind.Fixed?
    requires forall j :: k < j < |ops| && ops[j].kind.Fixed? ==> ops[j].index != ops[k].index
    ensures FillFixed(ops, rex, slots)[ops[k].index] == LiteralSlot(FixedValue(ops[k].kind.value, rex))
  {
    var init := ops[..|ops| - 1];
    if k < |ops| - 1 {
      assert forall o :: o in init ==> o in ops;
      assert init[k] == ops[k];
      FillFixedWrites(init, rex, slots, k);
    }
  }

  // ---------------------------------------------------------------------
  // Opcodes

  /** No opcode sequence is a proper prefix of another, so a byte stream starts with at most one. */
  lemma OpcodePrefixFree(a: seq<bv8>, b: seq<bv8>)
    requires IsOpcode(a) && IsOpcode(b) && a <= b
    ensures a == b
  {
    assert a[0] == b[0];
    if |a| >= 2 { assert a[1] == b[1]; }
  }

  /**
   * Opcode resolution is a function of the consumed bytes alone: any buffer
   * that has the same bytes at its position resolves to the same descriptor
   * after consuming the same number of bytes.
   */
  lemma OpcodeAtLocal(t: Tables, buf: seq<bv8>, pos: nat, buf2: seq<bv8>, pos2: nat)
    requires OpcodeAt(t, buf, pos).Ok?
    requires var n := OpcodeAt(t, buf, pos).value.1 - pos;
      pos2 + n <= |buf2| && buf2[pos2..pos2 + n] == buf[pos..pos + n]
    ensures var n := OpcodeAt(t, buf, pos).value.1 - pos;
      OpcodeAt(t, buf2, pos2) == Ok((OpcodeAt(t, buf, pos).value.0, pos2 + n))
  {
    var (d, e) := OpcodeAt(t, buf, pos).value;
    var n := e - pos;
    var s := buf[pos..e];
    assert IsOpcode(buf2[pos2..pos2 + n]);
    var r2 := OpcodeAt(t, buf2, pos2);
    assert r2.Ok?;
    var e2 := r2.value.1;
    var s2 := buf2[pos2..e2];
    if e2 - pos2 <= n {
      assert s2 <= s;
      OpcodePrefixFree(s2, s);
    }
  }

  // ---------------------------------------------------------------------
  // SIB

  /**
   * Two decodings of a memory operand agree: both fail or both succeed, and
   * on success they are equal, except that a 32-bit displacement (mod 2) is
   * the same bytes read with `readInt32` on the left and `readInt32LE` on
   * the right.
   */
  predicate SameAddress(sib: Result<(seq<MemPart>, nat), DecodeError>, plain: Result<(seq<MemPart>, nat), DecodeError>, mod: nat)
  {
    && (sib.Ok? <==> plain.Ok?)
    && (sib.Ok? && mod < 2 ==> sib.value == plain.value)
    && (sib.Ok? && mod == 2 ==>
          && sib.value.1 == plain.value.1
          && |sib.value.0| == |plain.value.0| == 2
          && sib.value.0[0] == plain.value.0[0]
          && plain.value.0[1].Disp? && plain.value.0[1].via == Int32LE
          && sib.value.0[1] == plain.value.0[1].(via := Int32))
  }

  /**
   * A SIB byte with no index (raw index 4, REX.X clear) and a base other
   * than 5 yields the expression of the no-SIB form whose rm is that base,
   * except that its 32-bit displacement is read with `readInt32` where the
   * no-SIB form uses `readInt32LE`.
   */
  lemma SibWithoutIndexIsPlain(buf: seq<bv8>, pos: nat, rex: Option<Rex>, op: Option<OperandDesc>, mod: nat)
    requires mod < 3 && pos < |buf|
    requires SibIndex(buf[pos], rex) == 4 && SibBase(buf[pos], rex) != 5
    ensures SameAddress(SibAt(buf, pos, rex, op, mod), PlainAt(buf, pos + 1, rex, op, mod, SplitSib(buf[pos]).base), mod)
  {
    SibWithoutIndexFields(buf[pos], rex);
    SibAtWithoutIndex(buf, pos, rex, op, mod);
    AddressWithoutIndexIsPlain(buf, pos + 1, rex, op, mod, SplitSib(buf[pos]).base);
  }

  /** An extended SIB index of 4 means raw index 4 with REX.X clear, and the extended base is the rm-style extension of the raw base. */
  lemma SibWithoutIndexFields(b: bv8, rex: Option<Rex>)
    requires SibIndex(b, rex) == 4
    ensures SplitSib(b).index == 4 && (rex.Some? ==> rex.value.x == 0)
    ensures RmField(SplitSib(b).base, rex) == SibBase(b, rex)
  {
  }

  /** Without an index, the SIB path is the address step with the number 4 as its index term. */
  lemma SibAtWithoutIndex(buf: seq<bv8>, pos: nat, rex: Option<Rex>, op: Option<OperandDesc>, mod: nat)
    requires mod < 3 && pos < |buf| && SibIndex(buf[pos], rex) == 4
    ensures SibAt(buf, pos, rex, op, mod) == SibAddressAt(buf, pos + 1, rex, op, mod, NoIndex, 4, SibBase(buf[pos], rex))
  {
    assert ByteAt(buf, pos) == Ok(buf[pos]);
    assert IndexTerm(op, rex, SplitSib(buf[pos]).scale, 4) == Ok(NoIndex);
  }

  /** The address part of `SibWithoutIndexIsPlain`, once the SIB byte is decoded. */
  lemma AddressWithoutIndexIsPlain(buf: seq<bv8>, pos: nat, rex: Option<Rex>, op: Option<OperandDesc>, mod: nat, rm: nat)
    requires pos <= |buf| && mod < 3 && rm < 8
    requires RmField(rm, rex) != 5 && (rex.Some? ==> rex.value.x == 0)
    ensures SameAddress(SibAddressAt(buf, pos, rex, op, mod, NoIndex, 4, RmField(rm, rex)), PlainAt(buf, pos, rex, op, mod, rm), mod)
  {
  }

  /** With base 5 and mod 1 the SIB form uses register 6 (esi), not register 5 (ebp), and keeps the number 4 for the missing index. */
  lemma SibBaseFiveUsesRegisterSix()
    ensures SibAt([0x25, 0x08], 0, None, Some(OperandDesc(General, 0)), 1)
      == Ok(([NoIndex, Disp(Int8, [0x08]), Reg(Some("esi"))], 2))
  {
    var buf: seq<bv8> := [0x25, 0x08];
    assert SplitSib(0x25) == SibFields(1, 4, 5);
    assert buf[1..2] == [0x08];
    assert GetRegister(Some(OperandDesc(General, 0)), None, 6) == Ok(Some("esi"));
  }

  /** An extended index 12 (REX.X with raw index 4) is a real index register, r12. */
  lemma SibExtendedIndexFourIsR12()
    ensures SibAt([0x60], 0, Some(Rex(1, 0, 1, 0)), Some(OperandDesc(General, 0)), 0)
      == Ok(([Reg(Some("rax")), Scaled(2, Some("r12"))], 1))
  {
    assert SplitSib(0x60) == SibFields(2, 4, 0);
    assert GetRegister(Some(OperandDesc(General, 0)), Some(Rex(1, 0, 1, 0)), 12) == Ok(Some("r12"));
    assert GetRegister(Some(OperandDesc(General, 0)), Some(Rex(1, 0, 1, 0)), 0) == Ok(Some("rax"));
  }

  /**
   * With mod 0 and rm 5 the no-SIB form is the plain register 5 and reads
   * no displacement; the x86-64 encoding makes it RIP-relative with a
   * 32-bit displacement.
   */
  lemma PlainRmFiveReadsNoDisplacement()
    ensures PlainAt([0x11, 0x22, 0x33, 0x44], 0, None, Some(OperandDesc(General, 0)), 0, 5)
      == Ok(([Reg(Some("ebp"))], 0))
  {
    assert GetRegister(Some(OperandDesc(General, 0)), None, 5) == Ok(Some("ebp"));
  }

  /**
   * The base-5 test comes after REX.B is OR-ed in, so SIB base 5 with REX.B
   * and mod 0 is r13 with no displacement; the x86-64 encoding means no
   * base and a 32-bit displacement there.
   */
  lemma SibRexBaseFiveIsR13()
    ensures SibAt([0x25], 0, Some(Rex(1, 0, 0, 1)), Some(OperandDesc(General, 0)), 0)
      == Ok(([Reg(Some("r13"))], 1))
  {
    assert SplitSib(0x25) == SibFields(1, 4, 5);
    assert GetRegister(Some(OperandDesc(General, 0)), Some(Rex(1, 0, 0, 1)), 13) == Ok(Some("r13"));
  }

  /** Base registers come from the rm operand's own table: an xmm operand gets xmm3 as its base. */
  lemma AddressRegistersFollowOperandKind()
    ensures PlainAt([], 0, None, Some(OperandDesc(Xmm, 0)), 0, 3) == Ok(([Reg(Some("xmm3"))], 0))
  {
    assert GetRegister(Some(OperandDesc(Xmm, 0)), None, 3) == Ok(Some("xmm3"));
  }

  /** The register form names the rm field without REX.B: rm 1 under REX 0x49 is rcx, not r9. */
  lemma RegisterFormIgnoresRexB()
    ensures RmAt([], 0, Some(Rex(1, 0, 0, 1)), MovDesc, 3, 1, [None, None])
      == Ok(([Some(Register("rcx")), None], 0))
  {
    var rex := Some(Rex(1, 0, 0, 1));
    assert RmDesc(MovDesc) == Some(OperandDesc(General, 0));
    assert GetRegister(RmDesc(MovDesc), rex, 1) == Ok(Some("rcx"));
    var r := RmAt([], 0, rex, MovDesc, 3, 1, [None, None]);
    assert r.Ok? && r.value.1 == 0;
    assert r.value.0 == [Some(Register("rcx")), None];
  }

  // ---------------------------------------------------------------------
  // Prefixes

  /**
   * The prefix loop consumes only prefix bytes and stops at the first byte
   * that is not one (or at the end of the buffer).
   */
  lemma {:induction false} ScanPrefixesStops(buf: seq<bv8>, pos: nat)
    requires pos <= |buf|
    ensures forall k :: pos <= k < ScanPrefixes(buf, pos).1 ==> buf[k] in PrefixBytes
    ensures ScanPrefixes(buf, pos).1 < |buf| ==> buf[ScanPrefixes(buf, pos).1] !in PrefixBytes
    decreases |buf| - pos
  {
    match PrefixAt(buf, pos)
    case None =>
    case Some(p) =>
      ScanPrefixesStops(buf, pos + 1);
  }

  /** A prefix is flagged exactly when one of the consumed bytes encodes it. */
  lemma {:induction false} ScanPrefixesFlags(buf: seq<bv8>, pos: nat)
    requires pos <= |buf|
    ensures forall p :: p in ScanPrefixes(buf, pos).0 <==> exists k :: pos <= k < ScanPrefixes(buf, pos).1 && PrefixOf(buf[k]) == Some(p)
    decreases |buf| - pos
  {
    match PrefixAt(buf, pos)
    case None =>
    case Some(q) =>
      ScanPrefixesFlags(buf, pos + 1);
      var end := ScanPrefixes(buf, pos).1;
      forall p | p in ScanPrefixes(buf, pos).0
        ensures exists k :: pos <= k < end && PrefixOf(buf[k]) == Some(p)
      {
        if p != q {
          var k :| pos + 1 <= k < end && PrefixOf(buf[k]) == Some(p);
        } else {
          assert PrefixOf(buf[pos]) == Some(p);
        }
      }
      forall p | exists k :: pos <= k < end && PrefixOf(buf[k]) == Some(p)
        ensures p in ScanPrefixes(buf, pos).0
      {
        var k :| pos <= k < end && PrefixOf(buf[k]) == Some(p);
        if k > pos {
          assert p in ScanPrefixes(buf, pos + 1).0;
        }
      }
  }

  /** A prefix run stops at the first non-prefix byte and sets one flag per prefix byte. */
  lemma PrefixScanExample()
    ensures ScanPrefixes([0x66, 0xf3, 0x2e, 0x90], 0) == ({OpOverride, RepNz, OverrideCs}, 3)
  {
    var buf: seq<bv8> := [0x66, 0xf3, 0x2e, 0x90];
    assert PrefixAt(buf, 3) == None;
    assert PrefixAt(buf, 2) == Some(OverrideCs);
    assert PrefixAt(buf, 1) == Some(RepNz);
    assert PrefixAt(buf, 0) == Some(OpOverride);
    assert ScanPrefixes(buf, 3) == ({}, 3);
    assert ScanPrefixes(buf, 2).0 == {OverrideCs};
    assert ScanPrefixes(buf, 1).0 == {RepNz, OverrideCs};
    assert ScanPrefixes(buf, 0).0 == {OpOverride, RepNz, OverrideCs};
  }

  // ---------------------------------------------------------------------
  // The instruction

  /**
   * A decoded instruction carries the mnemonic and operand count of the
   * descriptor found after the prefixes and REX byte, and ends right after
   * the opcode or at most six bytes later when a ModRM byte follows.
   */
  lemma DisasmShape(t: Tables, buf: seq<bv8>, pos: nat)
    requires pos <= |buf| && TablesFit(t) && DisasmAt(t, buf, pos).Ok?
    ensures var rex := RexAt(buf, ScanPrefixes(buf, pos).1);
      var oc := OpcodeAt(t, buf, rex.1);
      var ins := DisasmAt(t, buf, pos).value.0;
      var end := DisasmAt(t, buf, pos).value.1;
      && oc.Ok? && oc.value.0.Some?
      && ins.mnemonic == oc.value.0.value.mnemonic
      && |ins.operands| == |oc.value.0.value.operands|
      && (oc.value.0.value.modrm ==> oc.value.1 < end <= oc.value.1 + 6)
      && (!oc.value.0.value.modrm ==> end == oc.value.1)
  {
  }

  /** A table miss makes the instruction fail as an unknown opcode. */
  lemma DisasmUnknownOpcode(t: Tables, buf: seq<bv8>, pos: nat)
    requires pos <= |buf| && TablesFit(t)
    requires var rex := RexAt(buf, ScanPrefixes(buf, pos).1);
      OpcodeAt(t, buf, rex.1).Ok? && OpcodeAt(t, buf, rex.1).value.0.None?
    ensures DisasmAt(t, buf, pos) == Err(UnknownOpcode)
  {
  }

  const RetDesc := Descriptor("ret", [], false, None, None, None)

  /**
   * 0xC3 has bit 6 set, so `readREX` takes it as a REX byte: alone it leaves
   * no opcode byte, and only a second 0xC3 is read as the opcode.
   */
  lemma RetScenario(t: Tables)
    requires TablesFit(t) && 0xc3 in t.one && t.one[0xc3] == RetDesc
    ensures DisasmAt(t, [0xc3], 0) == Err(Truncated)
    ensures DisasmAt(t, [0xc3, 0xc3], 0) == Ok((Instruction("ret", []), 2))
  {
    var one: seq<bv8> := [0xc3];
    assert ScanPrefixes(one, 0) == ({}, 0);
    assert RexAt(one, 0) == (Some(Rex(0, 0, 1, 1)), 1);
    var two: seq<bv8> := [0xc3, 0xc3];
    assert ScanPrefixes(two, 0) == ({}, 0);
    assert RexAt(two, 0) == (Some(Rex(0, 0, 1, 1)), 1);
    assert OpcodeAt(t, two, 1) == Ok((Some(RetDesc), 2));
  }

  const MovDesc := Descriptor("mov", [OperandDesc(General, 0), OperandDesc(General, 1)], true,
    Some(OperandDesc(General, 1)), None, Some(OperandDesc(General, 0)))

  /** 0x48 0x89 0xD8: REX.W selects the 64-bit names for both ModRM operands; three bytes are consumed. */
  lemma MovScenario(t: Tables)
    requires TablesFit(t) && 0x89 in t.one && t.one[0x89] == MovDesc
    ensures DisasmAt(t, [0x48, 0x89, 0xd8], 0) == Ok((Instruction("mov", [Some(Register("rax")), Some(Register("rbx"))]), 3))
  {
    var buf: seq<bv8> := [0x48, 0x89, 0xd8];
    var rex := Some(Rex(1, 0, 0, 0));
    assert ScanPrefixes(buf, 0) == ({}, 0);
    assert RexAt(buf, 0) == (rex, 1);
    assert OpcodeAt(t, buf, 1) == Ok((Some(MovDesc), 2));
    assert SplitModrm(0xd8) == ModrmFields(3, 3, 0);
    var slots: seq<Slot> := [Some(Register("rax")), Some(Register("rbx"))];
    var empty: seq<Slot> := seq(2, _ => None);
    assert empty == [None, None];
    assert ModrmReg(0xd8, rex) == 3;
    assert GetRegister(MovDesc.r, rex, 3) == Ok(Some("rbx"));
    assert GetRegister(MovDesc.rm, rex, 0) == Ok(Some("rax"));
    assert empty[1 := Some(Register("rbx"))][0 := Some(Register("rax"))] == slots;
    assert ModrmAt(buf, 2, rex, MovDesc, empty) == Ok((slots, 3));
    assert FillFixed(MovDesc.operands, rex, slots) == slots;
  }

  // ---------------------------------------------------------------------
  // Instructions are self-delimiting

  /** `buf` and `buf2` hold the same bytes at positions `lo` up to `hi`. */
  ghost predicate Agree(buf: seq<bv8>, buf2: seq<bv8>, lo: nat, hi: nat)
  {
    hi <= |buf| && hi <= |buf2| && forall k :: lo <= k < hi ==> buf2[k] == buf[k]
  }

  lemma DispAtAgree(buf: seq<bv8>, buf2: seq<bv8>, pos: nat, via: Reader)
    requires DispAt(buf, pos, via).Ok? && Agree(buf, buf2, pos, pos + ReaderWidth(via))
    ensures DispAt(buf2, pos, via) == DispAt(buf, pos, via)
  {
    assert buf2[pos..pos + ReaderWidth(via)] == buf[pos..pos + ReaderWidth(via)];
  }

  lemma SibAddressAtAgree(buf: seq<bv8>, buf2: seq<bv8>, pos: nat, rex: Option<Rex>, op: Option<OperandDesc>, mod: nat,
                          indexTerm: MemPart, index: nat, base: nat)
    requires pos <= |buf| && pos <= |buf2| && mod < 3 && (indexTerm == NoIndex <==> index == 4)
    requires SibAddressAt(buf, pos, rex, op, mod, indexTerm, index, base).Ok?
    requires Agree(buf, buf2, pos, SibAddressAt(buf, pos, rex, op, mod, indexTerm, index, base).value.1)
    ensures SibAddressAt(buf2, pos, rex, op, mod, indexTerm, index, base) == SibAddressAt(buf, pos, rex, op, mod, indexTerm, index, base)
  {
    if base == 5 || mod != 0 {
      var via := if base == 5 && mod == 0 then Int32 else if mod == 1 then Int8 else Int32;
      DispAtAgree(buf, buf2, pos, via);
    }
  }

  lemma SibAtAgree(buf: seq<bv8>, buf2: seq<bv8>, pos: nat, rex: Option<Rex>, op: Option<OperandDesc>, mod: nat)
    requires mod < 3 && SibAt(buf, pos, rex, op, mod).Ok?
    requires Agree(buf, buf2, pos, SibAt(buf, pos, rex, op, mod).value.1)
    ensures SibAt(buf2, pos, rex, op, mod) == SibAt(buf, pos, rex, op, mod)
  {
    var sib := buf[pos];
    assert buf2[pos] == sib;
    var index := SibIndex(sib, rex);
    var indexTerm := IndexTerm(op, rex, SplitSib(sib).scale, index).value;
    SibAddressAtAgree(buf, buf2, pos + 1, rex, op, mod, indexTerm, index, SibBase(sib, rex));
  }

  lemma PlainAtAgree(buf: seq<bv8>, buf2: seq<bv8>, pos: nat, rex: Option<Rex>, op: Option<OperandDesc>, mod: nat, rm: nat)
    requires pos <= |buf| && pos <= |buf2| && mod < 3 && rm < 8
    requires PlainAt(buf, pos, rex, op, mod, rm).Ok?
    requires Agree(buf, buf2, pos, pos + (if mod == 0 then 0 else ReaderWidth(PlainReader(mod))))
    ensures PlainAt(buf2, pos, rex, op, mod, rm) == PlainAt(buf, pos, rex, op, mod, rm)
  {
    if mod == 1 {
      DispAtAgree(buf, buf2, pos, Int8);
    } else if mod == 2 {
      DispAtAgree(buf, buf2, pos, Int32LE);
    }
  }

  lemma RmAtAgree(buf: seq<bv8>, buf2: seq<bv8>, pos: nat, rex: Option<Rex>, d: Descriptor, mod: nat, rm: nat, slots: seq<Slot>)
    requires pos <= |buf| && pos <= |buf2| && mod < 4 && rm < 8 && Fits(d, |slots|)
    requires RmAt(buf, pos, rex, d, mod, rm, slots).Ok?
    requires Agree(buf, buf2, pos, RmAt(buf, pos, rex, d, mod, rm, slots).value.1)
    ensures RmAt(buf2, pos, rex, d, mod, rm, slots) == RmAt(buf, pos, rex, d, mod, rm, slots)
  {
    if mod != 3 && rm == 4 {
      SibAtAgree(buf, buf2, pos, rex, RmDesc(d), mod);
    } else if mod != 3 {
      PlainAtAgree(buf, buf2, pos, rex, RmDesc(d), mod, rm);
    }
  }

  lemma ModrmAtAgree(buf: seq<bv8>, buf2: seq<bv8>, pos: nat, rex: Option<Rex>, d: Descriptor, slots: seq<Slot>)
    requires Fits(d, |slots|) && ModrmAt(buf, pos, rex, d, slots).Ok?
    requires Agree(buf, buf2, pos, ModrmAt(buf, pos, rex, d, slots).value.1)
    ensures ModrmAt(buf2, pos, rex, d, slots) == ModrmAt(buf, pos, rex, d, slots)
  {
    var b := buf[pos];
    assert buf2[pos] == b;
    var regName := GetRegister(d.r, rex, ModrmReg(b, rex)).value;
    RmAtAgree(buf, buf2, pos + 1, rex, d, SplitModrm(b).mod, SplitModrm(b).rm, slots[d.r.value.index := NameSlot(regName)]);
  }

  lemma DecodeAtAgree(t: Tables, buf: seq<bv8>, buf2: seq<bv8>, pos: nat)
    requires pos <= |buf| && pos <= |buf2| && TablesFit(t) && DecodeAt(t, buf, pos).Ok?
    requires Agree(buf, buf2, pos, DecodeAt(t, buf, pos).value.1)
    ensures DecodeAt(t, buf2, pos) == DecodeAt(t, buf, pos)
  {
    var rex := RexAt(buf, pos);
    assert RexAt(buf2, pos) == rex;
    var oc := OpcodeAt(t, buf, rex.1).value;
    var n := oc.1 - rex.1;
    assert buf2[rex.1..rex.1 + n] == buf[rex.1..rex.1 + n];
    OpcodeAtLocal(t, buf, rex.1, buf2, rex.1);
    assert OpcodeAt(t, buf2, rex.1) == OpcodeAt(t, buf, rex.1);
    var d := oc.0.value;
    assert Fits(d, |d.operands|);
    if d.modrm {
      var slots: seq<Slot> := seq(|d.operands|, _ => None);
      ModrmAtAgree(buf, buf2, oc.1, rex.0, d, slots);
      assert ModrmAt(buf2, oc.1, rex.0, d, slots) == ModrmAt(buf, oc.1, rex.0, d, slots);
    }
  }

  /** The prefix run is the same in any buffer holding the same bytes up to the byte that stops it. */
  lemma {:induction false} ScanPrefixesAgree(buf: seq<bv8>, buf2: seq<bv8>, pos: nat)
    requires pos <= |buf| && pos <= |buf2| && ScanPrefixes(buf, pos).1 < |buf|
    requires Agree(buf, buf2, pos, ScanPrefixes(buf, pos).1 + 1)
    ensures ScanPrefixes(buf2, pos) == ScanPrefixes(buf, pos)
    decreases |buf| - pos
  {
    assert buf2[pos] == buf[pos];
    if PrefixAt(buf, pos).Some? {
      ScanPrefixesAgree(buf, buf2, pos + 1);
    }
  }

  /**
   * An instruction is determined by its own bytes: any buffer holding the
   * same bytes from `pos` up to the end of the decoded instruction decodes
   * the same instruction with the same end, whatever follows. In particular
   * appending bytes, or cutting the buffer right after the instruction,
   * changes nothing.
   */
  lemma DisasmAtAgree(t: Tables, buf: seq<bv8>, buf2: seq<bv8>, pos: nat)
    requires pos <= |buf| && pos <= |buf2| && TablesFit(t) && DisasmAt(t, buf, pos).Ok?
    requires Agree(buf, buf2, pos, DisasmAt(t, buf, pos).value.1)
    ensures DisasmAt(t, buf2, pos) == DisasmAt(t, buf, pos)
  {
    var p1 := ScanPrefixes(buf, pos).1;
    assert DecodeAt(t, buf, p1).Ok?;
    ScanPrefixesAgree(buf, buf2, pos);
    DecodeAtAgree(t, buf, buf2, p1);
  }

  /**
   * A decoded instruction is unchanged by bytes appended after the buffer,
   * and the buffer cut right after the instruction decodes it too.
   */
  lemma DisasmAtOwnBytes(t: Tables, buf: seq<bv8>, pos: nat, more: seq<bv8>)
    requires pos <= |buf| && TablesFit(t) && DisasmAt(t, buf, pos).Ok?
    ensures DisasmAt(t, buf + more, pos) == DisasmAt(t, buf, pos)
    ensures DisasmAt(t, buf[..DisasmAt(t, buf, pos).value.1], pos) == DisasmAt(t, buf, pos)
  {
    var end := DisasmAt(t, buf, pos).value.1;
    DisasmAtAgree(t, buf, buf + more, pos);
    DisasmAtAgree(t, buf, buf[..end], pos);
  }
}
