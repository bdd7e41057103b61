/** The decoder's register-name tables and the register lookup `getRegister`. */
module X64Registers {
  import opened Wrappers
  import opened X64Types

  const General64: seq<string> := [
    "rax", "rcx", "rdx", "rbx", "rsp", "rbp", "rsi", "rdi",
    "r8", "r9", "r10", "r11", "r12", "r13", "r14", "r15"]

  const General32: seq<string> := [
    "eax", "ecx", "edx", "ebx", "esp", "ebp", "esi", "edi"]

  const MmxNames: seq<string> := [
    "mm0", "mm1", "mm2", "mm3", "mm4", "mm5", "mm6", "mm7",
    "mm8", "mm9", "mm10", "mm11", "mm12", "mm13", "mm14", "mm15"]

  const XmmNames: seq<string> := [
    "xmm0", "xmm1", "xmm2", "xmm3", "xmm4", "xmm5", "xmm6", "xmm7",
    "xmm8", "xmm9", "xmm10", "xmm11", "xmm12", "xmm13", "xmm14", "xmm15"]

  /** General registers use their 64-bit names exactly when a REX byte with W set is present. */
  predicate Wide(rex: Option<Rex>)
  {
    rex.Some? && rex.value.w == 1
  }

  /**
   * The name table for an operand kind: the 64- or 32-bit general table by
   * width, the width-independent MMX and XMM tables, the empty `unknown`
   * table, and no table at all for any other kind.
   */
  function RegisterTable(kind: Kind, wide: bool): (names: Option<seq<string>>)
    ensures names.Some? <==> kind in {General, Mmx, Xmm, Unknown}
    ensures kind == General ==> names == Some(if wide then General64 else General32)
    ensures names.Some? ==> |names.value| == (if kind == Unknown then 0 else if kind == General && !wide then 8 else 16)
  {
    match kind
    case General => Some(if wide then General64 else General32)
    case Mmx => Some(MmxNames)
    case Xmm => Some(XmmNames)
    case Unknown => Some([])
    case _ => None
  }

  /** Only general registers depend on the REX width; MMX and XMM names do not. */
  lemma NonGeneralIgnoresWidth(kind: Kind)
    requires kind != General
    ensures RegisterTable(kind, true) == RegisterTable(kind, false)
  {
  }

  /** A register lookup through `op` succeeds: there is a descriptor and its kind has a table. */
  predicate Resolves(op: Option<OperandDesc>, rex: Option<Rex>)
  {
    op.Some? && RegisterTable(op.value.kind, Wide(rex)).Some?
  }

  /**
   * `getRegister`: the name at `index` in the table for the descriptor's kind
   * and the REX width. A null descriptor or a kind without a table is the
   * TypeError the lookup raises; an index past the table's end is `undefined`.
   */
  function GetRegister(op: Option<OperandDesc>, rex: Option<Rex>, index: nat): (r: Result<Option<string>, DecodeError>)
    ensures r.Ok? <==> Resolves(op, rex)
    ensures op.None? ==> r == Err(MissingOperand)
    ensures op.Some? && r.Err? ==> r.error == NoRegisterTable
    ensures r.Ok? ==> (r.value.Some? <==> index < |RegisterTable(op.value.kind, Wide(rex)).value|)
    ensures r.Ok? && r.value.Some? ==> r.value.value == RegisterTable(op.value.kind, Wide(rex)).value[index]
  {
    if op.None? then Err(MissingOperand)
    else
      match RegisterTable(op.value.kind, Wide(rex))
      case None => Err(NoRegisterTable)
      case Some(names) => Ok(if index < |names| then Some(names[index]) else None)
  }

  /** The first position of `name` in `names`, if any: the inverse of a table lookup. */
  function IndexOf(names: seq<string>, name: string): (k: Option<nat>)
    ensures k.Some? ==> k.value < |names| && names[k.value] == name
    ensures k.None? <==> name !in names
  {
    if names == [] then None
    else if names[0] == name then Some(0)
    else match IndexOf(names[1..], name)
      case None => None
      case Some(k) => Some(k + 1)
  }

  ghost predicate Distinct(names: seq<string>)
  {
    forall i, j :: 0 <= i < j < |names| ==> names[i] != names[j]
  }

  lemma {:induction false} IndexOfDistinct(names: seq<string>, k: nat)
    requires Distinct(names) && k < |names|
    ensures IndexOf(names, names[k]) == Some(k)
  {
    if k > 0 {
      assert names[1..][k - 1] == names[k];
      IndexOfDistinct(names[1..], k - 1);
    }
  }

  lemma TablesDistinct()
    ensures Distinct(General64) && Distinct(General32) && Distinct(MmxNames) && Distinct(XmmNames)
  {
  }

  /**
   * A resolved register name determines the index it was resolved from:
   * looking the name up again in the same table gives back the index.
   */
  lemma {:induction false} RegisterNameDeterminesIndex(op: OperandDesc, rex: Option<Rex>, index: nat)
    requires GetRegister(Some(op), rex, index).Ok? && GetRegister(Some(op), rex, index).value.Some?
    ensures IndexOf(RegisterTable(op.kind, Wide(rex)).value, GetRegister(Some(op), rex, index).value.value) == Some(index)
  {
    TablesDistinct();
    IndexOfDistinct(RegisterTable(op.kind, Wide(rex)).value, index);
  }

  /** 64-bit general names all start with 'r' and 32-bit ones with 'e', so the two widths never share a name. */
  lemma GeneralWidthsDisjoint(rex: Option<Rex>, index: nat)
    requires GetRegister(Some(OperandDesc(General, 0)), rex, index).value.Some?
    ensures var name := GetRegister(Some(OperandDesc(General, 0)), rex, index).value.value;
      (name in General64 <==> Wide(rex)) && (name in General32 <==> !Wide(rex))
  {
  }
}
