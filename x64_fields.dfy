/**
 * Byte-level field decoding: the legacy-prefix byte map, the REX bits, the
 * ModRM and SIB fields, and the `/`-separated variants of a fixed operand.
 */
module X64Fields {
  import opened Wrappers
  import opened X64Types

  /** The byte values `readPrefix` recognises. */
  const PrefixBytes: set<bv8> := {0xf0, 0xf2, 0xf3, 0x2e, 0x36, 0x3e, 0x26, 0x64, 0x65, 0x66, 0x67}

  /**
   * The byte each prefix flag is listed under in `readPrefix`, in source
   * order; `Likely` and `Unlikely` share 0x2e and 0x3e with the CS and DS
   * segment overrides.
   */
  function PrefixByte(p: Prefix): bv8
  {
    match p
    case Lock => 0xf0
    case RepNe => 0xf2
    case RepNz => 0xf3
    case OverrideCs => 0x2e
    case OverrideSs => 0x36
    case OverrideDs => 0x3e
    case OverrideEs => 0x26
    case OverrideFs => 0x64
    case OverrideGs => 0x65
    case Likely => 0x2e
    case Unlikely => 0x3e
    case OpOverride => 0x66
    case AddrOverride => 0x67
  }

  /**
   * `readPrefix`'s if-chain, first match wins. The second tests for 0x36,
   * 0x2e and 0x3e can never succeed, so `Likely` and `Unlikely` are never
   * produced.
   */
  function PrefixOf(b: bv8): (p: Option<Prefix>)
    ensures p.Some? <==> b in PrefixBytes
    ensures p != Some(Likely) && p != Some(Unlikely)
    ensures p.Some? ==> PrefixByte(p.value) == b
  {
    if b == 0xf0 then Some(Lock)
    else if b == 0xf2 then Some(RepNe)
    else if b == 0xf3 then Some(RepNz)
    else if b == 0x2e then Some(OverrideCs)
    else if b == 0x36 then Some(OverrideSs)
    else if b == 0x3e then Some(OverrideDs)
    else if b == 0x26 then Some(OverrideEs)
    else if b == 0x36 then Some(OverrideSs)
    else if b == 0x64 then Some(OverrideFs)
    else if b == 0x65 then Some(OverrideGs)
    else if b == 0x2e then Some(Likely)
    else if b == 0x3e then Some(Unlikely)
    else if b == 0x66 then Some(OpOverride)
    else if b == 0x67 then Some(AddrOverride)
    else None
  }

  /** Every prefix other than the two shadowed hints is read back from its own byte. */
  lemma PrefixByteRoundTrip(p: Prefix)
    requires p != Likely && p != Unlikely
    ensures PrefixOf(PrefixByte(p)) == Some(p)
  {
  }

  /**
   * `readREX`'s test and bit split: any byte with bit 6 (0x40) set is taken
   * as a REX byte, and its four low bits are W, R, X and B.
   */
  function RexOf(b: bv8): (rex: Option<Rex>)
    ensures rex.Some? <==> b & 0x40 == 0x40
    ensures rex.Some? ==> (b & 0x0f) as int == 8 * rex.value.w + 4 * rex.value.r + 2 * rex.value.x + rex.value.b
  {
    if b & 0x40 != 0x40 then None
    else Some(Rex(((b >> 3) & 1) as int, ((b >> 2) & 1) as int, ((b >> 1) & 1) as int, (b & 1) as int))
  }

  /** Architectural REX bytes are 0x40-0x4f; the source also accepts e.g. 0x50 (`push rax`). */
  lemma RexTestAcceptsNonRexBytes()
    ensures RexOf(0x48) == Some(Rex(1, 0, 0, 0))
    ensures RexOf(0x41) == Some(Rex(0, 0, 0, 1))
    ensures RexOf(0x50).Some? && RexOf(0xc3).Some? && RexOf(0x0f).None?
  {
  }

  datatype ModrmFields = ModrmFields(mod: nat, reg: nat, rm: nat)

  /** `readModrm`'s split of the ModRM byte into mod (bits 7-6), reg (5-3) and rm (2-0). */
  function SplitModrm(b: bv8): (f: ModrmFields)
    ensures f.mod < 4 && f.reg < 8 && f.rm < 8
    ensures b as int == 64 * f.mod + 8 * f.reg + f.rm
  {
    ModrmFields((b >> 6) as int, ((b >> 3) & 7) as int, (b & 7) as int)
  }

  datatype SibFields = SibFields(scale: nat, index: nat, base: nat)

  /** The scale code of a scale factor: the inverse of `1 << code`. */
  function ScaleCode(scale: nat): nat
  {
    if scale == 8 then 3 else if scale == 4 then 2 else if scale == 2 then 1 else 0
  }

  /** The SIB split: scale `1 << (bits 7-6)`, index (5-3) and base (2-0). */
  function SplitSib(b: bv8): (f: SibFields)
    ensures f.scale in {1, 2, 4, 8} && f.index < 8 && f.base < 8
    ensures b as int == 64 * ScaleCode(f.scale) + 8 * f.index + f.base
  {
    SibFields((1 as bv8 << ((b >> 6) & 7)) as int, ((b >> 3) & 7) as int, (b & 7) as int)
  }

  /** `field |= bit << 3` for a three-bit field: the bit becomes bit 3 of a four-bit register number. */
  function Extend(field: nat, bit: Bit): (n: nat)
    requires field < 8
    ensures n < 16 && n % 8 == field && n / 8 == bit
  {
    field + 8 * bit
  }

  /** The position of the first '/' at or after `from`, or `|s|`. */
  function SlashFrom(s: string, from: nat): (k: nat)
    requires from <= |s|
    ensures from <= k <= |s|
    ensures k < |s| ==> s[k] == '/'
    ensures forall i :: from <= i < k ==> s[i] != '/'
    decreases |s| - from
  {
    if from == |s| || s[from] == '/' then from else SlashFrom(s, from + 1)
  }

  /** `value.split(/\//, 2)`: at most two pieces, cut at the first and second '/'. */
  function Split2(s: string): (v: seq<string>)
    ensures |v| == 1 || |v| == 2
    ensures |v| == 1 <==> '/' !in s
    ensures |v| == 1 ==> v[0] == s
    ensures |v| == 2 ==> '/' !in v[0] && '/' !in v[1]
    ensures |v| == 2 ==> v[0] + "/" + v[1] <= s
    ensures |v| == 2 && |v[0]| + 1 + |v[1]| < |s| ==> s[|v[0]| + 1 + |v[1]|] == '/'
  {
    var i := SlashFrom(s, 0);
    if i == |s| then
      assert forall c :: c in s ==> c != '/';
      [s]
    else
      var j := SlashFrom(s, i + 1);
      assert s[..i] + "/" + s[i + 1..j] == s[..j];
      [s[..i], s[i + 1..j]]
  }
}
