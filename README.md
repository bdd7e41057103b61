# x86-64 instruction decoding front end

This project models the decoding core of the x86-64 disassembler in
`lib/disasm/x64.js`: the legacy-prefix loop, the REX byte, the one-, two-
and three-byte opcode lookup, the register-name tables, the ModRM and SIB
addressing forms with their displacements, the fixed operands, and the
instruction decoder that ties them together.

The model has two layers.

- `X64Spec` (with `X64Fields` and `X64Registers`) describes every step as a
  pure function. The `X64Spec` functions that read bytes (`ByteAt`,
  `DispAt`, `RexAt`, `OpcodeAt`, `SibAt`, `SibAddressAt`, `PlainAt`,
  `ModrmAt`, `RmAt`, `DecodeAt`, `DisasmAt`) take the byte buffer and a
  position and return the decoded value with the position after the last
  byte read, or a `DecodeError`. The field, register and fixed-operand
  helpers are plain functions of their arguments.
- `X64Decoder.X64` is the decoder object itself: a class holding the buffer,
  the opcode tables and a mutable cursor `offset`. Its methods are the
  source's methods (`readPrefix`, `readREX`, `readOpcode`, `readModrm`,
  `readOperand`, `disasmInstruction`), written step by step as in the
  source. Every method is proved to return what the matching `X64Spec`
  function returns and to leave the cursor where that function says.
  `readModrm` and `readOperand` write into a caller-supplied `array<Slot>`,
  as the source writes into its `operands` array.

`X64Properties` states what the decoder promises across steps and inputs.
This covers which prefixes are flagged, that opcodes are prefix-free, where
the fixed-operand pass writes, and the overall shape of a decoded
instruction. It also relates the SIB form to the plain ModRM form: a SIB
byte with no index (extended index 4) and a base other than 5 gives the
same address as the plain form with that base in rm, except that a 32-bit
displacement is read with `readInt32` in the SIB form and with
`readInt32LE` in the plain form. With base 5 the two forms differ. With
base 5 and mod 0 the SIB form is the number 4 followed by a `readInt32`
displacement. With mod 1 or 2 it is 4, the displacement, then register 6.
It also shows that instructions are self-delimiting: a decoded instruction
depends only on its own bytes, so appending bytes after it, or cutting the
buffer right after it, does not change it. A few concrete byte sequences
are worked out as well.

Modelling choices:

- Bytes are `bv8`. The buffer is a `seq<bv8>`.
- A failed step is an `Err`. `Truncated` means a read ran past the end of
  the buffer. `UnknownOpcode` means the table has no entry. `MissingOperand`
  means a null operand descriptor was dereferenced. `NoRegisterTable` means
  an operand kind has no register table. The last two are TypeErrors in the
  source. `RegisterFormOfMemoryOnly` and `RexXWithoutSib` are the source's
  two `assert` failures.
- An operand slot is `Option<Operand>`. `None` stands for `undefined`: an
  unwritten array slot, a register index past the end of its table, or a
  fixed operand whose variant was taken from a missing REX byte.
- The opcode tables are a parameter (`Tables`, four maps from the last
  opcode byte to a `Descriptor`). Their contents are not part of the model.
- A displacement is kept as the bytes read plus the reader that read them
  (`readInt8`, `readInt32`, `readInt32LE`). It is not turned into a number.

Where the code departs from the x86-64 encoding, the model follows the code:

- In x86-64 the REX bytes are exactly 0x40-0x4F, but `readREX` takes any
  byte with bit 6 set as a REX byte.
  So 0xC3 (`ret`) or 0x50 (`push rax`) at the start of an instruction is
  consumed as REX. A lone `C3` therefore fails as truncated instead of
  decoding as a one-byte `ret` (`X64Properties.RetScenario`).
- In x86-64, REX.B reads as 0 when there is no REX byte. But when a fixed
  operand has two `/`-separated variants and there is no REX byte, the
  source indexes the variants with `false.b`, which is `undefined`. The slot is left `undefined` rather than taking the first
  variant (`X64Spec.FixedValue`).
- In x86-64, 0x2E and 0x3E in front of a conditional branch are the
  branch hints. The source's `likely` and `unlikely` prefixes are never
  produced, because their bytes are matched earlier by the CS and DS
  segment overrides (`X64Fields.PrefixOf`).
- In x86-64, mod 0 with rm 5 is RIP-relative with a 32-bit displacement.
  The source gives plain register 5 (`[ebp]` or `[rbp]`) and reads no
  displacement, so such an instruction ends four bytes early
  (`X64Properties.PlainRmFiveReadsNoDisplacement`).
- In x86-64, SIB base 101 with mod 0 means "no base" whatever REX.B is.
  The source tests for base 5 after OR-ing in REX.B, so with REX.B it
  gives r13 and reads no displacement (`X64Properties.SibRexBaseFiveIsR13`).
- In x86-64, SIB base 101 with mod 1 or 2 is rBP plus the displacement.
  The source uses register 6 there (`X64Properties.SibBaseFiveUsesRegisterSix`).
- In x86-64, base and index registers are general address registers, 64-bit
  by default. The source looks them up in the rm operand's own table at the
  REX.W width, so `8B 03` gives `[ebx]` and an xmm operand gets `xmm3` as
  its base (`X64Properties.AddressRegistersFollowOperandKind`).
- In x86-64, REX.B extends the rm field of the register form (mod 3). The
  source names the unextended rm register there
  (`X64Properties.RegisterFormIgnoresRexB`).

## Model

| member | source | states |
|---|---|---|
| X64Fields.PrefixOf | lib/disasm/x64.js:52-89 | a byte is a prefix exactly when it is one of the eleven prefix bytes; the prefix found is listed under that byte; `likely`/`unlikely` are never produced |
| X64Fields.PrefixByteRoundTrip | lib/disasm/x64.js:52-89 | every prefix except the two shadowed hints is read back from its own byte |
| X64Fields.RexOf | lib/disasm/x64.js:91-104 | a byte is taken as REX exactly when bit 0x40 is set, and W, R, X, B are its four low bits in order |
| X64Fields.RexTestAcceptsNonRexBytes | lib/disasm/x64.js:91-94 | 0x48 and 0x41 give the expected bits; 0x50 and 0xC3 also pass the REX test; 0x0F does not |
| X64Fields.SplitModrm | lib/disasm/x64.js:132-136 | mod, reg and rm are in range and recompose the ModRM byte |
| X64Fields.SplitSib | lib/disasm/x64.js:144-147 | scale is 1, 2, 4 or 8; index and base are three-bit; the three recompose the SIB byte |
| X64Fields.Extend | lib/disasm/x64.js:138-139 | OR-ing a REX bit into bit 3 gives a four-bit register number whose low bits are the field and whose bit 3 is the REX bit |
| X64Fields.Split2 | lib/disasm/x64.js:212 | one piece, the whole value, exactly when there is no '/'; otherwise two slash-free pieces cut at the first and second '/' |
| X64Registers.RegisterTable | lib/disasm/x64.js:10-29 | a table exists exactly for general, mmx, xmm and unknown; general is the 64- or 32-bit table by width; the table sizes are 16, 8, 16, 16 and 0 |
| X64Registers.NonGeneralIgnoresWidth | lib/disasm/x64.js:124-129 | only general registers depend on REX.W |
| X64Registers.GetRegister | lib/disasm/x64.js:124-129 | succeeds exactly for a present descriptor of a kind with a table; a missing descriptor and a kind without a table are the two failures; the name is defined exactly when the index is inside the table, and is the table entry there |
| X64Registers.RegisterNameDeterminesIndex | lib/disasm/x64.js:10-29 | the register tables have no repeated names, so a resolved name leads back to its index |
| X64Registers.GeneralWidthsDisjoint | lib/disasm/x64.js:124-126 | a general register name is a 64-bit name exactly when REX.W is set, and a 32-bit name otherwise |
| X64Spec.DispAt | lib/disasm/x64.js:162-175 | a displacement read succeeds exactly when its bytes lie inside the buffer, fails as truncated otherwise, and holds exactly the buffer bytes at its position, tagged with its reader |
| X64Spec.ScanPrefixes | lib/disasm/x64.js:223-228 | the prefix loop stops inside the buffer, at or after its start |
| X64Properties.ScanPrefixesStops | lib/disasm/x64.js:223-228 | the loop consumes only prefix bytes and stops at the first byte that is not one, or at the end |
| X64Properties.ScanPrefixesFlags | lib/disasm/x64.js:223-228 | a flag is set exactly when one of the consumed bytes encodes it |
| X64Properties.PrefixScanExample | lib/disasm/x64.js:223-228 | `66 F3 2E 90` sets op-override, rep-nz and override-cs and stops at 0x90 |
| X64Spec.RexAt | lib/disasm/x64.js:91-104 | a REX byte is consumed exactly when a byte with bit 6 set is present, and its bits are those of `RexOf` |
| X64Spec.OpcodeAt | lib/disasm/x64.js:106-122 | the bytes consumed form a one-, two- or three-byte opcode whose descriptor is the table lookup for them; failure means the buffer ends before any complete opcode |
| X64Properties.OpcodePrefixFree | lib/disasm/x64.js:106-122 | no opcode byte sequence is a proper prefix of another |
| X64Properties.OpcodeAtLocal | lib/disasm/x64.js:106-122 | the opcode found depends only on the bytes consumed, wherever they sit |
| X64Spec.IndexTerm | lib/disasm/x64.js:154-157 | succeeds exactly when the index is 4 or the descriptor resolves to a register table; an extended index of 4 stays the number 4; any other index is its register name, paired with the scale when the scale is not 1 |
| X64Spec.SibAt | lib/disasm/x64.js:143-185 | succeeds exactly when the SIB byte and its displacement fit in the buffer and the descriptor resolves (not needed for index 4, base 5, mod 0); end position per mod and base; scales in {2, 4, 8}; the number 4 appears exactly for index 4 with base 5; base 5 gives the index term, then the displacement read at the next byte (`readInt32` for mod 0 and 2, `readInt8` for mod 1), then register 6 for mod 1 and 2; any other base gives its register, then the index term when there is an index, then the displacement when mod is not 0 |
| X64Spec.SibAddressAt | lib/disasm/x64.js:159-181 | the same success condition and contents for the address after the SIB byte, in terms of the given index term and the extended index and base; the displacement is the buffer bytes at the given position |
| X64Properties.SibWithoutIndexIsPlain | lib/disasm/x64.js:143-203 | a SIB byte with no index and base other than 5 gives the address of the no-SIB form, except that a 32-bit displacement uses `readInt32` instead of `readInt32LE` |
| X64Properties.SibWithoutIndexFields | lib/disasm/x64.js:146-152 | an extended index of 4 means raw index 4 with REX.X clear |
| X64Properties.SibBaseFiveUsesRegisterSix | lib/disasm/x64.js:160-166 | SIB `25 08` with mod 1 gives `[4, disp8, esi]`: register 6, not ebp |
| X64Properties.SibExtendedIndexFourIsR12 | lib/disasm/x64.js:149-157 | REX.X with raw index 4 is index 12, a real register (r12) |
| X64Properties.PlainRmFiveReadsNoDisplacement | lib/disasm/x64.js:198-199 | mod 0 with rm 5 gives plain `ebp` and consumes no displacement bytes |
| X64Properties.SibRexBaseFiveIsR13 | lib/disasm/x64.js:149-171 | SIB base 5 with REX.B and mod 0 is register 13 (r13) with no displacement |
| X64Properties.AddressRegistersFollowOperandKind | lib/disasm/x64.js:198-199 | an address register is looked up in the rm operand's own table: an xmm operand's base 3 is `xmm3` |
| X64Properties.RegisterFormIgnoresRexB | lib/disasm/x64.js:187-190 | in the register form, rm 1 under REX.W and REX.B names rcx, not r9 |
| X64Spec.PlainAt | lib/disasm/x64.js:193-203 | REX.X is refused; succeeds exactly when REX.X is clear, the descriptor resolves and the displacement fits; the base is the rm register extended by REX.B; mod 0 gives no displacement, mod 1 and 2 the buffer bytes read by `readInt8` or `readInt32LE`, with the matching end position |
| X64Spec.ModrmAt | lib/disasm/x64.js:131-142 | on success the reg slot holds the REX.R-extended reg register, only the reg and rm slots change, and one to six bytes are consumed |
| X64Spec.RmAt | lib/disasm/x64.js:142-205 | the register form is refused for memory-only operands, succeeds exactly when the descriptor resolves otherwise, and names the unextended rm register without reading more; rm 4 in a memory form puts the `SibAt` address in the rm slot and ends where it ends, any other memory form the `PlainAt` address; each succeeds exactly when that address does (and, for SIB, a descriptor is present); no other slot changes |
| X64Spec.FixedValue | lib/disasm/x64.js:208-219 | a value without '/' is used whole; with '/' the variant chosen by REX.B is one slash-free piece of the value, and without REX the slot is undefined |
| X64Spec.FillFixed | lib/disasm/x64.js:237-239 | the fixed-operand pass keeps the number of slots |
| X64Properties.FillFixedKeeps | lib/disasm/x64.js:237-239 | a slot no fixed descriptor names is left as it was |
| X64Properties.FillFixedWrites | lib/disasm/x64.js:237-239 | a fixed descriptor's slot ends with its literal unless a later fixed descriptor names the same slot |
| X64Spec.DisasmAt | lib/disasm/x64.js:222-245 | a decoded instruction consumes at least one byte and ends inside the buffer |
| X64Spec.DecodeAt | lib/disasm/x64.js:230-245 | the same bound for the part after the prefixes |
| X64Properties.DisasmShape | lib/disasm/x64.js:230-245 | an instruction carries the mnemonic and operand count of the descriptor found after the prefixes and REX, and ends at the opcode or at most six bytes after it when ModRM is used |
| X64Properties.DisasmUnknownOpcode | lib/disasm/x64.js:231-233 | a table miss fails the instruction as an unknown opcode |
| X64Properties.RetScenario | lib/disasm/x64.js:230-235 | a lone `C3` is consumed as REX and fails as truncated; `C3 C3` decodes as a two-byte `ret` |
| X64Properties.MovScenario | lib/disasm/x64.js:222-245 | `48 89 D8` decodes to `mov rax, rbx` in three bytes |
| X64Properties.DispAtAgree | lib/disasm/x64.js:162-175 | a displacement read gives the same result in any buffer with the same bytes at the positions it reads |
| X64Properties.SibAddressAtAgree | lib/disasm/x64.js:159-181 | the address after the SIB byte depends only on the bytes it consumes |
| X64Properties.SibAtAgree | lib/disasm/x64.js:143-185 | the SIB path depends only on the bytes it consumes |
| X64Properties.PlainAtAgree | lib/disasm/x64.js:193-203 | the no-SIB memory path depends only on the bytes it consumes |
| X64Properties.RmAtAgree | lib/disasm/x64.js:142-205 | the rm half of `readModrm` depends only on the bytes it consumes |
| X64Properties.ModrmAtAgree | lib/disasm/x64.js:131-205 | `readModrm` depends only on the bytes it consumes |
| X64Properties.ScanPrefixesAgree | lib/disasm/x64.js:223-228 | the prefix loop gives the same flags and stop position in any buffer with the same bytes up to and including the byte that stops it |
| X64Properties.DecodeAtAgree | lib/disasm/x64.js:230-245 | the part after the prefixes depends only on the bytes it consumes |
| X64Properties.DisasmAtAgree | lib/disasm/x64.js:222-245 | any buffer with the same bytes from the start to the end of a decoded instruction decodes the same instruction with the same end |
| X64Properties.DisasmAtOwnBytes | lib/disasm/x64.js:222-245 | appending bytes after the buffer, or cutting it right after the instruction, leaves a decoded instruction unchanged |
| X64Decoder.X64.constructor | lib/disasm/x64.js:7-9 | a new decoder starts at offset 0 over the given buffer and tables |
| X64Decoder.X64.Peek | lib/disasm/x64.js:53 | the byte at the cursor, or none at the end; the cursor does not move |
| X64Decoder.X64.Skip | lib/disasm/x64.js:87 | advances the cursor by the given count, which must stay inside the buffer |
| X64Decoder.X64.ReadUInt8 | lib/disasm/x64.js:107 | the byte at the cursor, advancing one, or truncated at the end |
| X64Decoder.X64.ReadInt8 | lib/disasm/x64.js:164 | a one-byte displacement read that advances the cursor by one, or truncated |
| X64Decoder.X64.ReadInt32 | lib/disasm/x64.js:162 | the four-byte displacement read of the SIB form, advancing the cursor by four, or truncated |
| X64Decoder.X64.ReadInt32LE | lib/disasm/x64.js:201 | the four-byte displacement read of the no-SIB form, advancing the cursor by four, or truncated |
| X64Decoder.X64.ReadPrefix | lib/disasm/x64.js:52-89 | returns the prefix at the cursor and consumes exactly its byte |
| X64Decoder.X64.ReadREX | lib/disasm/x64.js:91-104 | returns and consumes what `RexAt` describes |
| X64Decoder.X64.ReadOpcode | lib/disasm/x64.js:106-122 | returns and consumes what `OpcodeAt` describes |
| X64Decoder.X64.ReadModrm | lib/disasm/x64.js:131-142 | writes the slots and consumes the bytes `ModrmAt` describes, or fails as it does |
| X64Decoder.X64.ReadRm | lib/disasm/x64.js:142-205 | writes the rm slot and consumes the bytes `RmAt` describes, or fails as it does |
| X64Decoder.X64.ReadSib | lib/disasm/x64.js:143-157 | returns and consumes what `SibAt` describes |
| X64Decoder.X64.ReadSibAddress | lib/disasm/x64.js:159-182 | returns and consumes what `SibAddressAt` describes |
| X64Decoder.X64.ReadPlainMemory | lib/disasm/x64.js:193-203 | returns and consumes what `PlainAt` describes |
| X64Decoder.X64.ReadOperand | lib/disasm/x64.js:208-220 | a non-fixed descriptor changes nothing; a fixed one writes only its own slot, with `FixedValue` |
| X64Decoder.X64.ReadOperands | lib/disasm/x64.js:237-239 | the slots end as `FillFixed` describes |
| X64Decoder.X64.DisasmInstruction | lib/disasm/x64.js:222-228 | the prefix loop consumes what `ScanPrefixes` describes and the instruction is what `DisasmAt` returns |
| X64Decoder.X64.ReadInstruction | lib/disasm/x64.js:230-245 | returns and consumes what `DecodeAt` describes |
| X64Decoder.ScanStep | lib/disasm/x64.js:224-228 | one round of the prefix loop adds the prefix read to the flags, and a failed read ends the loop where it stands |

## Left out

- The cursor primitives (`peek`, `skip`, `readUInt8`, `readInt8`, `readInt32`, `readInt32LE`) belong to the shared `Base` class, which is not part of this model. They are modelled only by how far they move the cursor. A `peek` at the end of the buffer is taken to yield no byte, and a read past the end fails as `Truncated`.
- Displacement values: the model keeps the raw bytes and the reader name. Byte order and sign extension belong to `Base`.
- The opcode table contents (`lib/disasm/x64/table`) are not part of this model. The tables are a parameter.
- X64Spec.DisasmAt: requires that every operand index a descriptor names fits its operand list (`TablesFit`). With a bad table the source would silently grow the JavaScript array.
- Descriptor fields that are absent are treated like `null`. The source's `opcode.m === null` test would fail for an absent (`undefined`) `m`.
- The `Prefixes` flags are computed and then discarded, as in the source. `readOpcode` ignores its `prefixes` argument, and so does the model.
- Exceptions are modelled as `Err` values. The exact JavaScript exception classes and messages are not modelled.
- Output formatting of instructions and running the decoder over a whole buffer are outside this core.
