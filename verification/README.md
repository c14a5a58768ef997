# A verified model of the one-pass RISC-V assembler

The repository is a one-pass assembler. The parser's actions push instruction words into `.text` as they go. A branch to
a label that has no address yet gets a hash of the label as a placeholder and is remembered; when the input ends, a loop
rewrites the remembered words. The object is then written as an ELF file, whose header is first written empty and
finally written again over itself. A small disassembler reads such files back.

The project follows that pipeline.

| file | what it models |
|---|---|
| `Machine.dfy` | fixed-width integers as ranges of numbers, conversion to `uint32_t`, two's complement |
| `Encoding.dfy` | the six instruction formats: packing, unpacking, emitting, range checks |
| `Hash.dfy` | the FNV-1a hash and its cancellation laws |
| `Patch.dfy` | recorded instructions, the displacement expression, the patch loop on values |
| `Stream.dfy`, `ElfFormat.dfy` | the byte writer, the output stream, the three ELF records and how they are parsed |
| `Strtab.dfy`, `Sections.dfy` | string tables, text, data and symbol sections, as classes sharing their headers |
| `ElfState.dfy` | the contents of an object file as a value, what each operation does to it, the finished file in closed form |
| `Elf32.dfy` | the class `ELF32`: every method is proved against `ElfState.dfy` |
| `Assembler.dfy` | the semantic actions as steps, the parser's globals as a class, whole runs, the program |
| `Labels.dfy` | what every run keeps: labels, hashes, symbols, strings and data against the log of definitions |
| `Lookahead.dfy` | two references: an oracle that patches at once, which every run agrees with, and a two-pass assembler |
| `Agreement.dfy` | word by word, for every run: what is emitted, and exactly when it is the word of the two passes |
| `FirstWord.dfy` | the first word, which later references may reach, and with it the whole program |
| `ForwardJumps.dfy`, `Meaning.dfy` | what a forward jump does to the next word; what single emitted instructions mean |
| `Statements.dfy` | over the steps alone: exits, the open section, held strings, what each statement defines and where it is in the file |
| `Divergences.dfy` | programs that fail each condition, each proved to differ from the two passes |
| `FileLayout.dfy`, `Reader.dfy`, `RoundTrip.dfy` | where everything is in the file, the disassembler, reading back what was written |

## Main results

* **Back-patching is patching at once.** For every run whatever, the words that the final loop leaves are those of an
  oracle assembler that knows every final address in advance and makes each patch as soon as it is recorded
  (`BackPatchingIsOracle`). For every entry list at all, each word undergoes the patches that name its slot, in order
  (`PatchAllAt`).
* **Back-patching is lookahead.** A two-pass reference assembler counts words in a first pass; in a second pass each
  step gives the words it gives in the program, but a forward branch is encoded once, with the final address of its
  label. It has no hashes, placeholders or patching. (A forward jump and the first use of a symbol give no word, and a
  backward branch gives the absolute address with its registers exchanged, as in the program.) For every run whose
  forward references are branches recorded against the slots they fill (`Clean`), the one-pass program is the two-pass
  program **if and only if** every forward target's address under its hash agrees with its own address modulo 4096
  (`BackPatchingExact`), in particular whenever no two labels collide (`BackPatchingIsLookahead`).
* **Every run, whole programs.** Whatever its references, a run of at most 2^32 words emits the two-pass program **if
  and only if** every step lands (`WholeProgramExact`). Above slot 0 that is decided word by word (`WordExact`): no jump
  waits for the word, or its upper 20 bits are that jump's; and a forward branch stands in `.text`, with addresses that
  agree modulo 4096, or its placeholder happens to be the right word. At slot 0 references recorded there later are
  patches on top, however many, in closed form (`StraysDigested`, `StrayDecidesFirstWord`).
* **Single instructions, in every run.** A forward branch above slot 0 is patched exactly in `.text`
  (`BranchReceivesPatch`); where no other patch reaches it, it then compares the registers as written
  (`ForwardBranchMeaning`), while a backward branch has them exchanged (`BackwardBranchMeaning`). A forward jump is
  patched into the next word (`ForwardJumpLands`, `ForwardJumpLandsOnBranch`) or, if none follows, lost
  (`ForwardJumpLost`).
* **Write, then read.** For every file below 4 GiB the disassembler finds `.text` as the first section of that name, and
  its rows are the emitted words (`AssembleThenDisassemble`); every symbol entry, its name and its data are those of the
  run's definitions (`SymbolsReadBack`). Both ends meet in `FileHoldsTwoPassProgram`.
* **Layout.** The file is tiled by the header, five sections and the header table (`Tiling`, `HeadersLocate`), and every
  field of every header is a given number or size (`HeadersInNumbers`).
* **Statements.** Over the steps alone: a run exits exactly on an operand out of range (`ExitsOnOperands`), each label
  and each string with the directive that takes it is found in the file (`LabelInFile`, `DataInFile`), and nothing else
  is (`DefinedByStep`).
* **Reading any file.** The disassembler's refusals, its use of a stream that may fail, and the tables it then works
  with are proved for every file, in the bytes of the file (`Disassemble`, `TableInBytes`, `DefinedInBytes`,
  `NameInBytes`).
* **Labels.** A label stands for the last word there was at the first step that names it (`LabelAddress`). In every
  reachable state the label maps, the symbol table and the string table are functions of the definition log
  (`RunInvariant`); a hash has the address of the label last defined under it (`LastDefinition`).
* **Encodings** are bijections in both directions, and an immediate, a displacement or an accepted jump is decoded as
  written exactly when it passes the stated bound.
* **The hash** never identifies two labels of one length that differ in one character, and a common suffix does not
  matter; `zink` and `altarag` do collide (`CollisionExists`), and a branch to the one goes to the other
  (`CollisionHappens`).

## Conventions

A bit-field of width n is a number below 2^n, a shift is a multiplication or division by a power of two, and or-ing the
disjoint fields of a format is addition (`PackRIsOr` and the other five). `uint32_t` arithmetic is reduced modulo 2^32
with `Wrap` wherever the program computes in that type. A `std::map` is a map, a `std::vector` a sequence held in a
field, a heap-allocated section header an object of class `SectionHeader` that its section and the header table share.
An input file is an `IStream`, which fails where `std::ifstream` does. `exit` sets `Asm.exited`, after which steps do
nothing. A reduction of a labelled block is the step `LabeledBlock`, which comes after the steps of its instructions.

## Where the code and its apparent intent differ

The model does what the code does.

* The prototype of `emit_b_type_instruction` names `rs1` before `rs2` (`src/encoding.h:140`), its definition the reverse
  (`src/encoding.cc:54`): an emitted branch has its registers exchanged, and one patch exchanges them back.
* A patched displacement is twice the distance from the slot before the branch (`src/elf.cc:346`), which is the byte
  distance to the target only when the target is the next instruction (`DisplacementVersusByteDistance`).
* A branch to a label with an address encodes that address (`riscvass.y:259-261`).
* A label stands for the last instruction of its block, or for the last one before the `.globl` that named it first; the
  directive moves it exactly when those differ (`src/elf.cc:216-217`, `GloblFixesAddress`).
* An unresolved `j` pushes no word and is patched into whatever comes next, as in `tests/strlen.s`, where `j loop`
  stands inside its own block (`ForwardJumpLands`, `UnresolvedJumpOverwrites`).
* A forward branch outside `.section .text` is recorded against slot 0: it keeps its placeholder, and the first word is
  patched instead, unless the branch is itself the first word (`BranchReceivesPatch`, `StrayDecidesFirstWord`,
  `BranchOutsideTextKeepsPlaceholder`). The directive `.text` alone does not select the section (`riscvass.y:139-143`).
* A symbol used as an immediate pushes nothing the first time, and afterwards the offset -1088, whatever the symbol
  (`riscvass.y:197-212`, `SymbolPushes`, `SymbolImmediateMeaning`).
* `sub` is emitted with `funct7` 0 (`riscvass.y:174`); `ori`, `andi`, `sltiu` and `ret` differ from the standard's codes
  (`riscvass.y:331`, `riscvass.y:339`, `riscvass.y:359-361`). Results about instructions are about formats and fields.
* `ELF32_ST_BIND` is applied to a binding (`src/elf.cc:205`), so every symbol is local; a label's symbol has value 0.
* A symbol defined before any section directive, as in `tests/minimal_load_store.s`, has section index 0, `SHN_UNDEF`,
  although the instructions are in `.text` (`src/elf.cc:206-209`, `SymbolSectionReads`).
* The indices of `.strtab` and `.shstrtab` are exchanged in `section_to_idx` (`src/elf.cc:165-168`).

## Model

| member | source | states |
|---|---|---|
| Encoding.UnpackPackR | src/encoding.h:22-33 | the fields of an R-type word are read back as packed |
| Encoding.UnpackPackI | src/encoding.h:41-51 | the fields of an I-type word are read back as packed |
| Encoding.PackRIsOr | src/encoding.h:30-32 | or-ing the shifted R-type fields gives the packed word |
| Encoding.PackIIsOr | src/encoding.h:48-50 | or-ing the shifted I-type fields gives the packed word |
| Encoding.PackSIsOr | src/encoding.h:66-68 | or-ing the shifted S-type fields gives the packed word |
| Encoding.PackUIsOr | src/encoding.h:92-94 | or-ing the shifted U-type fields gives the packed word |
| Encoding.PackBIsOr | src/encoding.h:119-122 | or-ing the shifted B-type fields gives the packed word |
| Encoding.PackJIsOr | src/encoding.h:153-161 | or-ing the shifted J-type fields gives the packed word |
| Encoding.BijectionS | src/encoding.h:58-83 | S-type packing and `deserialize` are inverse in both directions, for every record and every word |
| Encoding.BijectionU | src/encoding.h:87-106 | U-type packing and `deserialize` are inverse in both directions |
| Encoding.BijectionB | src/encoding.h:109-138 | B-type packing and `deserialize` are inverse in both directions |
| Encoding.BijectionJ | src/encoding.h:145-176 | J-type packing and `deserialize` are inverse in both directions |
| Encoding.EmitBDecodes | src/encoding.cc:54-79 | an emitted branch decodes to its registers and codes and to bits 12..1 of the immediate |
| Encoding.EmitJDecodes | src/encoding.cc:82-94 | an emitted jump decodes to its register and to bits 20..1 of the immediate |
| Encoding.EmitSDecodes | src/encoding.cc:96-107 | an emitted store decodes to its fields, truncated to their widths, and to the low 12 bits of the immediate |
| Encoding.ImmediateParts | src/encoding.cc:54-94 | which bits of the immediate each of the four parts of an emitted branch and of an emitted jump holds |
| Encoding.EmitIDecodes | src/encoding.cc:16-31 | an emitted I-type word decodes to its fields, truncated to their widths |
| Encoding.EmitRDecodes | src/encoding.cc:33-52 | an emitted R-type word decodes to its fields, truncated to their widths |
| Encoding.BranchOffsetExact | src/encoding.cc:54-79 | a branch decodes to the displacement given if and only if that is even and fits 13 bits, signed |
| Encoding.JumpOffsetExact | src/encoding.cc:82-94 | a jump decodes to the displacement given if and only if that is even and fits 21 bits, signed |
| Encoding.ReemitBranchAndJump | src/encoding.cc:54-94 | emitting what was decoded from any word, as B or as J, gives the word back |
| Encoding.EmitBEqual | src/encoding.cc:54-79 | two branches of one opcode are the same word if and only if registers, function codes and bits 12..1 of the immediates agree |
| Encoding.IsEmittedBranch | src/encoding.cc:54-79 | a word is the branch emitted for given operands if and only if it decodes to them |
| Encoding.IsEmittedJump | src/encoding.cc:82-94 | a word is the jump emitted for given operands if and only if it decodes to them |
| Encoding.LiteralCheckIsExact | riscvass.y:189-195 | a literal passes the 12-bit check if and only if the emitted instruction means the literal |
| Encoding.LoadStoreAgree | riscvass.y:229-238 | load and store with the same operands address the same base and offset, which is the written one if and only if it fits 12 bits |
| Hash.Hasher | src/elf.h:32-43 | the loop computes the fold of the FNV-1a round |
| Hash.StepInjective | src/elf.h:38-39 | a round is injective in the state |
| Hash.StepInjectiveInByte | src/elf.h:38-39 | a round is injective in the byte |
| Hash.SuffixCancels | src/elf.h:32-43 | strings with a common suffix collide if and only if their prefixes do |
| Hash.OneCharacterApart | src/elf.h:32-43 | labels of one length that differ in exactly one character never collide |
| Hash.CollisionExists | src/elf.h:32-43 | `zink` and `altarag`, with any common ending, have one hash |
| Patch.DisplacementIsTwiceTheDifference | src/elf.cc:346 | the mixed-width expression is twice the difference modulo 2^32, and exactly that as `int32_t` if and only if the difference is in [-2^30, 2^30) |
| Patch.DisplacementFromSlot | riscvass.y:253-256 | with pc the slot minus one, also for slot 0, the displacement is 2 * (target - (slot - 1)) modulo 2^32 |
| Patch.DisplacementsAgree | src/elf.cc:345-353 | two targets give the same low 13 bits if and only if they agree modulo 4096 |
| Patch.PatchedBranch | src/elf.cc:341-357 | a patched branch keeps its codes, exchanges its registers, and decodes to twice the distance if and only if that fits |
| Patch.PatchedJump | src/elf.cc:369-374 | a patched jump keeps its register and decodes to twice the distance if and only if that fits |
| Patch.PatchedUpper | src/elf.cc:358-366 | a patched upper immediate keeps its register and takes the low 20 bits, unshifted |
| Patch.PatchedByJump | src/elf.cc:369-374 | a jump patch of any word keeps its low 12 bits and puts bits 20..1 of the displacement above them |
| Patch.PatchedByJumpIs | src/elf.cc:369-374 | a jump patch gives a word if and only if that word has those low bits and that displacement; so a word survives if and only if it held the displacement |
| Patch.PatchedByJumps | src/elf.cc:369-374 | of several jump patches the last decides |
| Patch.PatchForgetsPlaceholder | src/elf.cc:341-355 | no bit of the placeholder survives: the patched word is the one emitted with the displacement and the other register order |
| Patch.PatchTwice | src/elf.cc:341-355 | a second patch restores the emitted register order |
| Patch.BranchMeaning | riscvass.y:259-263 | for every register file, a `beq` as emitted and as patched is taken exactly when its two written registers are equal |
| Patch.DisplacementVersusByteDistance | src/elf.cc:344-346 | from every slot, the patched displacement is the byte distance to the target if and only if the target is the next slot |
| Patch.PatchKeepsOpcode | src/elf.cc:340-375 | no patch of any type changes the low seven bits |
| Patch.PatchAllAt | src/elf.cc:328-376 | for every entry list, a slot undergoes exactly the patches that name it, in order |
| Patch.PatchAllFrame | src/elf.cc:328-376 | for every entry list, length, unnamed slots and all opcodes are kept |
| Patch.PatchAllThenPush | src/elf.cc:328-376 | for every entry list, a word pushed later undergoes the patches that name its slot, and the words before it are patched as without it |
| Patch.TouchAllKnown | src/elf.cc:343 | if every patchable entry's hash has an address, the lookups insert nothing |
| Patch.TouchAllAdds | src/elf.cc:343 | the address map ends up with the hashes it had and those looked up, and no others |
| Stream.LittleAt | src/utils.h:59-62 | byte i of the little-endian form is `(value >> 8 i) & 0xFF` |
| Stream.ValueOfLittle | src/utils.h:57-63 | the little-endian bytes of a value that fits denote the value |
| Stream.LittleOfValue | src/utils.h:57-63 | every byte string is the little-endian form of the number it denotes |
| Stream.WriteInt | src/utils.h:48-74 | the loop writes the little-endian bytes, or their exact reverse, at the stream position |
| Stream.DecodeField | src/elf.cc:13-54 | a field of a packed record is read back at its offset, whatever surrounds the record |
| ElfFormat.EhdrIntegers | src/elf.cc:13-30 | each integer of a written file header stands at its byte offset, 16 to 50 |
| ElfFormat.ShdrIntegers | src/elf.cc:32-44 | each field of a written section header stands at its byte offset, 0 to 36 |
| ElfFormat.SymIntegers | src/elf.cc:46-54 | each field of a written symbol stands at its byte offset, 0 to 14 |
| ElfFormat.ParseEhdrBytes | src/elf.cc:13-30 | a file header takes 52 bytes and is determined by them |
| ElfFormat.ParseShdrBytes | src/elf.cc:32-44 | a section header takes 40 bytes and is determined by them |
| ElfFormat.ParseSymBytes | src/elf.cc:46-54 | a symbol takes 16 bytes and is determined by them |
| ElfFormat.SerializeEhdr | src/elf.cc:13-30 | writes exactly those 52 bytes at the stream position |
| ElfFormat.SerializeShdr | src/elf.cc:32-44 | writes exactly those 40 bytes, in the given byte order |
| ElfFormat.SerializeSym | src/elf.cc:46-54 | writes exactly those 16 bytes, in the given byte order |
| Strtab.AddAppends | src/strtab.cc:19-40 | adding to the table of a list of names gives the table of the longer list, and the offset of the new name |
| Strtab.OffsetStable | src/strtab.cc:26-33 | offsets handed out earlier stay those of their names |
| Strtab.NameAt | src/strtab.cc:41-44 | reading at the offset of name k gives name k, however many names follow |
| Strtab.CStrIs | src/strtab.cc:41-44 | what C reads from bytes is the part before the first NUL, or all of them |
| Strtab.StringTable.constructor | src/strtab.cc:3-13 | an empty table is a single NUL |
| Strtab.StringTable.AddString | src/strtab.cc:19-40 | inserts the string up to its NUL, returns its offset and updates the size in the shared header |
| Strtab.StringTable.GetString | src/strtab.cc:41-44 | the C string at an offset, or the exception for one out of range |
| Strtab.StringTable.Serialize | src/strtab.cc:54-67 | appends the table at the end of the stream and records where |
| Sections.Text.LastIndex | src/section.h:24-30 | the index of the last word, 0 when there is none |
| Sections.Text.Push | src/text.cc:8-14 | appends a word and updates the size |
| Sections.Text.GetEntry | src/section.h:39-45 | reads an entry in range, and leaves the variable alone otherwise |
| Sections.Text.UpdateEntry | src/section.h:48-54 | overwrites an entry in range, and changes nothing otherwise |
| Sections.Text.Serialize | src/text.cc:21-27 | appends the words in order, four bytes each |
| Sections.Data.PushString | src/data.cc:20-28 | appends the bytes and returns where they start |
| Sections.Data.PushWord | src/data.cc:5-18 | appends a word, most significant byte first |
| Sections.Data.Serialize | src/data.cc:46-51 | appends the bytes |
| Sections.Symtab.Push | src/symtab.cc:5-8 | appends an entry and updates the size |
| Sections.Symtab.Serialize | src/symtab.cc:14-24 | appends the entries in order and records where the table starts |
| ElfState.SectionNameOffsets | src/elf.cc:142-169 | the section names are stored at 1, 11, 19, 27 and 33 of a 40-byte table |
| ElfState.SectionNameBytes | src/elf.cc:142-169 | the table of section names, byte by byte |
| Elf32.ELF32.constructor | src/elf.cc:56-64 | the initial object: six headers shared with their sections, the null symbol, the section names |
| Elf32.InitShstrtab | src/elf.cc:142-169 | the section name table with all five names, and its header |
| Elf32.InitStrtab | src/elf.cc:142-169 | the string table and its header |
| Elf32.InitSymtab | src/elf.cc:70-97 | the symbol table with the null symbol, and its header |
| Elf32.InitTextSection | src/elf.cc:99-115 | the empty text section and its header |
| Elf32.InitDataSection | src/elf.cc:124-140 | the empty data section and its header |
| Elf32.StoreSectionName | src/elf.cc:171-175 | stores a section name after the names before it, at that name's offset |
| Elf32.ELF32.StoreRegularString | src/elf.cc:177-182 | stores a string and returns its offset |
| Elf32.ELF32.InitLabel | src/elf.cc:195-222 | the whole new state: nothing for a known label, otherwise string, symbol, address, hash entry, no longer unresolved |
| Elf32.ELF32.RecordAddress | src/elf.cc:211-217 | moves a label from unresolved to resolved and keys its address by its hash |
| Elf32.ELF32.UpdateLabelVisibility | src/elf.cc:224-234 | defines an unknown label in `.text`, and does nothing to a known one |
| Elf32.ELF32.ResolveLabel | src/elf.cc:287-301 | the address of a known label; the hash of an unknown one, which becomes unresolved |
| Elf32.ELF32.GetNextInsnNumber | src/elf.cc:379-386 | the next slot of `.text`, 0 for any other section |
| Elf32.ELF32.AddToUnresolvedInsns | src/elf.cc:303-314 | appends an entry |
| Elf32.ELF32.AddToText | src/elf.cc:389-391 | appends a word |
| Elf32.ELF32.AddSymbol | src/elf.cc:240-251 | enters a symbol with its offset index |
| Elf32.ELF32.ResolveSymbol | src/elf.cc:273-286 | whether a symbol exists, and its offset index |
| Elf32.ELF32.AddProgramData | src/elf.cc:393-403 | stores a value and its symbol; an unknown section enters the index map with 0 |
| Elf32.ELF32.LookUpAddress | src/elf.cc:343 | a missing hash reads as 0 and is inserted |
| Elf32.ELF32.ResolveInstruction | src/elf.cc:328-376 | one round of the loop is one patch, for every entry type and slot |
| Elf32.ELF32.ResolveUnresolvedInstructions | src/elf.cc:316-377 | the loop patches every recorded word and changes nothing but words and the address map |
| Elf32.ELF32.SerializeSections | src/elf.cc:441-447 | appends text and data and records their positions |
| Elf32.ELF32.SerializeTables | src/elf.cc:449-456 | appends both string tables and the symbols and records their positions |
| Elf32.ELF32.SerializeHeaders | src/elf.cc:467-480 | appends the six headers and finds the section name table among them by identity |
| Elf32.ELF32.Serialize | src/elf.cc:434-485 | the stream holds the file in closed form; the rewritten header replaced the first one only |
| Assembler.PlainWordMeaning | riscvass.y:168-195 | each label-free instruction carries its operands where its format puts them; `mv` has opcode 0x13, `ret` 0x67 and immediate 1 |
| Assembler.LoadStoreMeaning | riscvass.y:224-243 | with opcode 0x03 it is an I-type word that loads the register, with any other, 0x23 for the stores, an S-type word that stores it, every field given; the displacement is exact if and only if it is in [-2048, 2047] |
| Assembler.Parser.EmitBranch | riscvass.y:244-264 | the action of a branch: look up, record when unknown, push |
| Assembler.Parser.EmitJump | riscvass.y:291-318 | the action of a jump: record when unknown, otherwise check and push |
| Assembler.Parser.EmitSymbolImmediate | riscvass.y:197-212 | enters a symbol used for the first time; pushes a word for a known one |
| Assembler.Parser.EmitPlain | riscvass.y:186-196 | checks an immediate, then pushes the word |
| Assembler.Parser.DoInstruction | riscvass.y:168-325 | every instruction action has the effect of its step |
| Assembler.Parser.DoDirective | riscvass.y:109-161 | every statement and directive action has the effect of its step |
| Assembler.ExitsExactly | riscvass.y:190-192 | the run ends without a file if and only if some step is out of range in the state before it |
| Assembler.AssembleFile | riscvass.y:97-103 | the file of a run is the closed form of its patched state; none when the run exits |
| Labels.RunInvariant | src/elf.cc:195-222 | in every reachable state strings, symbols, data (the values stored, in order), labels and hash addresses are those of the definition log, resolved and unresolved labels are disjoint, and every recorded hash is that of a label seen |
| Labels.LastDefinition | src/elf.cc:216-217 | a hash has an address if and only if a label under it is defined, and then that of the last such label |
| Labels.ResolvedIffDefined | src/elf.cc:216 | a label is resolved if and only if the log defines it |
| Labels.LabelsNeverMove | src/elf.cc:195-198 | an address, once given, is the same in every later state |
| Labels.AddressesOrdered | src/elf.cc:216 | addresses do not decrease in definition order and name existing slots |
| Labels.PatchComplete | src/elf.cc:316-377 | with no label left unresolved every lookup succeeds and the address map is unchanged |
| Lookahead.AddressesAgree | riscvass.y:110-114 | text size, label addresses, current section and known symbols of a run are those of a pass that only counts |
| Lookahead.LabelAddress | src/elf.cc:195-217 | in every run a label's address is the last index at the first step that names it |
| Lookahead.RunPatched | src/elf.cc:316-377 | for every run and every address map, the patches made at the end give the words of patching at once, and a waiting jump is the patch that a next word would meet |
| Lookahead.BackPatchingIsOracle | src/elf.cc:316-377 | every run emits what the oracle with the final address map emits |
| Lookahead.CleanOracle | riscvass.y:244-264 | when every reference is a branch recorded in its place, the oracle is the second pass |
| Lookahead.BackPatchingByHash | src/elf.cc:316-377 | collisions included, a clean run emits the second pass with the addresses found under hashes |
| Lookahead.TwoPassesAgree | riscvass.y:259-263 | two labelings give the same program if and only if they agree modulo 4096 on forward targets |
| Lookahead.BackPatchingExact | src/elf.cc:316-377 | a clean run emits the two-pass program if and only if each forward target's hash address agrees with its own modulo 4096 |
| Lookahead.BackPatchingIsLookahead | src/elf.cc:316-377 | without collisions a clean run emits the two-pass program |
| Lookahead.HashMapIsNameMap | src/elf.cc:216-217 | a label that shares its hash with no other defined label is found under it |
| Agreement.UntouchedAboveZero | src/elf.cc:379-386 | up to 2^32 words, no later reference is recorded against a filled slot above 0 |
| Agreement.NoJumpWaits | riscvass.y:291-304 | where all jumps are to known labels none waits |
| Agreement.WordSettles | src/elf.cc:316-377 | the word at a slot that is not reached again is the one its step left |
| Agreement.LandsExactly | riscvass.y:244-264 | for any two labelings, the word a step leaves is the one of the two passes if and only if the step lands |
| Agreement.WordExact | src/elf.cc:316-377 | for every run, a word that is not reached again is the two-pass word if and only if its step lands |
| Agreement.AgreementExact | src/elf.cc:316-377 | for every run, the program from a slot on is the two-pass program if and only if every step lands |
| Agreement.AgreementAboveZero | src/elf.cc:316-377 | the same for all words but the first of any run of at most 2^32 words |
| FirstWord.FirstWordSettles | src/elf.cc:316-377 | in every run the first word is what its step left, patched by every reference that was recorded against the filled slot 0, in order |
| FirstWord.StraysDigested | src/elf.cc:341-375 | any number of such patches in closed form: the last one decides the immediate, registers and function code are exchanged or not by parity |
| FirstWord.StrayDecidesFirstWord | src/elf.cc:379-386 | in every run, the first word is a given word if and only if that word has the fields that the closed form leaves |
| FirstWord.FirstWordExact | src/elf.cc:379-386 | in every run, the first word is that of the two passes if and only if its step lands, those patches included |
| FirstWord.WholeProgramExact | src/elf.cc:316-377 | for every run of at most 2^32 words, whatever its references, the program is the two-pass program if and only if every step lands |
| ForwardJumps.JumpWaits | riscvass.y:297-304 | a forward jump waits until a word is pushed or another jump takes the slot |
| ForwardJumps.ForwardJumpLands | riscvass.y:297-304 | in every run, the word pushed next, unless it is a forward branch recorded in its place, keeps its low 12 bits and takes the jump displacement above them; it is unchanged if and only if it held that already |
| ForwardJumps.ForwardJumpLandsOnBranch | riscvass.y:297-304 | in every run, such a branch is patched again: its immediate is its own, its registers and function code are bits of the jump displacement |
| ForwardJumps.ForwardJumpLost | riscvass.y:297-304 | in every run, a forward jump after which no word is pushed changes nothing in the file |
| Meaning.BranchReceivesPatch | src/elf.cc:379-386 | above slot 0 a forward branch is patched in `.text` and keeps its placeholder elsewhere, after a jump that waits for it; exactly when it reads as patched |
| Meaning.ForwardBranchMeaning | riscvass.y:251-257 | in every run, a forward branch recorded in its place and not reached by other patches compares the registers as written, decodes to 2 * (address - (slot - 1)) if and only if that fits, and to the byte distance if and only if the label is at the next slot |
| Meaning.BackwardBranchMeaning | riscvass.y:259-263 | in every run, a branch to a known label, not reached by patches, has its registers exchanged and decodes to the label's address if and only if that is even and below 4096 |
| Meaning.AloneAboveZero | src/elf.cc:379-386 | when the word of a step is not reached by patches: above slot 0, with no forward jump before it |
| Meaning.PlainInstructionMeaning | riscvass.y:168-195 | in every run, an instruction that names no label, not reached by patches, is emitted as its format says |
| Meaning.SymbolsUsed | riscvass.y:199-204 | the known symbols are those used before, all unresolved |
| Meaning.SymbolPushes | riscvass.y:199-212 | a symbol immediate pushes a word if and only if the symbol was used before |
| Meaning.SymbolImmediateMeaning | riscvass.y:204-210 | in every run that word, not reached by patches, decodes to -1088 |
| Meaning.AcceptedJumpMeaning | riscvass.y:305-317 | when a jump to a known label is accepted, and that below 2^20 it then decodes to twice the address |
| Meaning.ResolvedJumpMeaning | riscvass.y:305-317 | in every run, a jump to a known label, not reached by patches, has opcode 0x6F, register 0, and offset twice the address modulo 2^21 |
| Divergences.CollisionMisdirects | src/elf.cc:217 | for any two colliding labels, a program with all labels defined whose branch goes to the wrong one, so that it differs from the two passes |
| Divergences.CollisionHappens | src/elf.cc:217 | such labels exist: `zink` and `altarag`, with any common ending |
| Divergences.UnresolvedJumpOverwrites | riscvass.y:297-304 | in a block of an unresolved jump and one more instruction, whatever the labels, the jump changes that instruction, so that the program differs from the two passes |
| Divergences.BranchOutsideTextKeepsPlaceholder | src/elf.cc:379-386 | a forward branch outside `.text` keeps its placeholder although its label is defined, and the program differs from the two passes, for all labels and registers |
| Divergences.GloblFixesAddress | src/elf.cc:224-234 | in every program, a `.globl` before a block fixes the label at the last word there is, and moves it if and only if that index differs from the block's |
| FileLayout.ContentSizes | src/elf.cc:434-485 | header, words, symbols and header table take 52, 4, 16 and 240 bytes |
| FileLayout.Tiling | src/elf.cc:434-485 | the parts are contiguous and disjoint, each range holds exactly its contents, and the header table ends the file |
| FileLayout.HeadersLocate | src/elf.cc:441-459 | below 4 GiB every header gives its section's position and size, and the file header the table's |
| FileLayout.FileInNumbers | src/elf.cc:434-485 | words from byte 52 on, data, strings, 40 bytes of section names, symbols, 240 bytes of headers, and nothing else |
| Reader.TableInBytes | tools/dis.cc:81-83 | when the header table is delivered and when it fits, in the integers at bytes 32, 46 and 48, and every byte of it |
| Reader.HeaderInBytes | tools/dis.cc:81-83 | header i of the table is its bytes from 40 i on: name, address, offset and size |
| Reader.DefinedInBytes | tools/dis.cc:81-94 | when both tables are delivered, and when the tool stays within its own memory |
| Reader.NameInBytes | tools/dis.cc:94 | the name of a section is the bytes of the name table from its offset to the first NUL or the end |
| Reader.FindText | tools/dis.cc:91-99 | the first section named `.text`, or that there is none |
| Reader.PrintRows | tools/dis.cc:115-123 | the bytes in rows of four, the last one possibly shorter |
| Reader.RowsMakeUp | tools/dis.cc:115-123 | such rows put together are the bytes, and only the last one may be shorter than four |
| Reader.Load | tools/dis.cc:107-109 | seek and read on a stream that stays failed: what is delivered, the rest of the buffer zero |
| Reader.PrintSectionHeaders | tools/dis.cc:35-49 | the stream is left failed if and only if a table is not delivered |
| Reader.PrintTextSection | tools/dis.cc:79-125 | on the same stream, failed or not: no `.text`, or the rows of the first one |
| Reader.Disassemble | tools/dis.cc:128-160 | which outcome for which file: the three refusals in its first bytes, then both tables of any size and place, stream failure included, and what is shown |
| Reader.FirstTextUnique | tools/dis.cc:91-99 | the first section of that name is unique |
| RoundTrip.HeaderReads | tools/dis.cc:140-155 | the written header is accepted and read back |
| RoundTrip.TableReads | tools/dis.cc:79-83 | each written section header is read back from the table |
| RoundTrip.SectionReads | tools/dis.cc:106-109 | the range in a header holds its section's bytes |
| RoundTrip.NamesReadable | tools/dis.cc:85-89 | the table named by `e_shstrndx` is the table of section names |
| RoundTrip.NameReads | tools/dis.cc:93-95 | every section is read back under its own name |
| RoundTrip.HeadersInNumbers | src/elf.cc:70-140 | below 4 GiB, every field of the file header and of all six section headers as the reader finds them, in numbers |
| RoundTrip.NamesInBytes | src/elf.cc:142-169 | the names of the six sections as the reader finds them, byte by byte |
| RoundTrip.TextFound | tools/dis.cc:91-99 | the scan finds `.text` at index 4 and nowhere before |
| RoundTrip.FileDefined | tools/dis.cc:79-89 | on an emitted file the tool stays within its own memory |
| RoundTrip.TextReadsBack | tools/dis.cc:106-123 | the rows of the text section are its words, little-endian, in order |
| RoundTrip.AssembleThenDisassemble | tools/dis.cc:79-125 | assembling and then disassembling shows exactly the words of the run |
| RoundTrip.SymbolReads | src/symtab.cc:14-24 | entry k under the symbol table's header is symbol k |
| RoundTrip.LinkReads | src/elf.cc:84 | the symbol table links to the string table of its names; that table and `.data` are where their headers say |
| RoundTrip.SymbolsReadBack | src/elf.cc:393-403 | in the file, symbol k + 1 is the entry of the k-th definition, local, untyped and of size 0, with its name, value 0 for a label, and for data the position of its bytes; `.data` is the values in order |
| RoundTrip.NullSymbolReads | src/elf.cc:91-93 | symbol 0 is the null symbol |
| RoundTrip.KnownIndices | src/elf.cc:165-168 | the section index of a symbol for each section name, 0 for any other |
| RoundTrip.SymbolSectionReads | src/elf.cc:206-209 | the section index of a symbol leads, by name, to the section it was defined in; without a section directive it is 0 |
| Statements.ExitsOnOperands | riscvass.y:190-192 | a run exits if and only if some immediate is not in [-2048, 2047] or some jump is to a known label whose double modulo 2^21 is 2^20 or more |
| Statements.SectionSelected | riscvass.y:128-160 | the current section is that of the last section directive, or .data after a string; `.text` alone and all other steps select nothing |
| Statements.NoSectionSelected | riscvass.y:128-160 | before the first such directive the section has no name |
| Statements.ValueHeld | riscvass.y:153-160 | a string is held until a labelled directive takes it or another string replaces it |
| Statements.DataDefined | riscvass.y:115-124 | a labelled directive defines exactly the last string not yet taken, under its own name, after the data so far |
| Statements.NoDataDefined | riscvass.y:115-124 | without a string before it a labelled directive defines nothing |
| Statements.LabelDefined | src/elf.cc:195-234 | the first block or `.globl` that names a label defines it, in the current section or in `.text`, at the last word there is; a later one defines nothing |
| Statements.OthersDefineNothing | riscvass.y:109-161 | no other step defines a symbol |
| Statements.KnownIffNamed | src/elf.cc:236-238 | a label has an address if and only if a block or `.globl` has named it |
| Statements.WordsPushed | riscvass.y:168-335 | how many words each step pushes, by its kind and the steps before it |
| Statements.UnresolvedIffUsed | src/elf.cc:287-301 | a label is left unresolved if and only if it is used and never named, and stands for its hash |
| Statements.DefinedInOrder | src/elf.cc:393-403 | what a step defines stands after what the steps before it define |
| Statements.DefinedByStep | src/elf.cc:393-403 | every definition is that of some step |
| Statements.DataInFile | riscvass.y:115-124 | below 4 GiB, a string and the directive that takes it are found in the file: the symbol by name, and the bytes of the string at its value |
| Statements.LabelInFile | src/elf.cc:195-222 | below 4 GiB, a label is found in the file, with its name, value 0 and the index of its section |
| Statements.FoundAddress | src/elf.cc:343 | a reference is patched with the address of the last label defined under its hash |
| Statements.NothingFound | src/elf.cc:343 | a reference for whose hash no label is defined is patched with address 0 |
| Statements.DisplacementFound | src/elf.cc:341-347 | the displacement of a reference is twice the distance from the slot before the next word to the address found, modulo 2^32 |
| Statements.RecordedWhere | src/elf.cc:379-386 | a reference is recorded if and only if no step before it names its label, in `.text` against the next word, elsewhere against word 0 |
| RoundTrip.FileHoldsTwoPassProgram | riscvass.y:97-103 | for clean runs without collisions, what the reader finds in the file is the two-pass program |

## Left out

- The flex lexer and the bison tables: steps are reductions, in any order; the grammar allows fewer.
- The section, table index and flags stored with a symbol used as an immediate, `get_section_idx` and `symbol_resolved`: nothing reads them.
- `la`, `%hi`, and other actions that only print: they change no state that is modelled.
- Console output, file opening, `write_elf`, `generate_dest_filename`: input and output only.
- Mnemonic-level meaning of `sub`, `ori`, `andi`, `sltiu` and `ret`, whose codes differ from the standard: words are specified by format and field.
- The virtual dispatch of `serialize` over `sections`: the two sections are serialized one after the other. The constructor stores the section names before it creates the other sections; the resulting object is the same.
- The raw pointers' ownership, and `operator new` failing: headers are shared objects that are never freed.
- Reader.Disassemble: files on which the tool writes or reads memory it does not own, or overflows an `int` (a header table that does not fit, a name-table index out of range, a name without an end) have the outcome `Undefined`.
- The unused base-class members `Section::push` and `Section::insert`, `Data::get_entry`, 64-bit ELF types, program headers: nothing calls them.
