# ARMv7 code builder and C-name support, modelled in Dafny

This project models two small pieces of the PyPy translation toolchain and
proves what they promise.

- **The ARMv7 code builder** (`pypy/jit/backend/arm/codebuilder.py`) emits
  machine code into a 1024-byte block. Each encoder (`LDR_ri`, `STR_ri`,
  `ADD_ri`, `SUB_ri`, `MOV_rr`, `MOV_ri`, `ASR_ri`, `ORR_rr`, `PUSH`) ORs
  masked operand fields into a 32-bit word. `write32` then stores the word as
  four little-endian bytes through `writechar`, which advances the cursor.
  - `ArmEncoding.dfy` holds the words as pure functions of the operands,
    plus decoders that follow the field tables of the ARM Architecture
    Reference Manual ARMv7-A/R: sections A5.2 and A5.3 for the
    data-processing and load/store words, and PUSH encoding A1 (a
    store-multiple to SP with writeback, from section A5.5 "Branch, branch
    with link, and block data transfer") for PUSH.
  - `ArmBuilder.dfy` holds the builder as a class: an `array<bv8>` block and
    a cursor that the methods update in place.
- **Name generation for source generators** (`pypy/translator/gensupp.py`):
  - the `C_IDENTIFIER` translation table and `c_string` (`CNames.dfy`);
  - `UniqueList.append1` (`UniqueLists.dfy`);
  - `uniquemodulename` with its persistent `SEEN` table (`ModuleNames.dfy`);
  - `NameManager`, which hands out global names, and `_LocalScope`, which
    hands out local names per nesting depth (`NameManagers.dfy`).

  Each state-changing operation is a method of a class. Its `ensures` ties
  the new state to a pure function of the old state, and the lemmas about
  that function carry the properties.
- `Text.dfy` models the Python 2 string operations these rely on:
  `'%d' % n`, `isdigit`, `split()` and `rfind`.
- `Option.dfy` provides the `Option` datatype and `Sets.dfy` a cardinality
  fact.

Where a Python call raises, the model returns an error value instead:
- `NameError` from `make_reserved_names` becomes `ok == false`;
- `IndexError` from `_LocalScope.uniquename` becomes `None`.

The code masks an immediate that does not fit its field (`imm & 0xFFF`),
and the model follows the code.

## Model

| member | source | states |
|---|---|---|
| ArmEncoding.Mask | pypy/jit/backend/arm/codebuilder.py:25-31 | `x & mask` for a Python integer keeps no bit outside the mask, even for negative `x` |
| ArmEncoding.MaskBit | pypy/jit/backend/arm/codebuilder.py:25-27 | a 0/1 flag passes `& 0x1` unchanged |
| ArmEncoding.MaskShiftType | pypy/jit/backend/arm/codebuilder.py:99 | a shift type below 4 passes `& 0x3` unchanged |
| ArmEncoding.MaskRegister | pypy/jit/backend/arm/codebuilder.py:29-30 | a register below 16 passes `& 0xF` unchanged, and also the `& 0xFF` of MOV_rr and ORR_rr (codebuilder.py lines 55-56 and 96-100) |
| ArmEncoding.MaskImm5 | pypy/jit/backend/arm/codebuilder.py:87 | a shift amount below 32 passes `& 0x1F` unchanged |
| ArmEncoding.MaskImm12 | pypy/jit/backend/arm/codebuilder.py:31 | an offset below 4096 passes `& 0xFFF` unchanged |
| ArmEncoding.EncodeImm | pypy/jit/backend/arm/codebuilder.py:11-16 | the magnitude is non-negative, U is 1 exactly when the offset is non-negative, and (U, magnitude) gives the offset back |
| ArmEncoding.CondBits | pypy/jit/backend/arm/codebuilder.py:23 | `cond << 28` holds `cond` in bits 31..28 and nothing in bits 27..0 |
| ArmEncoding.LdrWord | pypy/jit/backend/arm/codebuilder.py:18-31 | the LDR_ri word carries `cond` in bits 31..28; `LdrFields` gives its other fields |
| ArmEncoding.StrWord | pypy/jit/backend/arm/codebuilder.py:68-80 | the STR_ri word carries `cond` in bits 31..28; `StrIsLdrWithoutLoadBit` relates it to LDR |
| ArmEncoding.AddWord | pypy/jit/backend/arm/codebuilder.py:33-40 | the ADD_ri word carries `cond` in bits 31..28; `AddFields` gives its other fields |
| ArmEncoding.SubWord | pypy/jit/backend/arm/codebuilder.py:42-48 | the SUB_ri word carries `cond` in bits 31..28; `SubFields` gives its other fields |
| ArmEncoding.MovRrWord | pypy/jit/backend/arm/codebuilder.py:51-56 | the MOV_rr word carries `cond` in bits 31..28; `MovRrFields` gives its other fields |
| ArmEncoding.MovRiWord | pypy/jit/backend/arm/codebuilder.py:58-66 | the MOV_ri word carries `cond` in bits 31..28; `MovRiFields` gives its other fields |
| ArmEncoding.AsrWord | pypy/jit/backend/arm/codebuilder.py:82-89 | the ASR_ri word carries `cond` in bits 31..28; `AsrFields` gives its other fields |
| ArmEncoding.OrrWord | pypy/jit/backend/arm/codebuilder.py:92-100 | the ORR_rr word carries `cond` in bits 31..28; `OrrRoundTrip` gives its other fields |
| ArmEncoding.PushTemplate | pypy/jit/backend/arm/codebuilder.py:103 | PUSH's starting word holds `cond` in bits 31..28, 0x92D in bits 27..16 and an empty register list |
| ArmEncoding.RegBit | pypy/jit/backend/arm/codebuilder.py:105 | `0x1 << reg`, as far as the 32-bit word reaches, has bit `reg` as its highest set bit for a register below 32, and is 0 otherwise |
| ArmEncoding.RegisterMask | pypy/jit/backend/arm/codebuilder.py:104-105 | the mask the loop builds contains the bit of every listed register |
| ArmEncoding.PushWord | pypy/jit/backend/arm/codebuilder.py:102-105 | bits 15..0 of the PUSH word are bits 15..0 of the OR of `0x1 << reg` over the list, whatever the registers |
| ArmEncoding.ConditionField | pypy/jit/backend/arm/codebuilder.py:18-100 | every encoder except PUSH puts `cond` in bits 31..28, for any operands |
| ArmEncoding.PushCondition | pypy/jit/backend/arm/codebuilder.py:102-105 | PUSH puts `cond` in bits 31..28 when every listed register is below 28 |
| ArmEncoding.PushHighRegisterSetsCondition | pypy/jit/backend/arm/codebuilder.py:105 | PUSH does not mask its registers, so register 28 under AL gives condition 0xF |
| ArmEncoding.LdrFields | pypy/jit/backend/arm/codebuilder.py:18-31 | for any operands, the LDR word decodes to the load/store fields P=1, W=0, L=1, with U from the splitter and the masked rn, rt and magnitude |
| ArmEncoding.LdrRoundTrip | pypy/jit/backend/arm/codebuilder.py:18-31 | for registers below 16 and offsets of magnitude below 4096, decoding the LDR word gives back the registers and the offset's sign and size |
| ArmEncoding.StrIsLdrWithoutLoadBit | pypy/jit/backend/arm/codebuilder.py:68-80 | the STR word is the LDR word for the same operands with the L bit (bit 20) cleared, and setting it gives the LDR word back |
| ArmEncoding.StrRoundTrip | pypy/jit/backend/arm/codebuilder.py:68-80 | for registers below 16 and offsets of magnitude below 4096, decoding the STR word gives back the registers and the offset's sign and size, with L=0 |
| ArmEncoding.AddFields | pypy/jit/backend/arm/codebuilder.py:33-40 | ADD_ri decodes as opcode ADD with I=1, S=0, the masked registers, and `imm & 0xFFF` raw with no sign split |
| ArmEncoding.SubFields | pypy/jit/backend/arm/codebuilder.py:42-48 | SUB_ri decodes as opcode SUB with I=1, `s & 1` in bit 20, and `imm & 0xFFF` raw |
| ArmEncoding.MovRiFields | pypy/jit/backend/arm/codebuilder.py:58-66 | MOV_ri decodes as opcode MOV with I=1 and S=0, bits 19..16 zero, and `imm & 0xFFF` raw |
| ArmEncoding.MovRrRoundTrip | pypy/jit/backend/arm/codebuilder.py:51-56 | for registers below 16, MOV_rr decodes as a register-form MOV with no shift and gives back rd and rm |
| ArmEncoding.MovRrFields | pypy/jit/backend/arm/codebuilder.py:51-56 | for any registers, the high nibble of `rd & 0xFF` lands in bits 19..16 and that of `rm & 0xFF` in bits 7..4 |
| ArmEncoding.AsrFields | pypy/jit/backend/arm/codebuilder.py:82-89 | ASR_ri is a register-form MOV whose operand `rm` is shifted by ASR `imm & 0x1F` |
| ArmEncoding.OrrRoundTrip | pypy/jit/backend/arm/codebuilder.py:92-100 | for registers below 16, ORR_rr decodes as opcode ORR with the registers, the shift amount and the shift type given back |
| ArmEncoding.OrrWideRegisterSetsFlags | pypy/jit/backend/arm/codebuilder.py:96 | because rn is masked with 0xFF, register 16 in rn reaches bit 20, so the word sets the flags although `s` is 0 |
| ArmEncoding.RegBitBit | pypy/jit/backend/arm/codebuilder.py:105 | `0x1 << reg` has exactly bit `reg` set |
| ArmEncoding.OrAllSameElements | pypy/jit/backend/arm/codebuilder.py:104-105 | the OR of a sequence of words depends only on which words it holds |
| ArmEncoding.OrAllBit | pypy/jit/backend/arm/codebuilder.py:104-105 | a bit of the OR of a sequence is set exactly when it is set in one of its words |
| ArmEncoding.RegisterMaskSnoc | pypy/jit/backend/arm/codebuilder.py:104-105 | one round of PUSH's loop ORs in the bit of the next register |
| ArmEncoding.RegisterMaskBits | pypy/jit/backend/arm/codebuilder.py:102-105 | bit `i` of PUSH's register mask is set exactly when register `i` is in the list |
| ArmEncoding.RegisterMaskLow | pypy/jit/backend/arm/codebuilder.py:102-105 | registers below 16 keep the mask within the 16-bit register-list field |
| ArmEncoding.PushOrderIrrelevant | pypy/jit/backend/arm/codebuilder.py:102-106 | two register lists holding the same registers, in any order and with any repetition, give the same PUSH word |
| ArmEncoding.PushFields | pypy/jit/backend/arm/codebuilder.py:102-106 | for registers below 16, PUSH decodes to `cond`, 0x92D in bits 27..16, and a register list whose bit `i` is set exactly when `i` is listed |
| ArmEncoding.SampleMovRi | pypy/jit/backend/arm/codebuilder.py:58-66 | `mov r0, #5` is 0xE3A00005 |
| ArmEncoding.SampleAdd | pypy/jit/backend/arm/codebuilder.py:33-40 | `add r1, r0, #4` is 0xE2801004 |
| ArmEncoding.SamplePush | pypy/jit/backend/arm/codebuilder.py:102-106 | `push {r4, r5, r6}` is 0xE92D0070 |
| ArmBuilder.LeBytes | pypy/jit/backend/arm/codebuilder.py:109-112 | `write32` splits the word into four bytes that put back together, least significant first, give the word |
| ArmBuilder.LeWordOfLeBytes | pypy/jit/backend/arm/codebuilder.py:108-112 | the four bytes `write32` stores read back, little-endian, as the word |
| ArmBuilder.LeBytesOfLeWord | pypy/jit/backend/arm/codebuilder.py:108-112 | every group of four bytes is what `write32` stores for exactly one word |
| ArmBuilder.Patched | pypy/jit/backend/arm/codebuilder.py:114-116 | writing bytes at an offset puts them in place and leaves every other byte and the length unchanged |
| ArmBuilder.PatchedTwice | pypy/jit/backend/arm/codebuilder.py:108-112 | two writes one after the other are one write of both byte strings |
| ArmBuilder.PatchedReadBack | pypy/jit/backend/arm/codebuilder.py:108-112 | the word written at an offset reads back from the block |
| ArmBuilder.FourStores | pypy/jit/backend/arm/codebuilder.py:108-112 | four single-byte stores at consecutive offsets are one write of the four bytes |
| ArmBuilder.PatchedAppends | pypy/jit/backend/arm/codebuilder.py:108-116 | writing at the end of the emitted prefix extends it by exactly the written bytes |
| ArmBuilder.ARMv7Builder.constructor | pypy/jit/backend/arm/codebuilder.py:7-9 | a fresh 1024-byte block with the cursor at 0 and nothing emitted |
| ArmBuilder.ARMv7Builder.BaseAddr | pypy/jit/backend/arm/codebuilder.py:118-119 | the block itself, of 1024 bytes, whose identity stands for the base address |
| ArmBuilder.ARMv7Builder.WriteChar | pypy/jit/backend/arm/codebuilder.py:114-116 | the byte is stored at the cursor, the cursor advances by one, and no other byte changes |
| ArmBuilder.ARMv7Builder.Write32 | pypy/jit/backend/arm/codebuilder.py:108-112 | the word's four little-endian bytes are stored at the cursor and appended to the emitted code; the cursor advances by four; nothing else and not the block changes |
| ArmBuilder.ARMv7Builder.LdrRi | pypy/jit/backend/arm/codebuilder.py:18-31 | appends the LDR word's bytes and changes nothing else |
| ArmBuilder.ARMv7Builder.AddRi | pypy/jit/backend/arm/codebuilder.py:33-40 | appends the ADD word's bytes and changes nothing else |
| ArmBuilder.ARMv7Builder.SubRi | pypy/jit/backend/arm/codebuilder.py:42-48 | appends the SUB word's bytes and changes nothing else |
| ArmBuilder.ARMv7Builder.MovRr | pypy/jit/backend/arm/codebuilder.py:51-56 | appends the MOV_rr word's bytes and changes nothing else |
| ArmBuilder.ARMv7Builder.MovRi | pypy/jit/backend/arm/codebuilder.py:58-66 | appends the MOV_ri word's bytes and changes nothing else |
| ArmBuilder.ARMv7Builder.StrRi | pypy/jit/backend/arm/codebuilder.py:68-80 | appends the STR word's bytes and changes nothing else |
| ArmBuilder.ARMv7Builder.AsrRi | pypy/jit/backend/arm/codebuilder.py:82-89 | appends the ASR word's bytes and changes nothing else |
| ArmBuilder.ARMv7Builder.OrrRr | pypy/jit/backend/arm/codebuilder.py:92-100 | appends the ORR word's bytes and changes nothing else |
| ArmBuilder.ARMv7Builder.Push | pypy/jit/backend/arm/codebuilder.py:102-106 | the loop keeps `instr` equal to the template ORed with the bits of the registers seen so far, then appends the PUSH word's bytes |
| Text.IsDigits | pypy/translator/gensupp.py:148-150 | a string that passes `isdigit()` is non-empty and holds no `_` and no `v`, which the mangling in `localname` relies on |
| Text.Decimal | pypy/translator/gensupp.py:69 | `'%d' % n` is a non-empty string of digits |
| Text.DecimalValue | pypy/translator/gensupp.py:69 | the digits of `'%d' % n` spell `n` |
| Text.DecimalInjective | pypy/translator/gensupp.py:69 | different numbers print differently |
| Text.Words | pypy/translator/gensupp.py:96 | every word of `split()` is non-empty and has no whitespace |
| Text.WordsKeepText | pypy/translator/gensupp.py:96 | the words of `split()`, joined, are the string with its whitespace removed |
| Text.WordLengthAppend | pypy/translator/gensupp.py:96 | a run of non-whitespace that ends inside a string, or at a whitespace character that follows it, is not lengthened by what follows |
| Text.WordsOfWord | pypy/translator/gensupp.py:96 | a non-empty run without whitespace is one word: `split()` does not cut inside it |
| Text.WordsSplitAtSpace | pypy/translator/gensupp.py:96 | `split()` of `a + c + b` with `c` whitespace is the words of `a` followed by the words of `b` |
| Text.RFind | pypy/translator/gensupp.py:147 | `rfind` gives -1 or an index holding the character, with no occurrence after it |
| CNames.CIdentifier | pypy/translator/gensupp.py:76-79 | the table has 256 entries, each a letter, digit or `_`, and maps every ASCII letter and digit to itself |
| CNames.TranslateChar | pypy/translator/gensupp.py:76-79 | the table maps ASCII letters and digits to themselves and every other character to `_` |
| CNames.Translate | pypy/translator/gensupp.py:102 | translation keeps the length |
| CNames.TranslateMaps | pypy/translator/gensupp.py:76-79 | each character of a translated string is the original letter or digit, or `_` |
| CNames.TranslateIsIdentifier | pypy/translator/gensupp.py:76-79 | a translated string holds only letters, digits and `_` |
| CNames.TranslateKeepsIdentifier | pypy/translator/gensupp.py:76-79 | a string of letters, digits and `_` translates to itself |
| CNames.TranslateIdempotent | pypy/translator/gensupp.py:76-79 | translating twice is translating once |
| CNames.TranslateAppend | pypy/translator/gensupp.py:102 | translating a concatenation translates each part |
| CNames.Replace | pypy/translator/gensupp.py:62 | a string without the character is left as it is |
| CNames.ReplaceSelf | pypy/translator/gensupp.py:62 | replacing a character by itself is the identity, as the second `replace` of `c_string` does |
| CNames.CString | pypy/translator/gensupp.py:61-62 | the literal starts and ends with a double quote |
| CNames.CStringDoublesBackslashes | pypy/translator/gensupp.py:61-62 | `c_string(s)` is `"` + `s` with each backslash doubled + `"`; double quotes stay bare |
| CNames.CStringReadsBack | pypy/translator/gensupp.py:61-62 | a C compiler reads `c_string(s)` back as `s` exactly when `s` has no double quote; otherwise the literal ends at the first bare `"` |
| CNames.CStringOfQuote | pypy/translator/gensupp.py:61-62 | `c_string('"')` is `"""`, which does not read back |
| CNames.EscapedCString | pypy/translator/gensupp.py:61-62 | the corrected literal starts and ends with a double quote |
| CNames.EscapedCStringReadsBack | pypy/translator/gensupp.py:61-62 | with `"` escaped as well, every string reads back as itself |
| UniqueLists.Appended | pypy/translator/gensupp.py:45-53 | the state is unchanged exactly when the lookup (`dic[arg]` when hashable, `arg in self` otherwise) finds `arg`; otherwise `arg` is appended at the end |
| UniqueLists.AppendedGrowsByAtMostOne | pypy/translator/gensupp.py:45-53 | `append1` keeps the list and adds at most `arg` at its end |
| UniqueLists.AppendedContains | pypy/translator/gensupp.py:45-53 | afterwards `arg` is in the list |
| UniqueLists.AppendedIdempotent | pypy/translator/gensupp.py:45-53 | a second `append1(arg)` changes nothing |
| UniqueLists.AppendedTracks | pypy/translator/gensupp.py:40-53 | `dic` holds exactly the hashable elements appended since construction, and the appended elements stay pairwise distinct |
| UniqueLists.UniqueList.constructor | pypy/translator/gensupp.py:41-43 | the list holds the given elements and `dic` is empty |
| UniqueLists.UniqueList.Append1 | pypy/translator/gensupp.py:45-53 | the new list and `dic` are the specified `append1` of the old ones, the invariant holds, and `arg` is in the list |
| ModuleNames.Candidate | pypy/translator/gensupp.py:69 | a candidate is longer than `name_` |
| ModuleNames.CandidateInjective | pypy/translator/gensupp.py:69 | different counters give different candidates |
| ModuleNames.CandidatesCount | pypy/translator/gensupp.py:66-72 | the first `i` candidates are `i` different strings |
| ModuleNames.SomeCandidateFree | pypy/translator/gensupp.py:66-72 | one of the first `len(SEEN) + 1` candidates is free, so the loop ends |
| ModuleNames.ModuleNameRegistry.constructor | pypy/translator/gensupp.py:64 | `SEEN` starts empty |
| ModuleNames.ModuleNameRegistry.UniqueModuleName | pypy/translator/gensupp.py:64-72 | returns `name_i` for the least `i >= 1` not yet seen and adds exactly it, so no name is returned twice |
| NameManagers.Get | pypy/translator/gensupp.py:103 | `d.get(k, 0)`: a positive count means the key is present, and a present key gives its stored count |
| NameManagers.Reserve | pypy/translator/gensupp.py:96-99 | names known before keep their counts, also when a `NameError` stops the loop |
| NameManagers.ReserveCounted | pypy/translator/gensupp.py:96-99 | every known name still has a positive count afterwards, also after a `NameError` |
| NameManagers.ReserveOk | pypy/translator/gensupp.py:92-99 | `make_reserved_names` succeeds exactly when no word is already known and no word occurs twice |
| NameManagers.ReserveEntries | pypy/translator/gensupp.py:92-99 | known names keep their counts, nothing but the words is added, and on success every word is known with count 1 |
| NameManagers.UniqueNameF | pypy/translator/gensupp.py:101-113 | every name known before stays known, and the translated base name is known afterwards |
| NameManagers.LongKeysShrink | pypy/translator/gensupp.py:109-113 | every retry asks for a longer name after entering the shorter one, so the recursion ends |
| NameManagers.RetryName | pypy/translator/gensupp.py:109-113 | a retry name is already translated and is neither `v` nor `w_` |
| NameManagers.UniqueNameFresh | pypy/translator/gensupp.py:101-113 | apart from the first `v0`/`w_0`, the returned name was unknown before and is known after; counts stay positive, no name is lost, and the name is made of identifier characters |
| NameManagers.UniqueNameFirstUse | pypy/translator/gensupp.py:110-111 | the first request for a name other than `v`/`w_` returns the translated name with count 1 |
| NameManagers.UniqueNameNumberedFirstUse | pypy/translator/gensupp.py:105-107 | the first `v` (`w_`) returns `v0` (`w_0`) and enters only `v` (`w_`) |
| NameManagers.UniqueNameRepeatsNumberedZero | pypy/translator/gensupp.py:105-107 | after `uniquename('v0')`, `uniquename('v')` returns `v0` again |
| NameManagers.UniqueNamesDiffer | pypy/translator/gensupp.py:101-113 | two requests in a row outside the first-`v0` case never return the same name |
| NameManagers.LocalUniqueName | pypy/translator/gensupp.py:132-141 | the result is `None` (the `IndexError`) exactly when the depth is missing or the shared list holds fewer than `p` names; the base name's count goes up by one; no depth is added |
| NameManagers.LocalUniqueNameEntry | pypy/translator/gensupp.py:132-141 | the `p`-th request for a base name returns entry `p` of the depth's shared list; an existing entry is reused without a new global name; otherwise the new name is globally fresh, unless it is the first `v0`/`w_0`, which `uniquename` hands out unchecked |
| NameManagers.LocalUniqueNameKeepsCovered | pypy/translator/gensupp.py:132-141 | for a scope whose counts are covered by its depth's lists (every scope `localScope` hands out), a request succeeds, only lengthens the shared lists, and keeps every scope's counts within its lists, so `namelist[p]` never fails |
| NameManagers.LocalBase | pypy/translator/gensupp.py:147-157 | the base is the name itself, `v`/`w_`, or a name starting with `l_` (`w_` when wrapped) |
| NameManagers.LocalBaseNumbered | pypy/translator/gensupp.py:148-149 | `v<digits>` maps to base `v`, or `w_` when wrapped |
| NameManagers.LocalBaseSuffixed | pypy/translator/gensupp.py:147-155 | `x_<digits>` maps to `l_x`, or `w_x` when wrapped |
| NameManagers.LocalBasePlain | pypy/translator/gensupp.py:147-157 | a name that is neither `v<digits>` nor `<x>_<digits>` is used as it is, underscores included |
| NameManagers.LocalBasePlainSamples | pypy/translator/gensupp.py:156-157 | `a_b` and `x_` are used as they are |
| NameManagers.NameManager.constructor | pypy/translator/gensupp.py:87-90 | no names, depth 0, no scopes; every known name counted (`Valid`) |
| NameManagers.NameManager.MakeReservedNames | pypy/translator/gensupp.py:92-99 | the result and the new counts are the reservation of the words of `split()`; every known name stays counted, also after a `NameError` |
| NameManagers.NameManager.UniqueName | pypy/translator/gensupp.py:101-113 | the name and the new counts are those of the recursive specification; every known name stays counted |
| NameManagers.NameManager.NewLocalScope | pypy/translator/gensupp.py:115-119 | a fresh scope one level below its parent, with its depth guaranteed in `scopelist`, which only grows by empty tables; the global counts are unchanged |
| NameManagers.LocalScope.constructor | pypy/translator/gensupp.py:123-130 | depth is the parent's (or the manager's) plus one, with empty tables |
| NameManagers.LocalScope.UniqueName | pypy/translator/gensupp.py:132-141 | counts, shared lists, global counts and result are those of the specification, including the `IndexError` cases; the manager's names stay counted |
| NameManagers.LocalScope.LocalName | pypy/translator/gensupp.py:143-160 | a cached name is returned with nothing changed; otherwise the mangled base name is requested and the result is cached, so the next call returns it |

## Left out

- `alloc` and `rffi.cast` (the executable memory mapping and the pointer cast in `baseaddr`) are not part of this model. The block is an `array<bv8>` and its identity stands for the address.
- ArmBuilder.ARMv7Builder.WriteChar: `pos < 1024` is a precondition, because writing past the block is a memory error in the source, not a handled case.
- ArmBuilder.ARMv7Builder.Push: register numbers are `nat`, so the `ValueError` Python raises for a negative shift count is not modelled. Bits of registers 32 and above are dropped, as `write32` stores only the low 32 bits of the word.
- What the processor does with a word, including the ARM "modified immediate" rotation that ADD and MOV immediates really use, is not modelled. Only the bit layout the code produces is.
- `ordered_blocks` and `builtin_base` are not part of this model: they depend on flow-graph traversal and Python type reflection.
- CNames.TranslateChar: strings are sequences of Unicode characters, and a character above 255, which a Python 2 byte string cannot hold, is mapped to `_`.
- CNames.Unescape reads only the escapes `\\` and `\"`. Other C escapes, and raw control characters that a C literal may not hold, are not modelled.
- UniqueLists.UniqueList: whether Python can hash a value is a fixed function given to the constructor. Hashing that raises for some values of a type and not others is covered, but a `__hash__` or `__eq__` with side effects is not.
- The `NameError` message text and exception objects are not modelled: failures are `false` and `None`.

## Findings

| source | as written | input that shows it | evidently intended | confidence | as-written member | corrected member |
|---|---|---|---|---|---|---|
| pypy/translator/gensupp.py:62 | `.replace('"', '\"')` replaces a double quote by itself, because `'\"'` is the one-character string `"`, so quotes are not escaped | `c_string('"')` gives `"""`, a C literal that ends after its first two characters | `.replace('"', '\\"')`, so the literal reads back as the original string | high; not executed | CNames.CStringReadsBack | CNames.EscapedCStringReadsBack |
