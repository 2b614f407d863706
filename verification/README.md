# b43-tools, verified

A Dafny model of the b43 firmware tools, and proofs of what they are for.

**Microcode.**  `Isa` is the vocabulary of the instruction set.  `Operands` and `Lowering` are the
assembler's encodings, grammar actions and pseudo instructions; `Linker` says which label a reference
means and what a list of instructions and labels links to; `Assembler` is the assembler at work on its
output list.  `Listing` says what the disassembler prints; `Disassembler` is the disassembler at work on
a linked list (`KernelList`) that gains labels while it is walked.  `CodeFile` is the file format.
`InsnRoundTrip`, `RoundTrip` and `SelfTest` put the tools behind each other: the promise of the self test
is stated on whole files, for both architectures and all three formats, with its exact condition.
`Pseudo` gives the instructions a meaning on 16-bit values; `OutputShape` and `ListingShape` say where
outputs, labels and lines stand.  `Programs` goes from the lines of a program to its words: which
statement a label operand means, and what the lines of pseudo instructions do.

**Around it.**  `Md5Spec` and `Md5` are RFC 1321 and the streaming digest that recognises firmware files,
and `Md5Suite` proves one digest of the standard's test suite;
`SpromCrc` (with the general facts of `Folding` and `Polynomials`), `Sprom` and `SpromText` are the SPROM
tool; `TextPatcher` patches a text by its original line numbers; `FwConv` replaces a section of a
brcm80211 image; `Initvals` is the stream of initial values with its two writers and its reader, and
`IvEffects` what the register writes of an assembled section do.
`Bits`, `Bytes` and `Wrappers` are shared.

Each tool that works by changing things is an imperative method proved against a specification function,
and the theorems are about these functions.  C's `unsigned int` is the subset type `word`; `&`, `|`, `^`
and shifts are functions on natural numbers in `Bits`, and masks by constants are the remainders they
are; the step functions and rotations of MD5 are operators on 32-bit machine words.  C's `exit(1)` and Python's exceptions are `Result` values.

## What turned out

- Not every image survives the self test.  `InsnRoundTrip.Canonical` is the exact condition, read off
  opcode by opcode, and there are two ways to fail it.
  - One of the tools refuses it: `InsnRoundTrip.Accepted` says exactly of which instructions.  On
    architecture 15 the disassembler names 128 general purpose and 1024 special purpose registers while the
    assembler accepts 64 and 512 (`assembler/main.c:299-314`, `disassembler/main.c:162-204`);
    `RoundTrip.RefusedImage` is such an image.  The disassembler refuses a jump behind the end.
  - The image comes back as another one without a word: `InsnRoundTrip.Rewritten` says exactly as which.
    Operands that the disassembler does not print are filled in again, so the dummies of an external jump
    come back as register 0 (`RoundTrip.ChangedImage`) and the middle field of a call as zero
    (`RoundTrip.ChangedCall`).  What comes back is canonical, so it happens once (`RoundTrip.SecondPass`).
- The comment at `assembler/main.c:455-458` forbids two inputs that are one special purpose register and one
  memory operand; the code only forbids two of a kind, and the model follows the code.
- The empty image also comes back: its listing is a start jump to its own end, which is dropped.
- `is_contiguous_bitmask` refuses runs that reach bit 31, because its sum wraps around (`Pseudo.RunToTop`).
- `TextPatcher` finds the line number -1 once something has been added (`FindsAdded`, and `AddTwice` for an
  input); the promise that numbers mean original lines holds for the others.
- `mergeSection` writes a header that disagrees with its image exactly when a non-empty section other than
  the replaced one reaches beyond the end of the old image (`FwConv.MergedSize`), since Python's slices are
  cut off silently; `FwConv.HeaderDisagrees` is such a pair of files.  Merging orders the sections by offset
  and extracting takes the first in the file, so with an index that occurs twice a merge can change what it
  extracts (`FwConv.OthersKept`, `FwConv.FirstChanges`).
- `modify_value` does not mask the value it writes: the bits that do not fit go into the neighbouring fields
  of the word (`Sprom.WriteStaysInside`, `Sprom.OtherBits`), and a value comes back exactly when it fits
  (`Sprom.ReadBack`, `Sprom.FieldFits`).
- A 32-bit value written to shared memory at an address that is no multiple of four has its halves stored in
  the opposite order (`IvEffects.HalvesInOrder`).
- The text form of an image is accepted up to a mebibyte, and more than 900 characters behind the colon do
  not fit into its buffer (`SpromText.ParseInput`).

## Model

| member | source | states |
|---|---|---|
| SelfTest.SelfTestIsExact | assembler/selftest.sh:9-15 | for every file, format and architecture: disassembling and reassembling gives the file back byte for byte if and only if it reads, every instruction is canonical, every jump stays inside the image, and the b43 header says what the assembler writes |
| SelfTest.Rebuild | assembler/selftest.sh:41-55 | running the imperative tools one after the other computes the file that SelfTestIsExact speaks about, or nothing when one of them gives up |
| SelfTest.RebuiltCode | assembler/selftest.sh:41-55 | the rebuilt file is the packing, for the same architecture and format, of the reassembled instructions |
| SelfTest.WhatIsRebuilt | assembler/selftest.sh:41-55 | on any file: the file of the rewritten code when it reads, every instruction is accepted and every jump stays inside, and nothing otherwise |
| SelfTest.RebuiltPasses | assembler/selftest.sh:9-15 | any file that the tools rebuild passes the self test itself, byte for byte, header included |
| RoundTrip.RoundTripIsExact | assembler/selftest.sh:9-15 | for every image of the instruction format, of any length and with or without decoding of unknown opcodes: its listing reassembles to it if and only if it is canonical |
| RoundTrip.WhatComesBack | assembler/main.c:1035-1101 | for every image of the format, what comes back exactly: the image with each instruction rewritten if every instruction is accepted and every jump stays inside, and nothing otherwise |
| RoundTrip.SecondPass | assembler/selftest.sh:9-15 | whatever comes back is canonical, so a second pass changes nothing |
| RoundTrip.RefusedImage | assembler/main.c:299-314 | an image of one addition on general purpose register 64 of architecture 15 disassembles to a listing that the assembler refuses |
| RoundTrip.ChangedImage | assembler/main.c:531-565 | an image of one jump with any dummy operands silently comes back with register 0 for both |
| RoundTrip.ChangedCall | assembler/parser.y:997-1013 | an image of one call with any middle field silently comes back with zero there |
| RoundTrip.CanonicalComesBack | disassembler/main.c:791-820 | neither tool gives up on a canonical image |
| RoundTrip.LabelsDistinct | disassembler/main.c:808-819 | no two labels of a listing have the same name, and none is called entry |
| RoundTrip.LabelResolves | assembler/main.c:981-1033 | in the assembled listing, a reference to the label of instruction k is unambiguous and means address k |
| RoundTrip.EntryResolves | assembler/main.c:1058-1075 | the entry label of a listing makes the start jump one to the next instruction, so that it is dropped |
| RoundTrip.ListingAssembles | assembler/main.c:934-978 | a listing links the woven list of its labels and instructions when all its lines assemble, and is rejected otherwise |
| RoundTrip.BodyCollects | assembler/main.c:934-978 | the output list of a listing holds its instructions in order, each behind its label, whatever the lines are |
| InsnRoundTrip.CanonicalIsExact | disassembler/main.c:281-763 | one disassembled instruction comes back from its own printed line exactly when it is canonical |
| InsnRoundTrip.InsnComesBack | assembler/main.c:733-932 | opcode by opcode: the printed line of an instruction assembles exactly when it is accepted, and then to the rewritten instruction |
| InsnRoundTrip.CanonicalIsFixed | disassembler/main.c:281-763 | the canonical instructions are the accepted ones that rewriting leaves alone |
| InsnRoundTrip.RewrittenIsCanonical | disassembler/main.c:281-763 | rewriting an accepted instruction gives a canonical one of the same opcode |
| InsnRoundTrip.CanonicalDisassembles | disassembler/main.c:281-647 | canonical instructions are never refused by the disassembler |
| InsnRoundTrip.StdAssembles | assembler/main.c:428-483 | two decoded inputs assemble back to their own fields exactly when both are encodable and they are not both special purpose registers nor both memory |
| Operands.DecodeEncode | disassembler/main.c:100-263 | over the whole operand field: the five decoders cover it, so the raw fallback is never reached, and encoding gives the field back exactly outside the registers the assembler refuses on architecture 15 |
| Operands.EncodeDecode | assembler/main.c:266-395 | encoding then decoding names the same operand, for every operand that is encoded without truncation |
| Operands.ValidImm | assembler/main.c:165-235 | is_possible_imm and is_valid_imm accept exactly the values that survive encoding and sign extension |
| Operands.TooLong | assembler/main.c:266-395 | immediates and memory operands are encoded whatever their numbers are, offset registers above 6 excepted; a number that is too long keeps its low bits, with the sign of an immediate, and is named back as that |
| Operands.OffsetRegisters | assembler/main.c:315-321 | offset registers are eight codes among the special purpose registers, 0x60 onwards on architecture 5 and 0xC0 onwards on 15 |
| Pseudo.JandMeaning | assembler/main.c:653-731 | jand and jnand accept exactly the immediates of JandImm, and the native or JZX/JNZX instruction they become keeps the target and branches exactly when input and immediate share a bit (or none), for every 16-bit input |
| Pseudo.JandImmIsRun | assembler/main.c:238-264 | beyond native immediates these are the runs of at most 16 ones that start at bit 15 or below and end below bit 31 |
| Pseudo.ContiguousIsRun | assembler/main.c:245-264 | what is_contiguous_bitmask accepts is one run of ones that ends below bit 31 |
| Pseudo.RunIsContiguous | assembler/main.c:245-264 | every such run is accepted |
| Pseudo.RunToTop | assembler/main.c:245-264 | a run that reaches bit 31 is refused, the single bit 31 among them (TopBitRefused) |
| Pseudo.RunField | assembler/main.c:693-703 | the start and width computed with ffs are the run's start and its length less one |
| Pseudo.MovMeaning | assembler/main.c:570-629 | mov accepts exactly the immediates of at most 16 bits or their sign extensions, and the OR or ORX it becomes stores the low 16 bits |
| Pseudo.MovCopies | assembler/main.c:582-600 | parsed mov of anything but a long immediate stores the value it reads; Programs.MovLine says which operand of the line that is |
| Pseudo.OrxStores | fwcutter/fwcutter.c:139-139 | ORX 7, 8 on any two immediates stores their low bytes side by side, even when the assembler cuts them off: the value the firmware cutter reads off that instruction |
| Pseudo.BeautifiedMov | debug/libb43.py:669-681 | rewriting orx 7, 8 to mov keeps what is stored and whether the line assembles, for any two immediates |
| Pseudo.BeautifiedJmp | debug/libb43.py:658-664 | rewriting jext 0x7F to jmp gives the same instruction |
| Linker.FirstLabel | assembler/main.c:1017-1030 | the nearest label of a name from a position on, or that there is none |
| Linker.LastLabel | assembler/main.c:1004-1016 | the nearest label of a name before a position, or that there is none |
| Linker.UniqueLabel | assembler/main.c:990-1003 | an absolute reference means the label of that name if exactly one position has it |
| Linker.TargetMeans | assembler/main.c:981-1033 | in terms of positions and names: loop- means the label of that name in front of the reference with none between them, loop+ the one behind it with none between, and a bare name the only label of that name |
| Linker.AmbiguousMeans | assembler/main.c:990-1003 | a reference is ambiguous exactly when it is absolute and two labels have the name |
| Linker.LinkedAt | assembler/main.c:1056-1098 | every instruction of the list is linked to one word, which stands at the instruction's own address |
| Linker.LinksWhenAllDo | assembler/main.c:1056-1107 | resolution succeeds exactly when it does for every instruction |
| Linker.TargetShift | assembler/main.c:1072-1075 | dropping the first instruction leaves every reference at the same label, one address lower, for all three directions |
| Linker.ElisionShifts | assembler/main.c:1058-1075 | with and without the start jump the same programs link, and the elided output is the other without its first word and with every label address one lower |
| Linker.ElisionKeepsFlow | assembler/main.c:1058-1075 | address k + 1 of the full program and address k of the elided one correspond along every jump and every step, and nothing else leads to the start jump |
| Assembler.Context.EvalDirectives | assembler/main.c:113-163 | the directives found are those of the specification, or its first error |
| Assembler.Context.AssembleInstruction | assembler/main.c:733-932 | whatever an instruction expands to by recursion, exactly one node is appended, the specified one; expansion ends by the rank of operations |
| Assembler.Context.AssembleInstructions | assembler/main.c:934-978 | the output list is the optional start jump followed by one node for each instruction and label |
| Assembler.Context.AssignAddresses | assembler/main.c:1042-1055 | every node's address becomes the number of instructions before it, and nothing else changes |
| Assembler.Context.GetLabelAddress | assembler/main.c:981-1033 | the address of the label that a reference means by positions and names, the nearest one looking back, the nearest one looking forward or the only one; or the sign that there is none, or ambiguity |
| Assembler.Context.ResolveInsn | assembler/main.c:1083-1098 | one instruction's label operands are overwritten by the linked words, all other nodes stay as they are |
| Assembler.Context.ResolveAll | assembler/main.c:1056-1107 | in-place resolution, front to back, gives the words linked from the list as it was before any was overwritten, and leaves no label |
| Assembler.Context.ResolvePass | assembler/main.c:1035-1101 | a restart happens only when the start jump goes to address 1, deletes just that jump, and happens before any operand is overwritten |
| Assembler.Context.ResolveLabels | assembler/main.c:1035-1107 | the loop with its restart ends and links the list, start jump elision included; there is at most one restart |
| Assembler.NodesOfPrefix | assembler/main.c:934-978 | the first statement that fails decides the outcome |
| Assembler.DirectivesExact | assembler/main.c:113-163 | a program is accepted exactly with one %arch directive from 5 on and at most one %start directive, and these are what is found |
| OutputShape.LabelAsInput | assembler/main.c:1086-1096 | a label as an input is encoded like the immediate of its address, and means the address exactly when that is a native immediate |
| OutputShape.OneOutputEach | assembler/main.c:934-978 | a program of n instructions assembles to n words, one more if the start jump is kept |
| OutputShape.OutputOfStmt | assembler/main.c:1042-1098 | every instruction's word, and every label, stands at the number of kept instructions before it |
| Programs.ReferenceOfStmt | assembler/main.c:981-1033 | in an assembled program every label operand holds the address of the label statement that it means, looking the right way: the number of instructions in front of that statement, and one more if the start jump is kept |
| Programs.StartsAtLabel | assembler/main.c:934-956 | an assembled program with a start label has only one label of that name, drops the start jump exactly when no instruction stands in front of that label, and otherwise begins with the jump on condition 0x7F to it |
| Programs.WordOfLine | assembler/main.c:934-978 | in an assembled program every instruction line becomes one word, the code of that very line with its labels resolved, behind the instructions in front of it and at most a start jump |
| Programs.MovLine | assembler/parser.y:798-804 | a mov line of any operands assembles exactly when there are two plain ones, the first can be moved and the second assembles and is no immediate but zero, and it then stores the value of the first in the place of the second |
| Programs.JmpLine | assembler/parser.y:806-814 | a jmp line assembles exactly for one label, to a jump to it on condition 0x7F with register 0 for both dummies, the code of the jext line |
| Programs.JandLine | assembler/parser.y:816-830 | jand and jnand lines with one immediate, on either side and of any length, assemble exactly when the immediate is accepted, the other operands assemble and the target can stand there; they branch to the target on the common bits |
| Programs.JandPairLine | assembler/main.c:656-664 | with two immediates or none the line is the native instruction: when it assembles, and that it branches to the target on the common bits |
| SelfTest.AssembleFile | assembler/main.c:1246-1257 | the assembler's main sequence writes the specified file or stops with its error |
| SelfTest.EmitCode | assembler/main.c:1109-1244 | the file holds the header of its format and the packed words of the list without the labels, byte by byte: a header gives the size of what is behind it most significant byte first, and word k stands at 8 * k behind it in the order of bytes that its format has |
| CodeFile.NoOverlap | assembler/main.c:1181-1196 | fields within the format never overlap, so the unmasked or of them is their sum |
| CodeFile.UnpackPack | disassembler/main.c:951-977 | unpacking undoes packing, field by field |
| CodeFile.PackUnpack | disassembler/main.c:951-977 | every accepted code word is the packing of what it unpacks to, and fits the format |
| CodeFile.WordLayout | assembler/main.c:1201-1225 | the eight bytes of a code word: low half in front of high half, each most significant byte first, in the b43 and big-endian formats, all least significant byte first in the little-endian one |
| CodeFile.FileLayout | assembler/main.c:1137-1244 | every file of code is laid out so: type, version, zeros and the number of bytes behind the header, and for each k the word of instruction k at 8 * k behind it |
| CodeFile.NapBytes | assembler/main.c:1181-1215 | a nap on architecture 5 is C0 BC 00 00 00 00 00 1B |
| CodeFile.WordBytesBack | assembler/main.c:1201-1225 | reading the eight bytes of a code word gives it back in all three formats, swapped halves included |
| CodeFile.BytesWordBack | disassembler/main.c:921-949 | and writing a word read from eight bytes gives the bytes back |
| CodeFile.ReadEmitted | disassembler/main.c:874-996 | any list of instructions reads back from the file that is emitted for it |
| CodeFile.EmitRead | assembler/main.c:1137-1152 | a file that reads is the file of its instructions exactly when its header, if it has one, is the emitted one |
| SelfTest.ReadInput | disassembler/main.c:874-996 | the reading loop returns the specified instructions or the first error |
| Disassembler.DisassembleCode | disassembler/main.c:998-1013 | the linked-list disassembler produces exactly the listing of the specification, or its error |
| Disassembler.Context.DisasmOpcodes | disassembler/main.c:649-763 | one statement for each instruction is appended, up to the first that is refused |
| Disassembler.Context.GetLabelAt | disassembler/main.c:765-789 | the label in front of instruction addr is found or inserted there; no other label changes and out of bounds is reported |
| Disassembler.Context.ResolveReferences | disassembler/main.c:791-806 | walking the list while it gains labels visits every instruction once: all references are resolved, and labels stand in front of exactly the instructions referred to |
| Disassembler.Context.LabelInFront | disassembler/main.c:776-784 | a resolved reference leads to the label directly in front of instruction number labeladdr |
| Disassembler.Context.NameLabels | disassembler/main.c:808-819 | labels are numbered in the order of the list |
| Disassembler.Context.EmitBody | disassembler/main.c:836-869 | the lines are the instructions in order, each behind its label |
| Disassembler.PrintOperands | disassembler/main.c:841-862 | the operands of a line, the label in its slot and empty slots left out |
| Listing.LabelNameDistinct | disassembler/main.c:812-818 | different numbers give different label names, and none is entry |
| Listing.LabelNameReads | disassembler/main.c:812-818 | the name of label k is an L and decimal digits that read as k |
| ListingShape.ErasedBody | disassembler/main.c:791-869 | erasing the labels of a listing leaves every instruction once and in order |
| ListingShape.InsnLineAt | disassembler/main.c:765-789 | the line in front of instruction k is its label exactly when some instruction refers to k, and no label follows a label |
| KernelList.InsertBetween | assembler/list.h:67-75 | the ring of nodes with the new one between its neighbours; only four pointers are written |
| KernelList.ListAdd | assembler/list.h:77-88 | insertion behind a node of the ring |
| KernelList.ListAddTail | assembler/list.h:90-101 | insertion in front of a node; in front of the head is at the end |
| KernelList.ListDel | assembler/list.h:103-127 | the ring without the node, which is poisoned |
| KernelList.ListEmpty | assembler/list.h:166-169 | a ring is empty exactly when only its head is in it |
| KernelList.ForEach | assembler/list.h:267-270 | forward iteration visits the nodes behind the head in order |
| KernelList.ForEachReverse | assembler/list.h:278-281 | reverse iteration visits them in reverse order |
| Md5.Context.Update | fwcutter/md5.c:159-201 | for any context and any data: the context again stands for everything passed so far, bit count and carry included, and no copy leaves the block |
| Md5.Context.Final | fwcutter/md5.c:207-246 | the digest of RFC 1321 of everything passed, and a cleared context |
| Md5.Context.Transform | fwcutter/md5.c:57-138 | the 64 unrolled steps with the optimised F1 compute the compression function of RFC 1321, section 3.4 |
| Md5.CoreIsMix | fwcutter/md5.c:43-51 | the step functions of the code are F, G, H and I of the standard |
| Md5.CountBits | fwcutter/md5.c:163-168 | the two 32-bit words with their carry count eight times the length modulo 2^64 |
| Md5.Buffered | fwcutter/md5.c:170-170 | the low word gives the number of bytes kept in the block |
| Md5.Context.ByteReverse | fwcutter/md5.c:28-38 | words are made from bytes low-order byte first |
| Md5.Context.Pad | fwcutter/md5.c:212-241 | both ways of padding complete the padded message of RFC 1321, sections 3.1 and 3.2 |
| Md5.HashPieces | fwcutter/md5.c:159-246 | however a message is split into updates, the digest is the same |
| Md5.HashFile | fwcutter/fwcutter.c:692-701 | reading a file in chunks of 16384 bytes computes the digest of the file |
| Md5Spec.AbsorbPrefix | fwcutter/md5.c:188-196 | the state after the first blocks does not depend on what follows |
| Md5Suite.InitialBytes | fwcutter/md5.c:146-149 | the start words are the bytes 01 23 45 67 89 AB CD EF and then the same backwards, as RFC 1321, section 3.3 gives them |
| Md5Suite.AlphabetDigest | fwcutter/md5.c:57-138 | the digest of the 26 letters a to z is the one in the test suite of RFC 1321, section A.5, which takes every step, constant and shift |
| SpromCrc.TableIsClocks | ssb_sprom/utils.c:109-146 | all 256 table entries are eight clocks of the shift register |
| SpromCrc.RegisterIsRemainder | ssb_sprom/utils.h:34-34 | the register after any data is a remainder below degree 8 of the message polynomial divided by x^8 + x^7 + x^6 + x^4 + x^2 + 1, lowest bits first |
| SpromCrc.RemainderIsRegister | ssb_sprom/utils.h:34-34 | and the only one: any remainder below degree 8 is the register's polynomial, and no other register has that one |
| Polynomials.RemainderUnique | ssb_sprom/utils.h:34-34 | division by a polynomial leaves one remainder below its degree |
| SpromCrc.ValidResidue | ssb_sprom/ssb_sprom.c:512-527 | an image is valid exactly when the register from 0xFF over all its bytes, checksum included, ends at 0x9F |
| SpromCrc.Detected | ssb_sprom/ssb_sprom.c:512-527 | a corrupted valid image stays valid exactly when the register over the flipped bits alone is zero |
| SpromCrc.OddErrorsDetected | ssb_sprom/ssb_sprom.c:512-527 | every odd total number of flipped bits is noticed, in an image of any length |
| SpromCrc.BurstsDetected | ssb_sprom/ssb_sprom.c:512-527 | every error within eight consecutive bits is noticed, anywhere in the image and its checksum |
| SpromCrc.RegisterLinear | ssb_sprom/utils.c:145-145 | the register is linear in its start value and the data |
| SpromCrc.OddCountsOnes | ssb_sprom/utils.c:109-146 | the parity used for odd errors is that of the number of ones |
| Sprom.Tool.Crc | ssb_sprom/ssb_sprom.c:283-293 | the loop over the table computes the register's checksum |
| Sprom.Tool.ValidateInput | ssb_sprom/ssb_sprom.c:512-527 | an error is reported exactly for images that are not valid, unless forced |
| Sprom.Tool.ModifyValue | ssb_sprom/ssb_sprom.c:343-400 | the bytes in place become the specified ones: those of the first entry with the bit of the image's revision and the right kind, if there is one; a raw parameter sets its byte; nothing else changes |
| Sprom.Tool.ModifySprom | ssb_sprom/ssb_sprom.c:402-423 | all set parameters are applied in order, the image is valid afterwards whatever it was before, and untouched if nothing was set |
| Sprom.Tool.DisplayValue | ssb_sprom/ssb_sprom.c:425-495 | what is shown of a value, read from the first entry with the bit of the image's revision and the right kind; silence for one the revision does not have and the exit for a length that cannot be printed are told apart |
| Sprom.LocateItemRev | ssb_sprom/ssb_sprom.c:239-260 | the first entry for a revision and a kind of value |
| Sprom.LocatedIsFirst | ssb_sprom/ssb_sprom.c:357-361 | what is located for the bit of a revision is the first entry that has the bit of that number in its mask and is of that kind, and nothing if there is none, for revisions below 32 (an image that is read has one of 0 to 5 or 8) |
| Sprom.WrittenBytes | ssb_sprom/ssb_sprom.c:363-397 | which byte of the image holds which byte of a value that is set: words low-order byte first, MAC addresses and country codes exchanged in pairs |
| Sprom.DisplayedBytes | ssb_sprom/ssb_sprom.c:443-494 | and which bytes are shown where |
| Sprom.ReadBack | ssb_sprom/ssb_sprom.c:343-400 | whatever was there before, a value that has been set is shown as asked for exactly when it fits, for every length |
| Sprom.FieldFits | ssb_sprom/ssb_sprom.c:363-373 | for entries of 4, 5 and 8 bits whose mask is n ones at their shift, the values that fit are those below 2^n and below the size that is printed |
| Sprom.WriteStaysInside | ssb_sprom/ssb_sprom.c:363-397 | setting any value changes no byte outside its entry; the bits of its word outside the mask are what they were, or-ed with those bits of the shifted value that are outside |
| Sprom.WriteKeepsOthers | ssb_sprom/ssb_sprom.c:363-397 | a value in other bytes, or in other bits of the same word on which the shifted value has none, is shown as before |
| Sprom.OtherBits | ssb_sprom/ssb_sprom.c:363-373 | the bits of another entry in the same word are what they were, or-ed with those of the shifted value that lie on them |
| Sprom.SetThenShow | ssb_sprom/ssb_sprom.c:402-495 | the buffer that modify_sprom leaves after any run of parameters is valid, and a value set in it, which no later parameter and not the checksum overwrites, is displayed as asked for exactly when it fits |
| Sprom.SealedKeeps | ssb_sprom/ssb_sprom.c:416-420 | the new checksum disturbs no value outside its byte |
| SpromText.HexdumpSprom | ssb_sprom/ssb_sprom.c:271-281 | the text is two hexadecimal digits a byte |
| SpromText.DigitsInOrder | ssb_sprom/ssb_sprom.c:271-281 | the high digit of a byte comes first |
| SpromText.ParseInput | ssb_sprom/ssb_sprom.c:529-579 | the pairs behind the first colon fill the front of the buffer of 450 bytes; 440 bytes when at least 300 characters follow and 128 otherwise, the revision from the last byte but one, or the error; a write would leave the buffer exactly when more than 900 characters follow the colon |
| SpromText.DumpReadsBack | ssb_sprom/ssb_sprom.c:306-318 | text that was written parses to the same image and size, bare or behind a prefix with a colon, and never leaves the buffer |
| TextPatcher.Patcher.AddText | debug/libb43.py:383-398 | which numbers are found, and that the text goes in front of that original line, behind what was added there before |
| TextPatcher.Patcher.DelLine | debug/libb43.py:374-381 | which numbers are found, and that exactly that line is marked |
| TextPatcher.Patcher.GetText | debug/libb43.py:366-372 | the text is, for each original line in order, what was added in front of it and the line unless deleted |
| TextPatcher.RunEdits | debug/libb43.py:337-398 | any run of edits with non-negative numbers yields the text that the edits describe line by line, in terms of the original's numbers |
| TextPatcher.EditsCommute | debug/libb43.py:374-398 | neighbouring edits may change places unless both add to the same line |
| TextPatcher.FindsOriginal | debug/libb43.py:388-391 | a non-negative number always finds the original line, whatever was added |
| TextPatcher.FindsAdded | debug/libb43.py:388-391 | the number -1 finds the first added line instead |
| TextPatcher.AddTwice | debug/libb43.py:383-398 | on a text of one line, adding in front of line -1 fails at first and succeeds after another addition, in front of the line added |
| FwConv.MergeSection | disassembler/brcm80211-fwconv:147-195 | the written header and image are those of the merged sections, or the error: no such section, more than one, bad header |
| FwConv.MergedLayout | disassembler/brcm80211-fwconv:161-187 | when header and image agree, the sections are laid out contiguously at prefix sums, and each slices out its contents |
| FwConv.MergedSize | disassembler/brcm80211-fwconv:178-185 | the new image is as long as its header says exactly when no non-empty section but the replaced one reaches beyond the old one |
| FwConv.HeaderDisagrees | disassembler/brcm80211-fwconv:178-185 | merging section 0 of an image of one byte, whose other section claims two, writes a header that ends one byte behind the image |
| FwConv.ExtractMerged | disassembler/brcm80211-fwconv:122-145 | extracting from the merged files gives the new data for the merged index, and for every other index, repeated or not, the old contents of its first section by offset |
| FwConv.ExtractIsFirst | disassembler/brcm80211-fwconv:122-145 | before the merge it gives the contents of the first section with the index in the file |
| FwConv.OthersKept | disassembler/brcm80211-fwconv:122-187 | so merging leaves what another index extracts exactly when these two sections hold the same, which they always do if the index occurs once |
| FwConv.FirstChanges | disassembler/brcm80211-fwconv:122-187 | a header with an index that occurs twice, for which they differ |
| FwConv.HeaderBack | disassembler/brcm80211-fwconv:59-92 | parsing undoes generating on 32-bit fields, up to the sorting that parsing adds |
| FwConv.SectionFields | disassembler/brcm80211-fwconv:59-74 | a section is its offset, its length and its index in that order, each least significant byte first |
| FwConv.SortIsStable | disassembler/brcm80211-fwconv:70-73 | the sorting used orders by key and keeps the order of equal keys and every section |
| FwConv.SameFirst | disassembler/brcm80211-fwconv:94-99 | either sorting finds the same section for an index that occurs once |
| FwConv.GenerateHeaderData | disassembler/brcm80211-fwconv:76-92 | twelve bytes a section, in order |
| FwConv.GetSectionByIndex | disassembler/brcm80211-fwconv:94-99 | the first section with the index |
| Initvals.DecodeEncode | disassembler/b43-ivaldump:60-78 | decoding a stream gives back the list of records it was made of |
| Initvals.RecordBytes | disassembler/b43-ivaldump:60-78 | the bytes of a record, most significant first, the size being the top bit of the register |
| Initvals.EncodeDecode | disassembler/b43-ivaldump:60-78 | whatever decodes is the stream of what it decodes to, so streams and lists correspond one to one |
| Initvals.DumpIvs | disassembler/b43-ivaldump:60-78 | the variable-length loop decodes the stream or stops at a truncated record |
| Initvals.BuildIvs | fwcutter/fwcutter.c:270-322 | the cutter's stream and count for accepted input, which fits into the input's size, or the first error |
| Initvals.BuiltStreamDecodes | fwcutter/fwcutter.c:270-322 | the dumper gives back exactly the records of the cutter's input |
| Initvals.InputFields | fwcutter/fwcutter.c:286-303 | an input record is the register, the size and the value in that order, least significant byte first in the files marked so and most significant byte first in the others |
| Initvals.EncodedSize | fwcutter/fwcutter.c:305-314 | the stream takes four or six bytes a record |
| Initvals.Section.Assemble | assembler/initvals.c:201-249 | the list holds the register writes of every operation in order, and the counter their number |
| Initvals.Section.Emit | assembler/initvals.c:251-331 | the header with the count and the raw records, or the error |
| Initvals.HeaderBytes | assembler/initvals.c:294-297 | the header is an i, version 1, two zeros and the number of records, most significant byte first |
| Initvals.SectionAssembles | assembler/initvals.c:251-281 | a section assembles exactly when no direct register write has an offset above 0x7FFF, and its file decodes to its writes |
| IvEffects.OpStores | assembler/initvals.c:88-199 | the register writes of an operation store its value where it says, on a device whose PHY, radio, shared memory and template memory are reached through a selecting and a data register |
| IvEffects.FileStores | assembler/initvals.c:201-281 | writing the records of an assembled file to any such device, in order, does what the operations of the section are for, cutting to 16 bits included |
| IvEffects.HalvesInOrder | assembler/initvals.c:117-143 | a 32-bit value is stored in shared memory low half first at multiples of four, and high half first at addresses two behind one |
| Initvals.DumpAssemblesBack | disassembler/b43-ivaldump:40-78 | assembling the dump of a file gives it back exactly when the header holds the number of records and no padding |

## Left out

- The scanner, the preprocessor and the text of a line: assembly text is an abstract syntax of mnemonics, operands and labels, and the grammar's checks on operand lists are part of `Lowering.ParseInsn`. Numbers, names and line information are taken as given.
- Command line handling, messages, warnings (among them the jump-before-return check and the limit of 4096 instructions), memory allocation, and file access: files are byte sequences.
- Assembler.Context.ResolveLabels: the output list is a sequence that the methods reassign rather than a linked list on the heap, as its nodes are never shared; list surgery on the heap is `KernelList` and `Disassembler`. Addresses are unbounded, so the sign test on an address of 2^31 or more is not modelled.
- Linker.ElisionShifts: a jump target written as a raw number or an immediate is not a label and is not lowered when the start jump is dropped, as in the code.
- Disassembler.Context.GetLabelAt: the list head, which the code reads as if it were a statement, is a node that is no label.
- Operand lists and the merging of extensions into opcodes are values, not arrays changed in place; the operand form for plain addresses, which the parser never builds, is left out.
- Pseudo.JandMeaning: the meaning of instructions is given for OR, ORX, JAND, JNAND, JZX and JNZX on a function from operand fields to values; everything else the device does is not in the repository.
- Md5.Context.Update: the union of bytes and words in the context is two arrays, the words filled by byteReverse before they are used, so that overwriting the bytes by the words on a big-endian machine is not visible. The comparison of the digest with the list of known files is left out.
- Sprom.Tool.ModifySprom: the table of entries is a parameter, its rows being data; a parameter's value, MAC address and country code are separate fields rather than a union, values are located by kind and not by option name, and the binary mode is left out.
- SpromText.ParseInput: the model stops with an error where the code would write behind its buffer.
- TextPatcher.Patcher.GetText: the comparison of the MD5 sum of the text, splitting into lines and joining them are left out.
- FwConv.ExtractMerged: merges whose header and image disagree (`MergedSize`) are excluded, as the contents behind the section that is cut off have moved away from their offsets.
- Initvals.BuildIvs: swapping the bytes of little-endian input in place is part of reading a record. Output beyond the records, the section name and the file name are left out.
- The firmware cutter's table of known files and its extraction of microcode and PCM data, the debugging library's access to a device, and the symbol tables of the beautifier: data and input or output.
