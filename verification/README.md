# Verified model of the multi-core checkpoint restorer

The repository is a bare-metal restorer: every hart of a RISC-V machine runs it at power-on, finds its
own part of a checkpoint image, loads its CSRs and floating-point, vector and integer registers from
there, and jumps into the checkpointed program. This project models two of its parts in Dafny and
proves properties of the models.

**The multi-hart restore.** `Machine` is the slice of a RISC-V hart the assembly runs on, as a function
(`Run`) and as an object that executes instruction by instruction (`Core`); accesses to the
floating-point and vector units trap when mstatus has them off. `RestorePrograms` holds the routines of
`src/restore.S` as programs of that machine. `Jal` is the jump encoder against the decoder of the RISC-V
Unprivileged ISA (sections 2.3 and 2.5). `DecodeRestore` is the address arithmetic and the decisions of
one hart. `Protocol` puts up to 128 harts together: every access to a shared variable (bss words, the two
test-and-set locks, the counter, the release flag, the patched code slots, the console, the timer cells)
is one atomic step, and a run is any sequence of (hart, register file the C code happens to have)
choices. `Image` says which word of the checkpoint image each part of a hart's state is to hold, by
offset and register or CSR number, without the layout code. `ProtocolInvariant` and `ProtocolSteps`
prove an inductive invariant; `RestoreTheorems`, `ConsoleTheorems` and `Progress` draw the conclusions
for every reachable state of every run, in terms of the image.

**The formatter.** `src/printf.c` is modelled twice: as a function on strings (`Rendering`, with integer
fields in `Ntoa` and digit strings in `Digits`) and as the loops of the program over a 32-byte scratch
array, a format index and a sink (`Sinks`, `Ntoa`, `Printf`, `Ftoa`). Every loop is proved against the
function. `FieldTheorems`, `FormatTheorems` and `ConversionTheorems` then say what the function means:
closed forms of a field, when width, precision and `#` are honoured, composition of formats, what each
directive prints from its text and its argument, and round trips between printing and reading.

Conventions: a machine word is a natural number below 2^64 and wrap-around is written out; memory is
sequentially consistent; CSRs are plain registers except that frm is a field of fcsr; variadic arguments
are 64-bit slots or strings; plain `char` is unsigned, as in the RISC-V calling convention; signed
negation wraps, so the most negative value prints its magnitude.

Where the code does not do what its text suggests, the model follows the code and a theorem gives the
exact condition:

- The JAL range check looks at a distance already cut to 32 bits and its failure is not fatal:
  `Jal.PatchReachesTarget` says exactly when the jump lands, `Jal.GuardIsTruncated` how the check
  relates to that, `Jal.GuardAcceptsUnreachable` gives an input the check wrongly accepts.
- `release_restore` is set before MTIME is written, so nothing is claimed about the time a waiter sees.
- All harts finish only if the CPU count in the image is between 0 and the number of harts
  (`Progress.FinishesExactlyWhen`).
- `#` can drop significant digits (`FieldTheorems.AlternateKeepsValueExactlyWhen`,
  `FieldTheorems.AlternateCanLoseDigits`).
- `-` disables zero padding to a precision (`FieldTheorems.PrecisionHonouredExactlyWhen`), and zero
  padding stops at 32 characters (`FieldTheorems.WidthHonouredExactlyWhen`).

`dafny verify dfyconfig.toml` checks the whole project.

## Model

| member | source | states |
|---|---|---|
| Jal.DecodeFields | src/decode_restore.c:19-29 | the bit-field layout and the ISA's decoder agree: opcode, rd and the four immediate fields of any assembled word read back |
| Jal.RawImmOfGenerated | src/decode_restore.c:40-51 | decoding the word of `generate_jal` gives JAL, the given rd and twice the 20-bit halfword count |
| Jal.PatchReachesTarget | src/decode_restore.c:236-252 | for every slot address and target, the patched word is a JAL to x0; it lands on the target if and only if the signed 64-bit distance is even and in [-2^20, 2^20), and then its immediate is that distance |
| Jal.GuardIsTruncated | src/decode_restore.c:241-248 | the range check passes whenever the jump can reach; for an even distance that passes it, the jump reaches if and only if the distance fits 32 bits |
| Jal.GuardAcceptsUnreachable | src/decode_restore.c:241-243 | a distance of 2^32 passes the check although the jump misses |
| Machine.Core.Step | src/restore.S:22-35 | one instruction on a hart object has exactly the effect, or the trap, of the instruction's meaning |
| Machine.Core.Execute | src/restore.S:22-35 | straight-line code on a hart object traps if and only if its meaning does, and otherwise leaves the state it denotes |
| Machine.TurnsFsOn | src/restore.S:28-29 | setting the FS mask makes mstatus.FS Dirty whatever mstatus held |
| Machine.TurnsVsOn | src/restore.S:65-66 | setting the VS mask makes mstatus.VS Dirty whatever mstatus held |
| Machine.WithFrmMeaning | src/restore.S:22-33 | writing frm replaces bits 7 to 5 of fcsr and keeps the accrued exceptions and everything above |
| RestorePrograms.RestoresOneCsr | include/csr.h:57-62 | one restore step writes the checkpoint word of a CSR to it and disturbs only t1 and t2, or traps exactly as the write does |
| RestorePrograms.RestoresBlock | include/csr.h:21-51 | a whole list of ordinary CSRs is restored from any state, and no other CSR changes |
| RestorePrograms.RestoredList | include/csr.h:21-39 | the list the program is built from holds exactly the CSR numbers of the source, no fewer and no more |
| RestorePrograms.HypervisorList | include/csr.h:41-51 | the same for the hypervisor list |
| RestorePrograms.RestoresCsrs | src/restore.S:21-35 | from any mstatus, `restore_csr_vector` never traps; fcsr gets its own word with the rounding mode of the frm word, every CSR of the set given by number (0x300 and 0x302 to 0x306 through satp at 0x180) its word, and the rest is untouched |
| RestorePrograms.RestoresHypervisorCsrs | src/restore.S:51-56 | `rvh_csr_restore` never traps, restores every CSR of the hypervisor set given by number, and changes no other |
| RestorePrograms.RestoresFloats | src/restore.S:170-215 | every `fld` runs with FS on, f0 to f31 hold their checkpoint words, and mstatus ends as it was |
| RestorePrograms.RestoresVectors | src/restore.S:58-146 | every vector instruction runs with VS on, v0 to v31 hold their checkpoint words, vl and vtype come from the checkpoint, and mstatus ends as it was |
| RestorePrograms.RestoresIntsForMret | src/restore.S:217-251 | x1 to x31 hold their checkpoint words at the `mret`, sp loaded last, and nothing else changes |
| RestorePrograms.RestoresIntsForJump | src/restore.S:253-284 | all registers but x5, x6 and sp are loaded, and sp still points at the register area |
| RestorePrograms.SelectsSlot | src/restore.S:297-303 | `jump_to_core` computes the address of the slot of its own mhartid and clobbers only x5 and x6 |
| DecodeRestore.RelocatedField | src/decode_restore.c:107-134 | without wrap-around each field of a hart's layout is the common field shifted by the hart's region, and ends inside it |
| DecodeRestore.HartsAreSeparate | src/decode_restore.c:107-134 | the layouts of two harts denote disjoint byte ranges, the indexed mtimecmp word included, and keep the order of the fields |
| DecodeRestore.PatchesOwnSlot | src/decode_restore.c:236-240 | the patched word is the last of the slot `jump_to_core` selects for that hart and lies in no other hart's slot |
| DecodeRestore.CheckpointExtCheck | src/decode_restore.c:57-105 | the flag updates through pointers: from cleared flags they give the four decisions; otherwise what may be left standing |
| DecodeRestore.ExtCheckMeaning | src/decode_restore.c:71-104 | the four decisions in terms of single misa and mstatus bits, the FS and VS fields being non-zero, and the low 53 bits of the mode being 3 |
| DecodeRestore.RestoresHypervisorPart | src/decode_restore.c:257-259 | the conditional H restore never traps and restores the H CSRs |
| DecodeRestore.RestoresVectorPart | src/decode_restore.c:261-264 | the conditional V restore never traps, restores the vector state and keeps mstatus and what was restored before |
| DecodeRestore.RestoresFloatPart | src/decode_restore.c:266-269 | the conditional F restore never traps, restores f0 to f31 and changes no CSR |
| DecodeRestore.RestoresCsrPart | src/decode_restore.c:271-272 | after the last CSR restore the whole checkpointed state but the integer registers is in place, mstatus and mepc included |
| DecodeRestore.RestoreHartState | src/decode_restore.c:257-272 | the four calls on one hart object, for every checkpoint and every combination of extensions: no trap, and the checkpointed state |
| Image.ReadsArePlain | src/decode_restore.c:107-134 | if the image fits, every word the restorer takes for a hart (registers, CSRs, indexed mtimecmp, pc) is in memory at the plain sum of base, hart number times region size, field and offset |
| Image.LayoutOfHart | src/decode_restore.c:192-197 | each address a hart uses is the field of the same name of the common layout moved by its own hart number |
| Image.CpuCountFromImage | src/decode_restore.c:223 | the CPU count of a hart is the signed low half of its own csr_reserve word in the image |
| Image.CapsFromImage | src/decode_restore.c:225-227 | the four decisions of a hart are those of the misa, mstatus and mode words of its own region and of the host |
| Image.StateFromImage | src/decode_restore.c:257-272 | what the restore routines leave in a hart is, number by number, what its own region of the image holds |
| ProtocolInvariant.PowerOnExists | src/gcpt.c:66-77 | every configuration of up to 128 harts has a power-on state, so the statements about runs are not empty |
| ProtocolInvariant.InitEstablishes | src/gcpt.c:66-77 | any power-on state with `bss_lock` zero, all other bss and all registers arbitrary, satisfies the invariant |
| ProtocolInvariant.EntersSlot | src/restore.S:253-303 | loading the registers and jumping through `jump_to_core` enters the slot of the hart's own number with every register but x5, x6 and sp restored |
| ProtocolInvariant.SlotJump | src/restore.S:286-294 | the fourth word of a slot, once patched, leaves the hart finished with all registers restored at the address the patched jump denotes |
| ProtocolSteps.FetchesOwnSlot | src/restore.S:286-309 | a hart in the slot area fetches from its own slot, whatever the others have patched |
| ProtocolSteps.LockStep | include/spinlock.h:41-61 | every step of every hart keeps: each lock word is zero or -1, and it is taken if and only if exactly one hart is in its critical section |
| ProtocolSteps.TicketStep | src/decode_restore.c:278-282 | every step keeps: the counter equals the harts past their `atomic_add`, and their tickets are 1 to that number, one each |
| ProtocolSteps.ReleaseStep | src/decode_restore.c:282-290 | every step keeps: the flag is set if and only if a hart whose ticket releases is past setting it |
| ProtocolSteps.SlotsStep | src/decode_restore.c:236-252 | every step keeps: each slot holds its assembled loads and its fourth word is the hart's patch from the patching step on |
| ProtocolSteps.InvStep | src/decode_restore.c:214-297 | every step of every hart keeps the whole invariant, whatever registers the compiled caller holds |
| ProtocolSteps.InvReachable | src/decode_restore.c:214-297 | the invariant holds in every reachable state of every interleaving |
| RestoreTheorems.FinishedHartIsRestored | src/decode_restore.c:214-297 | under any interleaving, a finished hart holds, by register and CSR number, the words of its own region of the image: x1 to x31, every restored CSR, fcsr with the frm word in it, floating-point, vector and hypervisor state where image and host have them, and its mtimecmp; it is at the checkpointed mepc, or, for a machine-mode checkpoint, at the checkpointed pc if and only if a JAL at core0 + 16h + 12 can reach it |
| RestoreTheorems.FinishedHartInPlainMemory | src/decode_restore.c:192-197 | if the image fits, each of these is the word of memory at field + offset + h * size + base, without wrap-around |
| RestoreTheorems.NoHartFaults | src/decode_restore.c:257-296 | in no run does a restore routine trap or a slot fetch go astray |
| RestoreTheorems.MutualExclusion | include/spinlock.h:41-61 | at most one hart is in the critical section of each of the two nested locks, and then its word is -1 |
| RestoreTheorems.CounterCountsArrivals | src/decode_restore.c:278-283 | no increment is lost: the counter is the number of arrivals, every number up to it was drawn by exactly one hart, and that is the number the hart compares |
| RestoreTheorems.ArrivalsAreOrdered | src/decode_restore.c:278-281 | the arrival messages on the console read 1, 2, 3 and so on in every interleaving |
| RestoreTheorems.GateProtectsBss | src/gcpt.c:69-77 | until hart 0 opens the gate no other hart changes anything; at that moment every shared word is zero; afterwards nobody clears again |
| RestoreTheorems.BarrierHolds | src/decode_restore.c:278-296 | if the csr_reserve words of all harts hold k, no hart is past the barrier before k harts have counted themselves, each with CSRs, registers and mtimecmp as in its region of the image |
| RestoreTheorems.OneReleaser | src/decode_restore.c:282-290 | if the csr_reserve words of all harts hold k, the releasing hart is the k-th to arrive, it is unique, and it finds the flag clear, so the flag and MTIME are written once |
| RestoreTheorems.ReleaserRestoresMtime | src/decode_restore.c:286-290 | in every run, once the releasing hart is past its restore, MTIME is the mtime word of that hart's region of the image and is not written again |
| RestoreTheorems.LatchStaysOpen | src/decode_restore.c:285-288 | once set, the flag stays set in every continuation, so later arrivals pass |
| ConsoleTheorems.MessagesStep | src/decode_restore.c:243-248 | every step keeps: each hart has printed each message if and only if it is past it, the bad-offset one only if its distance cut to 32 bits is out of range |
| ConsoleTheorems.HartsReportExactlyWhen | src/decode_restore.c:229-248 | in every run a hart reports a bad offset, and signals it, if and only if its checkpoint is a machine-mode one whose truncated distance from core0 + 16h + 12 is out of range; each hart greets first and announces its arrival |
| Progress.ProductiveDecreases | include/spinlock.h:48-55 | a step is either a re-read that changes nothing or lowers a lexicographic measure, failed trylocks included |
| Progress.BoundedProgress | src/decode_restore.c:278-296 | no schedule, however long, makes more productive steps than the measure of its first state |
| Progress.BoundedFromPowerOn | src/gcpt.c:66-77 | from power-on that is fewer than (32 n + bytes of bss + 1)(n + 1) steps |
| Progress.SomebodyMoves | src/decode_restore.c:278-290 | deadlock freedom: while a hart is unfinished, some hart has a productive step, nested locks and barrier included |
| Progress.CanFinish | src/decode_restore.c:278-296 | every run extends to one in which all harts finish |
| Progress.FinishesExactlyWhen | src/decode_restore.c:223 | if the csr_reserve words of all harts hold k, all harts can finish if and only if k is between 0 and the number of harts |
| Words.ClearNextByte | src/utils.c:10-15 | storing a zero at byte k of a word whose lower bytes are zero leaves one more low byte zero |
| Words.ClearedWord | src/utils.c:10-15 | a 64-bit word all of whose eight bytes were cleared is zero |
| Digits.DigitsConserveValue | src/printf.c:284-304 | read back, the digits of the do-while loop denote the value modulo base^room, for every base up to 16 |
| Digits.DigitsAreCanonical | src/printf.c:294-301 | all characters are digits of the base, there is no leading zero unless the value is 0 or was cut off, and 0 prints as one digit |
| Digits.RoomIrrelevant | src/printf.c:297-301 | a scratch buffer larger than the number needs changes nothing |
| Digits.ScratchHolds | src/printf.c:47-52 | 32 places hold every 64-bit value in bases 8, 10 and 16, and exactly the 32-bit ones in base 2 |
| Digits.DecDenotes | src/printf.c:284-304 | decimal text consists of digits, has no leading zero, and denotes its 64-bit value |
| Digits.DigitsAreCased | src/printf.c:299 | letters among the digits are upper case if and only if asked for |
| Digits.NumeralDenotes | src/printf.c:284-304 | the text of a 64-bit value in base 2, 8, 10 or 16: digits of the base in the requested case, denoting the value, no leading zero, at most 22 places (32 in base 2) |
| Sinks.Sink.Out | src/printf.c:132-157 | one output call stores below the limit, forwards all but NUL to the console, or does nothing |
| Sinks.Sink.Emit | src/printf.c:132-157 | a character passed at the running index extends the text the sink shows |
| Sinks.VisibleDropsNuls | src/printf.c:152-158 | text without NUL is forwarded to the console as it is, and no NUL ever is |
| Ntoa.OutRev | src/printf.c:202-226 | prints the scratch contents back to front between the two paddings |
| Ntoa.HandleHash | src/printf.c:246-265 | the in-place trimming and prefixing of the alternate form, never past the scratch buffer |
| Ntoa.GenerateDigits | src/printf.c:296-301 | the digit loop leaves exactly the digits of the value, low digit first, at most 32 |
| Ntoa.NtoaFormat | src/printf.c:230-280 | for all flags, widths and precisions the scratch length stays within 32 and the field printed is the rendered one |
| Ntoa.NtoaLong | src/printf.c:284-329 | the integer conversions, of both widths, print the rendered field for every value, base, width and precision |
| FieldTheorems.FieldShape | src/printf.c:230-280 | without `#` a field is spaces, sign, zeros, digits, spaces, each count in closed form; the sign is dropped exactly when zeros and digits fill the buffer |
| FieldTheorems.StandardExactlyWhen | src/printf.c:230-280 | the field is the one the C standard asks for if and only if it is not zero-padded beyond 32 characters |
| FieldTheorems.WidthHonouredExactlyWhen | src/printf.c:202-243 | for every flag combination at least `width` characters come out if and only if the field is left-justified, not zero-padded, or at most 32 wide; never more than the larger of 32 and the width |
| FieldTheorems.PrecisionHonouredExactlyWhen | src/printf.c:232-239 | at least `prec` digits come out if and only if the number has them or zeros are allowed and fit |
| FieldTheorems.TrimKeepsValueExactlyWhen | src/printf.c:247-252 | dropping the top t of zero-padded digits keeps their value if and only if they are all padding |
| FieldTheorems.AlternateShape | src/printf.c:246-277 | with `#` and room, the field is sign, prefix and digits between its paddings |
| FieldTheorems.AlternateKeepsValueExactlyWhen | src/printf.c:246-265 | the digits after the prefix denote the value if and only if the padded length differs from the width or the trimmed places hold padding zeros |
| FieldTheorems.AlternateCanLoseDigits | src/printf.c:247-252 | `%#2x` of 0x12 prints only the prefix |
| Printf.EvaluateFlags | src/printf.c:604-615 | the flag loop reads the longest run of flag characters into the flag set |
| Printf.Atoi | src/printf.c:191-198 | reads the digits at the index modulo 2^32 and moves the index behind them |
| Printf.EvaluateWidth | src/printf.c:617-632 | a literal width, or a star argument whose sign means left-justified |
| Printf.EvaluatePrecision | src/printf.c:634-647 | a precision, absent, literal, or from a star argument with negatives read as zero |
| Printf.EvaluateLength | src/printf.c:649-683 | the length modifiers, single and doubled |
| Printf.FormatInteger | src/printf.c:687-759 | the integer conversions as the program runs them print the field that ConversionTheorems.IntegerFieldLayout lays out from the number |
| Printf.FormatChar | src/printf.c:779-797 | the loops of `%c` print the field that ConversionTheorems.CharDirective gives |
| Printf.Strnlen | src/printf.c:174-179 | the length of a string up to a limit, as an `unsigned int` |
| Printf.FormatText | src/printf.c:799-823 | the loops of `%s` print the field that ConversionTheorems.TextFieldExactlyWhen gives |
| Printf.FormatPointer | src/printf.c:825-841 | `%p` prints the field that ConversionTheorems.PointerDirective gives |
| Printf.FormatDirective | src/printf.c:599-852 | one directive prints its rendering, consumes exactly its arguments and moves strictly forward |
| Printf.Core | src/printf.c:580-860 | the whole loop and the terminating NUL, for buffer, null and console outputs |
| Printf.Vsnprintf | src/printf.c:903-906 | for every rendered format, arguments and count: the return value is the text's length regardless of count; the buffer gets the longest prefix that fits in count - 1, then a NUL; nothing else in it changes; count 0 writes nothing |
| Printf.Vprintf | src/printf.c:896-900 | the console shows the text, exactly if it has no NUL and otherwise without them, and its length is returned |
| FormatTheorems.DirectiveStopsInside | src/printf.c:599-852 | a complete directive means the same whatever format and arguments follow it |
| FormatTheorems.RenderAppend | src/printf.c:590-853 | a complete format prints the same whatever follows, and leaves what follows exactly the arguments it did not use |
| FormatTheorems.Compositional | src/printf.c:590-853 | rendering f followed by g with both argument lists is rendering f then g, each with its own |
| FormatTheorems.DoubledRendersAsItself | src/printf.c:843-846 | a string with every percent sign doubled prints as itself |
| FormatTheorems.AtoiReadsValue | src/printf.c:191-198 | any run of digits reads as the number it denotes modulo 2^32, stopping at the first non-digit |
| FormatTheorems.AtoiInvertsDecimal | src/printf.c:191-198 | decimal text of every 32-bit value reads back as the value |
| FormatTheorems.StarMeansLiteral | src/printf.c:617-632 | for all flags, non-zero width arguments and tails that do not start with a digit, `*` renders as the decimal text of the argument, with `-` before it if it is negative |
| FormatTheorems.ArgumentsAreCut | src/printf.c:724-756 | every conversion reads its argument cut to the width its length modifiers select: congruent to the slot and in the range of that type |
| FormatTheorems.UnsignedDenotes | src/printf.c:742-756 | `%u`, `%x`, `%X`, `%o` and `%b` print digits of their base that denote the argument, binary modulo 2^32 |
| FormatTheorems.UnsignedRoundTrip | src/printf.c:742-756 | `%u` prints canonical decimal text, and `_atoi` undoes it for every 32-bit value and any non-digit behind |
| FormatTheorems.SignedRoundTrip | src/printf.c:733-736 | `%ld` prints text that denotes its argument, for every 64-bit value |
| FormatTheorems.HexRoundTrip | src/decode_restore.c:151-165 | `%016lx`, as the register display uses it, prints exactly 16 hexadecimal digits that denote the value |
| FormatTheorems.PointerRoundTrip | src/printf.c:825-841 | `%p` prints exactly 16 hexadecimal digits that denote the pointer |
| ConversionTheorems.ParsesAsWritten | src/printf.c:604-683 | a directive written from flags, width, precision and length modifier parses to exactly these: one flag bit per flag character, the decimal values of the numbers, the length bits of the modifier, whatever follows |
| ConversionTheorems.RendersAsWritten | src/printf.c:599-852 | and renders as its conversion, then the rest of the format |
| ConversionTheorems.LayoutIsStandard | src/printf.c:230-280 | the closed form of an integer field is the layout of the C standard whenever it fits the scratch space, with digits filled up to the precision unless left-justified |
| ConversionTheorems.IntegerFieldLayout | src/printf.c:687-759 | an integer field of any flags, width and precision is laid out from the number itself: its digits in the base and case of the conversion, a sign for signed conversions only, zeros for `0` only without a precision |
| ConversionTheorems.IntegerDirective | src/printf.c:687-759 | an integer directive of any flags, width, precision and length modifier prints its argument, cut to the type of the modifier, in that layout and takes one argument |
| ConversionTheorems.SignedConversionDenotes | src/printf.c:724-741 | `%d` and `%i` with every length modifier print text that denotes the argument as its type reads it, with a minus sign if and only if it is negative |
| ConversionTheorems.DecimalRoundTrip | src/printf.c:737-740 | `%d` and `%i` print the 32-bit signed value of every argument |
| ConversionTheorems.UnsignedConversionDenotes | src/printf.c:742-756 | unsigned conversions with every length modifier print canonical digits, in the case of the conversion, that denote the argument as its type reads it |
| ConversionTheorems.AlternateDirective | src/printf.c:246-265 | `%#x`, `%#X`, `%#o` and `%#b` print 0x, 0X, 0 or 0b and the digits, and no prefix for zero |
| ConversionTheorems.PointerDirective | src/printf.c:825-841 | `%p` prints upper-case digits zero-padded to 16 places whatever its width, under any precision and any flags but `#`, a sign flag taking one place |
| ConversionTheorems.TextFieldExactlyWhen | src/printf.c:799-823 | `%s` prints the first min(precision, length) characters with max(0, width - n) spaces before them, or behind under `-`, if and only if a precision is given, the string is shorter than 2^32, or its length modulo 2^32 reaches the width |
| ConversionTheorems.TextDirective | src/printf.c:799-823 | so does a whole `%s` directive of any flags, width and precision, and it takes one argument |
| ConversionTheorems.StringRendersAsItself | src/printf.c:811-814 | `%s` prints every string as it is |
| ConversionTheorems.CharDirective | src/printf.c:779-797 | `%c` prints the low byte of its argument with max(0, width - 1) spaces before it, or behind under `-` |
| ConversionTheorems.OtherDirective | src/printf.c:843-851 | a percent sign or a character that is no conversion prints itself and takes no argument |
| ConversionTheorems.StarZeroMeansAbsent | src/printf.c:622-632 | a star width of zero means no width |
| ConversionTheorems.StarPrecisionMeansLiteral | src/printf.c:642-646 | a star precision means the decimal text of its argument, or a lone point if that is not positive |
| Ftoa.AppendDigits | src/printf.c:416-440 | the two digit loops append as many digits as the buffer takes |
| Ftoa.EmitFixed | src/printf.c:380-440 | from whole part and fraction, the scratch buffer is the decimal text backwards, as much of it as fits |
| Ftoa.FractionDenotes | src/printf.c:414-432 | the text after the point has exactly the requested number of digits and denotes the fraction |
| Ftoa.FixedDenotes | src/printf.c:406-440 | the text reads back: the whole part, a point, and as many fraction digits as requested that denote the fraction |
| Ftoa.NothingIsCut | src/printf.c:380-440 | with up to 20 fraction digits and a 31-bit whole part, nothing is cut off |
| Ftoa.Ftoa | src/printf.c:442-465 | zero padding, sign and output of a fixed-point field |
| Ftoa.FixedIsStandardExactlyWhen | src/printf.c:380-465 | up to 20 fraction digits the field is the decimal text laid out as the C standard asks, if and only if zero padding stays within 32 characters |

## Left out

- RestoreTheorems.FinishedHartIsRestored: describes the hart when control leaves the restorer, before the effect of `mret` itself on mstatus; traps, interrupts and what the resumed program then does to memory still used by slower harts are not modelled.
- RestoreTheorems.BarrierHolds: that the csr_reserve words of all harts agree is a hypothesis, because each hart reads its own; nothing is said about the time a waiter sees, because the flag is set before MTIME is written.
- Progress.CanFinish: says that a finishing continuation always exists and that progress is bounded; that a fair scheduler takes it is not formalised.
- RestorePrograms.RestoresVectors: the vector length granted by `vsetvl` is a parameter, because hardware defines it; WARL fields and CSR aliases other than frm in fcsr are not modelled.
- DecodeRestore.HartsAreSeparate: requires that the regions of all harts fit in 64 bits and each field in its region; the image format gives no other guarantee.
- Printf.Vsnprintf: requires a format whose directives are complete, whose arguments are present and of the right kind, and that has no floating-point directive; outside that the program reads past its format or its arguments. Wrap-around of the 64-bit output index is not modelled.
- ConversionTheorems.AlternateDirective: is stated without width and flags; with them the alternate form is given on the field by AlternateShape and AlternateKeepsValueExactlyWhen, because it can lose digits.
- ConversionTheorems.PointerDirective: excludes `#`, which on a pointer is the alternate form of AlternateShape.
- FormatTheorems.SignedRoundTrip: at the most negative value the C expression overflows; the model wraps there.
- Ftoa.EmitFixed: the whole part and the rounded fraction are given, with the fraction below its power of ten; the power table limits the precision to 41.
- Double arithmetic and rounding in `_ftoa`, and all of `_etoa`: IEEE arithmetic is not part of this model.
- Relaxed memory: steps are sequentially consistent, and `fence.i` is taken to make a patch visible.
- Atomicity: a restore routine that touches only its own hart's registers and read-only checkpoint memory is one step of the interleaving.
- The unlocked `printf` calls around each restore and in the extension check; their device writes would only add console interleaving.
- Protobuf decoding of header and layout, the null-layout default, the boot of a payload, trap handlers, the STOP_CPU and DISPLAY options, misa probing: header and layout are constants of a run.
- UART, CLINT and simulator signals as devices: the console is a list of messages or a string, the timer registers are cells.
- `sprintf_` and `fctprintf`: the same loop behind an unlimited buffer or a callback.
- `memcpy`, `memset`, the CSR name table, include/encoding.h: easy or plumbing.
