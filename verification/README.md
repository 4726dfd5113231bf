# FuzzedDataProvider, ASan activation and stack-variable lookup, modelled in Dafny

Three parts of LLVM's compiler-rt are modelled and proved here.

**FuzzedDataProvider** breaks a byte array up into values for a fuzz target. Bytes and strings come off the
front of the array, integers off the back.

- `Provider.dfy` is the class as it is written: an object with a position and a count of remaining bytes over a
  fixed buffer, the string loop, the 64-bit integer loop, and every `abort`. Each method is proved to do what
  `Calls.Step` says of its call, and by how far it moves each end of the window. `RunScript` makes the calls of
  a script one after the other and is proved to end where `Runs.Run` ends, so that what is proved of runs is
  proved of the object.
- `Calls.dfy` gives each call as a function of the remaining bytes; `EscapedStrings.dfy` and
  `RangedIntegers.dfy` hold the two decoders in their simple form, `Characters.dfy` the conversion of bytes to
  `char`, `MachineIntegers.dfy` the fixed-width arithmetic, `Bytes.dfy` the little-endian numbers. `Basics.dfy` holds what all files share.
- `Encoding.dfy` is the inverse: bytes that make a call give a chosen answer.
- `Runs.dfy` is about whole scripts of calls: round trip, exactly which answers can be given, locality,
  independence of the two ends, conservation, exhaustion and aborts.

**ASan activation** (`Activation.dfy`) is a class holding the globals that `AsanDeactivate` and `AsanActivate`
overwrite. Its invariant ties them, after any sequence of calls, to the settings that the sequence asks for.
The widths of the options, the shifts into a machine word and the checks that end the process are modelled.

**Stack-variable lookup** (`StackLookup.dfy`, `FrameDescriptions.dfy`) reads the text that the compiler leaves
about a frame and searches it for an offset. The text format has a writer here, so that the reader is proved
against it, and the whole way from the compiler's variables to the report is covered.

## Main results

- `Runs.ScriptRoundTrip`, `Runs.RestRoundTrip` and `Runs.AchievableIffLegal`: data can be written for any script
  and any legal answers, also when the script goes on to take all the rest, and a script that does not use up its
  data gives exactly the legal answers.
- `Runs.RunIsLocal`: a run that leaves bytes over depends on nothing but the bytes it took.
- `Runs.RunProjects`, `Runs.RunMerges`, `Runs.InterleavingIsFree`: the calls on the two ends do not see one
  another as long as they fit into the data together, up to the last byte.
- `Runs.RunConserves`: bytes are neither lost nor given out twice, and each answer is explained by the bytes of
  its own call alone.
- `EscapedStrings.InsertionOutcome` and `EscapedStrings.InsertionLengthensIff`: what any byte inserted at any place
  does to a terminated string. The promise that it lengthens the string holds exactly for a backslash that only
  backslashes follow up to the terminator, and for any other byte at the beginning of a token.
- `Provider.FuzzedDataProvider.RunScript`: the object goes through any script as `Runs.Run` says.
- `Provider.FuzzedDataProvider.ConsumeIntegralInRange` with `Calls.RangedCallIff`: the wrapping 64-bit computation,
  for every width and sign, gives the one integer of the range that is whole turns of the range away from the word,
  also when the data runs short.
- `Calls.StringCallIff`, `Calls.BoolCall`, `Calls.PickCallIff` and their neighbours: what each call answers, stated of
  the data alone.
- `Activation.SurvivesIff`, `Activation.ActivationRestores` and the invariant of `Activation.AsanRuntime`: which runs
  of activations and deactivations the process survives, and what is then in force. `Activation.OverriddenIff` says
  which register each flag reaches.
- `FrameDescriptions.ReadFrameIff`: which texts are read as frames, and as which.
- `StackLookup.FindsOwnerIffSpaced` and `StackLookup.LookupReportsFirst`.

## Where the code and its comments disagree

The model follows the code.

- The comment on `ConsumeRandomLengthString` (FuzzedDataProvider.h, lines 153-158) says that characters inserted
  into a string lengthen it. A byte inserted between the two backslashes of a pair cuts the string instead, and one
  inserted inside the terminator is swallowed. An inserted backslash pairs up with what follows it and cuts the
  string before its next character that is not a backslash, if there is one (`InsertionCanTruncate`).
- `ConsumeBytesWithTerminator` computes `num_bytes + 1` in `size_t`. On data of the largest possible size that
  wraps to zero and the call aborts (`AbortsExactly`).
- The lookup of a stack variable compares with `<=`. Where two variables touch, the first byte of the second is
  reported as part of the first (`TouchingIsConfused`).

## Model

| member | source | states |
|---|---|---|
| `Bytes.ByteLenLeast` | llvm-project/compiler-rt/include/fuzzer/FuzzedDataProvider.h:216-217 | the number of bytes that a range asks for is the least k with range < 256^k |
| `Bytes.LittleEndianRoundTrip` | llvm-project/compiler-rt/include/fuzzer/FuzzedDataProvider.h:224-226 | a number below 256^k written in k bytes is read back |
| `MachineIntegers.ShiftInByte` | llvm-project/compiler-rt/include/fuzzer/FuzzedDataProvider.h:225 | while the top byte of the word is clear, shifting left by eight and or-ing a byte in loses no bit and appends the byte |
| `MachineIntegers.ShiftRightByte` | llvm-project/compiler-rt/include/fuzzer/FuzzedDataProvider.h:216 | the loop's shifted range is divided by 256 at each turn |
| `MachineIntegers.TypeRanges` | llvm-project/compiler-rt/include/fuzzer/FuzzedDataProvider.h:203-212 | every type holds 2^bits values, in two's complement if signed |
| `Characters.ConversionReinterprets` | llvm-project/compiler-rt/include/fuzzer/FuzzedDataProvider.h:377-395 | for every width, all branches of the conversion agree with reading the same bits, and the residue is kept, so it is one-to-one |
| `Characters.ConversionOnto` | llvm-project/compiler-rt/include/fuzzer/FuzzedDataProvider.h:377-395 | every value of the target type is reached from its residue |
| `Characters.CharsAre` | llvm-project/compiler-rt/include/fuzzer/FuzzedDataProvider.h:136-145 | each `char` of a text is its byte, less 256 in the upper half when `char` is signed |
| `Characters.CharsBijection` | llvm-project/compiler-rt/include/fuzzer/FuzzedDataProvider.h:136-145 | texts of `char` and byte strings correspond one to one, for signed and unsigned `char` |
| `EscapedStrings.ReadingSpells` | llvm-project/compiler-rt/include/fuzzer/FuzzedDataProvider.h:151-177 | every string read has taken a spelling of its text, ended by the limit, a terminator, the end of the data, or a lone backslash at the end |
| `EscapedStrings.SpelledIsRead` | llvm-project/compiler-rt/include/fuzzer/FuzzedDataProvider.h:151-177 | conversely every spelling is read back, so the four cases determine the reading |
| `EscapedStrings.SpellsIff` | llvm-project/compiler-rt/include/fuzzer/FuzzedDataProvider.h:151-177 | a text and a number of bytes are what is read if and only if those bytes spell that text up to one of the four stops |
| `EscapedStrings.EscapeRoundTrip` | llvm-project/compiler-rt/include/fuzzer/FuzzedDataProvider.h:151-177 | an escaped text with its terminator, or at the length limit without one, is read back and what follows is left |
| `EscapedStrings.ReadingBounds` | llvm-project/compiler-rt/include/fuzzer/FuzzedDataProvider.h:163-173 | length of the text against bytes consumed, and what the last two bytes are when the string stopped early |
| `EscapedStrings.ReadingIsLocal` | llvm-project/compiler-rt/include/fuzzer/FuzzedDataProvider.h:163-173 | a reading depends only on the bytes it took, and not on a limit it did not reach |
| `EscapedStrings.InsertionOutcome` | llvm-project/compiler-rt/include/fuzzer/FuzzedDataProvider.h:153-173 | for every byte and every place: the insertion adds a character there, cuts the string in a pair or before the next plain character, is swallowed by the terminator, makes the string run on behind it, or leaves it alone; the text read and what is left are given in each case |
| `EscapedStrings.InsertionLengthensIff` | llvm-project/compiler-rt/include/fuzzer/FuzzedDataProvider.h:153-158 | an insertion lengthens the string if and only if it is a backslash followed by nothing but backslashes up to the terminator, or another byte at the beginning of a token |
| `EscapedStrings.InsertionCanTruncate` | llvm-project/compiler-rt/include/fuzzer/FuzzedDataProvider.h:153-158 | two insertions that empty a string: a letter in a pair, and a backslash in front |
| `RangedIntegers.IntegerRoundTrip` | llvm-project/compiler-rt/include/fuzzer/FuzzedDataProvider.h:203-234 | every value of a range can be read, with an explicit encoding and any bytes in front |
| `RangedIntegers.ReadIntegerIsLocal` | llvm-project/compiler-rt/include/fuzzer/FuzzedDataProvider.h:216-227 | an integer read depends only on the bytes it takes |
| `RangedIntegers.RangedReadIff` | llvm-project/compiler-rt/include/fuzzer/FuzzedDataProvider.h:203-234 | the integer read is the only one in the range from which whole turns of the range lead to the little-endian word of the bytes taken, and the bytes taken are the fewest that can express the range, or all |
| `RangedIntegers.RangeIsExact` | llvm-project/compiler-rt/include/fuzzer/FuzzedDataProvider.h:211-212 | the wrapped 64-bit difference of the bounds is the true one, for every type and sign |
| `RangedIntegers.OffsetIsExact` | llvm-project/compiler-rt/include/fuzzer/FuzzedDataProvider.h:233 | the 64-bit addition to `min` and the conversion back do not wrap |
| `RangedIntegers.RangeFitsType` | llvm-project/compiler-rt/include/fuzzer/FuzzedDataProvider.h:216 | no range needs more bytes than its type has, so no shift amount reaches 64 |
| `Calls.AbortsExactly` | llvm-project/compiler-rt/include/fuzzer/FuzzedDataProvider.h:118-124 | a call aborts exactly on bad arguments or when the terminator makes the size wrap |
| `Calls.FrontReadersAgree` | llvm-project/compiler-rt/include/fuzzer/FuzzedDataProvider.h:107-145 | vectors, terminated vectors, strings and raw copies of the same length hold the same bytes and take the same |
| `Calls.RangedCallIff` | llvm-project/compiler-rt/include/fuzzer/FuzzedDataProvider.h:203-234 | a ranged integer call answers v and takes k bytes if and only if word = q (max - min + 1) + (v - min) for some q, with the word of the last k bytes and k the fewest that express the range, or all that remain |
| `Calls.WholeTurnsMakeNoDifference` | llvm-project/compiler-rt/include/fuzzer/FuzzedDataProvider.h:229-233 | adding whole turns of the range to the word leaves the call as it is |
| `Calls.IntegralCall` | llvm-project/compiler-rt/include/fuzzer/FuzzedDataProvider.h:194-197 | the least value of the type plus the little-endian word of as many bytes as the type has, or as remain |
| `Calls.WholeTypeIsRanged` | llvm-project/compiler-rt/include/fuzzer/FuzzedDataProvider.h:194-197 | it is the ranged call on the range of the type |
| `Calls.BoolCall` | llvm-project/compiler-rt/include/fuzzer/FuzzedDataProvider.h:288-290 | the lowest bit of the last byte, which is taken; false without data |
| `Calls.EnumCall` | llvm-project/compiler-rt/include/fuzzer/FuzzedDataProvider.h:295-299 | it is the ranged call from zero to the largest |
| `Calls.PickCallIff` | llvm-project/compiler-rt/include/fuzzer/FuzzedDataProvider.h:314-321 | a value is picked if and only if it stands at the index that the ranged call from zero gives |
| `Calls.StringCallIff` | llvm-project/compiler-rt/include/fuzzer/FuzzedDataProvider.h:151-177 | a string call gives a text and takes some bytes if and only if those bytes spell the text up to the limit, a terminator, the end of the data or a lone backslash at the end |
| `Calls.AnyLengthCall` | llvm-project/compiler-rt/include/fuzzer/FuzzedDataProvider.h:180-182 | without a limit the limit is what remains |
| `Calls.UnterminatedStringCall` | llvm-project/compiler-rt/include/fuzzer/FuzzedDataProvider.h:180-182 | without a limit and without a terminator the text goes on to the end of the data, also when that ends in a lone backslash |
| `Calls.StepIsLocal` | llvm-project/compiler-rt/include/fuzzer/FuzzedDataProvider.h:107-234 | a call does the same on any data with the same bytes at the ends it reads |
| `Encoding.Choose` | llvm-project/compiler-rt/include/fuzzer/FuzzedDataProvider.h:288-321 | for every legal answer of an integer, bool, enum or array call there is an integer in range that stands for it |
| `Encoding.StepRoundTrip` | llvm-project/compiler-rt/include/fuzzer/FuzzedDataProvider.h:107-321 | every legal answer is given on its code, whatever lies between the ends |
| `Encoding.StepIsLegal` | llvm-project/compiler-rt/include/fuzzer/FuzzedDataProvider.h:107-321 | a call that leaves bytes over has given a legal answer |
| `Runs.ScriptRoundTrip` | llvm-project/compiler-rt/include/fuzzer/FuzzedDataProvider.h:107-321 | data written for a script and legal answers gives those answers and leaves exactly the middle |
| `Runs.ScriptRoundTripThen` | llvm-project/compiler-rt/include/fuzzer/FuzzedDataProvider.h:107-321 | behind the script, whatever is called next runs as it would on the middle alone |
| `Runs.RestRoundTrip` | llvm-project/compiler-rt/include/fuzzer/FuzzedDataProvider.h:127-189 | a script that then takes all the rest, as bytes or as text, gets exactly the middle, and calls behind that get the defaults |
| `Runs.AchievableIffLegal` | llvm-project/compiler-rt/include/fuzzer/FuzzedDataProvider.h:107-321 | the answers that a script can give without using up its data are exactly the legal ones |
| `Runs.RunIsLocal` | llvm-project/compiler-rt/include/fuzzer/FuzzedDataProvider.h:8-10 | a run that leaves bytes over gives the same on all data with the same two ends |
| `Runs.MiddleIsFree` | llvm-project/compiler-rt/include/fuzzer/FuzzedDataProvider.h:8-10 | the unread middle can be replaced by anything, also by nothing |
| `Runs.RunProjects` | llvm-project/compiler-rt/include/fuzzer/FuzzedDataProvider.h:218-223 | the front calls, or the back calls, of a script run alone give their answers and take the same bytes |
| `Runs.RunMerges` | llvm-project/compiler-rt/include/fuzzer/FuzzedDataProvider.h:218-223 | if the front calls alone and the back calls alone fit into the data together, up to the last byte, the script runs and gives their answers |
| `Runs.InterleavingIsFree` | llvm-project/compiler-rt/include/fuzzer/FuzzedDataProvider.h:218-223 | two scripts with the same front calls and the same back calls, which fit into the data together, give the same answers to them and take the same bytes |
| `Runs.SpareInterleavingIsFree` | llvm-project/compiler-rt/include/fuzzer/FuzzedDataProvider.h:218-223 | the same, known only that one of the two scripts leaves bytes over |
| `Runs.RunConserves` | llvm-project/compiler-rt/include/fuzzer/FuzzedDataProvider.h:99-100 | what the calls took and what is left make up the data, and each answer comes from the bytes of its own call |
| `Runs.RunsCompose` | llvm-project/compiler-rt/include/fuzzer/FuzzedDataProvider.h:45-84 | a script in two parts: the second runs on what the first has left |
| `Runs.SizeIsWhatIsLeft` | llvm-project/compiler-rt/include/fuzzer/FuzzedDataProvider.h:84 | the size reported at any point of a run is the size of the data less all that was taken before |
| `Runs.ExhaustionIsAbsorbing` | llvm-project/compiler-rt/include/fuzzer/FuzzedDataProvider.h:191-202 | without data every script takes nothing and answers with the defaults |
| `Runs.DiesIffBadArguments` | llvm-project/compiler-rt/include/fuzzer/FuzzedDataProvider.h:343-366 | a run is aborted exactly when a call has bad arguments: the aborts inside are not reached |
| `Runs.ReadsAddUp` | llvm-project/compiler-rt/include/fuzzer/FuzzedDataProvider.h:107-111 | reading in pieces reads what one read of the total reads, also when the data runs short |
| `Provider.FuzzedDataProvider.constructor` | llvm-project/compiler-rt/include/fuzzer/FuzzedDataProvider.h:35-36 | the whole array remains |
| `Provider.FuzzedDataProvider.Advance` | llvm-project/compiler-rt/include/fuzzer/FuzzedDataProvider.h:343-349 | moves the window, or aborts exactly when too much is asked |
| `Provider.FuzzedDataProvider.CopyAndAdvance` | llvm-project/compiler-rt/include/fuzzer/FuzzedDataProvider.h:337-341 | the destination gets the front of the window and keeps the rest |
| `Provider.FuzzedDataProvider.ConsumeIntoVector` | llvm-project/compiler-rt/include/fuzzer/FuzzedDataProvider.h:351-375 | the vector starts with the front of the window; aborts exactly on size zero with bytes asked |
| `Provider.FuzzedDataProvider.ConsumeBytes` | llvm-project/compiler-rt/include/fuzzer/FuzzedDataProvider.h:107-111 | never aborts; the first bytes of the window, as many as asked or as remain |
| `Provider.FuzzedDataProvider.ConsumeBytesWithTerminator` | llvm-project/compiler-rt/include/fuzzer/FuzzedDataProvider.h:117-124 | the bytes and then the terminator, or the abort of the wrapped size |
| `Provider.FuzzedDataProvider.ConsumeRemainingBytes` | llvm-project/compiler-rt/include/fuzzer/FuzzedDataProvider.h:127-130 | all that remains |
| `Provider.FuzzedDataProvider.ConsumeData` | llvm-project/compiler-rt/include/fuzzer/FuzzedDataProvider.h:329-334 | the bytes written, their number, and the rest of the destination unchanged |
| `Provider.FuzzedDataProvider.ConsumeBytesAsString` | llvm-project/compiler-rt/include/fuzzer/FuzzedDataProvider.h:136-145 | the same bytes, read as `char` |
| `Provider.FuzzedDataProvider.TakeChar` | llvm-project/compiler-rt/include/fuzzer/FuzzedDataProvider.h:164-168 | one byte off the front as a `char`, which is a backslash exactly when the byte is |
| `Provider.FuzzedDataProvider.ConsumeRandomLengthString` | llvm-project/compiler-rt/include/fuzzer/FuzzedDataProvider.h:151-177 | the loop with its three exits reads the string that `StringCallIff` determines |
| `Provider.FuzzedDataProvider.ConsumeAnyLengthString` | llvm-project/compiler-rt/include/fuzzer/FuzzedDataProvider.h:180-182 | the call with the remaining bytes as the limit, which `AnyLengthCall` and `StringCallIff` determine |
| `Provider.FuzzedDataProvider.ConsumeRemainingBytesAsString` | llvm-project/compiler-rt/include/fuzzer/FuzzedDataProvider.h:187-189 | all that remains, as `char` |
| `Provider.FuzzedDataProvider.TakeWord` | llvm-project/compiler-rt/include/fuzzer/FuzzedDataProvider.h:213-227 | the loop takes exactly min(remaining, bytes of the range) bytes off the back and gives their little-endian value |
| `Provider.ResultIsExact` | llvm-project/compiler-rt/include/fuzzer/FuzzedDataProvider.h:229-233 | the guarded reduction, the addition and the conversion give the integer that `RangedReadIff` determines |
| `Provider.GuardIsHarmless` | llvm-project/compiler-rt/include/fuzzer/FuzzedDataProvider.h:229-231 | skipping the reduction for the full 64-bit range makes no difference |
| `Provider.FuzzedDataProvider.ConsumeIntegralInRange` | llvm-project/compiler-rt/include/fuzzer/FuzzedDataProvider.h:203-234 | for every type, aborts exactly when min > max; otherwise a value of [min, max] off the back, which `RangedCallIff` determines |
| `Provider.FuzzedDataProvider.ConsumeIntegral` | llvm-project/compiler-rt/include/fuzzer/FuzzedDataProvider.h:194-197 | never aborts; a value of the type off the back, which `IntegralCall` determines |
| `Provider.FuzzedDataProvider.ConsumeBool` | llvm-project/compiler-rt/include/fuzzer/FuzzedDataProvider.h:288-290 | the lowest bit of the last byte of the window, which is taken; false on an empty window |
| `Provider.FuzzedDataProvider.ConsumeEnum` | llvm-project/compiler-rt/include/fuzzer/FuzzedDataProvider.h:295-299 | a value between zero and the largest off the back, which `EnumCall` and `RangedCallIff` determine |
| `Provider.FuzzedDataProvider.PickValueInArray` | llvm-project/compiler-rt/include/fuzzer/FuzzedDataProvider.h:314-321 | aborts exactly on an empty list; one of the values, which `PickCallIff` determines |
| `Provider.FuzzedDataProvider.RemainingBytes` | llvm-project/compiler-rt/include/fuzzer/FuzzedDataProvider.h:84 | the size of the window, which does not move |
| `Provider.FuzzedDataProvider.Perform` | llvm-project/compiler-rt/include/fuzzer/FuzzedDataProvider.h:45-84 | any call does to the object what `Calls.Step` says, or aborts where that does |
| `Provider.FuzzedDataProvider.PerformFirst` | llvm-project/compiler-rt/include/fuzzer/FuzzedDataProvider.h:45-84 | after the first call, the rest of the run is the run of the other calls on the object as it is then |
| `Provider.FuzzedDataProvider.RunScript` | llvm-project/compiler-rt/include/fuzzer/FuzzedDataProvider.h:45-84 | any script of calls on the object gives the answers of `Runs.Run` and moves both ends as far, or aborts exactly where that dies |
| `Activation.PowerOfTwoByBits` | llvm-project/compiler-rt/lib/sanitizer_common/sanitizer_common.h:422-424 | the bit trick tests for a power of two |
| `Activation.MegabytesRoundTrip` | llvm-project/compiler-rt/lib/asan/asan_allocator.cpp:329-332 | a quarantine size stored, read back and stored again fills the word the same; it is read back unchanged exactly when it fits |
| `Activation.KilobytesRoundTrip` | llvm-project/compiler-rt/lib/asan/asan_allocator.cpp:400-402 | the same of the thread-local size |
| `Activation.InstalledReadsBack` | llvm-project/compiler-rt/lib/asan/asan_allocator.cpp:400-409 | options read back install the same allocator again; they are the ones installed exactly when those fit the registers |
| `Activation.PassesIffSound` | llvm-project/compiler-rt/lib/asan/asan_allocator.cpp:321-332 | options pass the checks if and only if the redzones are 2^m and 2^n with 4 <= m <= n <= 11 and there is a cache wherever there is a quarantine |
| `Activation.OverriddenIff` | llvm-project/compiler-rt/lib/asan/asan_activation.cpp:61-76 | settings overridden and put in force: for each of the nine, a flag that is given reaches its register in the width of that, and a register whose flag is not given is as before; and that determines all registers |
| `Activation.OneFlagOneRegister` | llvm-project/compiler-rt/lib/asan/asan_activation.cpp:61-76 | an override of one flag changes one register and no other |
| `Activation.OverrideReachesStash` | llvm-project/compiler-rt/lib/asan/asan_activation.cpp:45-77 | the same of each part of what was put aside |
| `Activation.OverrideThroughFlags` | llvm-project/compiler-rt/lib/asan/asan_activation.cpp:45-77 | reading back, copying to flags, overriding, converting and installing overrides register by register what was installed, and is overriding the settings |
| `Activation.DisabledPasses` | llvm-project/compiler-rt/lib/asan/asan_activation.cpp:111-119 | the disabled options always pass the allocator's checks and give no quarantine and equal redzones |
| `Activation.DisabledRedzoneIsPower` | llvm-project/compiler-rt/lib/asan/asan_activation.cpp:114-116 | the disabled redzone is max(16, granularity), a power of two |
| `Activation.RunIsOneOverride` | llvm-project/compiler-rt/lib/asan/asan_activation.cpp:96-141 | any surviving run has had the effect of one override of the first settings |
| `Activation.ActivationRestores` | llvm-project/compiler-rt/lib/asan/asan_activation.cpp:96-141 | with fixed overrides every activation gives the same settings; with none, the first ones |
| `Activation.SurvivesIff` | llvm-project/compiler-rt/lib/asan/asan_activation.cpp:96-141 | a run survives if and only if no deactivation follows straight on another and each activation behind a deactivation finds settings that pass the checks |
| `Activation.SurvivesWithIff` | llvm-project/compiler-rt/lib/asan/asan_activation.cpp:96-141 | with fixed overrides: if and only if no deactivation follows straight on another and the overridden settings pass the checks or are never asked for |
| `Activation.RestoringSurvivesIff` | llvm-project/compiler-rt/lib/asan/asan_activation.cpp:96-141 | without overrides no activation ends the process, and the first settings come back |
| `Activation.DeactivationReflects` | llvm-project/compiler-rt/lib/asan/asan_activation.cpp:96-122 | deactivation leaves a runtime with no quarantine, equal least redzones, no checks and the release interval as it was, and a stash that can restore what was in force |
| `Activation.ActivationReflects` | llvm-project/compiler-rt/lib/asan/asan_activation.cpp:124-141 | activation overrides, register by register, what was in force before the deactivation; it succeeds exactly when those registers are sound |
| `Activation.AsanRuntime.constructor` | llvm-project/compiler-rt/lib/asan/asan_rtl.cpp:461-463 | each of the first settings is in its register |
| `Activation.AsanRuntime.CheckOptions` | llvm-project/compiler-rt/lib/asan/asan_allocator.cpp:321-327 | the checks with the bit trick pass exactly the redzones that are powers of two, in order, from 16 to 2048 |
| `Activation.AsanRuntime.ReInitializeAllocator` | llvm-project/compiler-rt/lib/asan/asan_allocator.cpp:321-386 | the stores and checks, in their order, put each option in its register or end the process; what is in force is sound, can be read back and stored again without a change, and reads back as given exactly when it fits |
| `Activation.AsanRuntime.SwitchOff` | llvm-project/compiler-rt/lib/asan/asan_activation.cpp:100-121 | the statements behind the check of the deactivation: stash, then disable |
| `Activation.AsanRuntime.AsanDeactivate` | llvm-project/compiler-rt/lib/asan/asan_activation.cpp:96-122 | dies exactly when already deactivated; otherwise every register is off, what was in force is remembered and the invariant over the history is kept |
| `Activation.AsanRuntime.OverrideFromActivationFlags` | llvm-project/compiler-rt/lib/asan/asan_activation.cpp:45-77 | each flag that is given reaches its part of the stash and the other parts stay; what was put aside for any settings becomes what brings those settings, overridden, into force |
| `Activation.AsanRuntime.SwitchOn` | llvm-project/compiler-rt/lib/asan/asan_activation.cpp:130-136 | the statements behind the check of the activation: override the stash, then install it |
| `Activation.AsanRuntime.AsanActivate` | llvm-project/compiler-rt/lib/asan/asan_activation.cpp:124-141 | does nothing when active; otherwise each of the nine registers holds its flag, or what it held before the deactivation, and the process dies exactly when such registers are not sound |
| `FrameDescriptions.SimpleStrtoll` | llvm-project/compiler-rt/lib/sanitizer_common/sanitizer_libc.cpp:230-259 | saturating at every digit gives the decimal number brought into 64 signed bits |
| `FrameDescriptions.ParseFrameDescription` | llvm-project/compiler-rt/lib/asan/asan_report.cpp:83-116 | the loop reads the variables that the format describes, or reports failure |
| `FrameDescriptions.ParseVar` | llvm-project/compiler-rt/lib/asan/asan_report.cpp:96-112 | one variable with its name and line |
| `FrameDescriptions.NumberRoundTrip` | llvm-project/compiler-rt/lib/sanitizer_common/sanitizer_libc.cpp:230-259 | a number written behind a space is read back, up to the largest signed one |
| `FrameDescriptions.NumberIsRead` | llvm-project/compiler-rt/lib/sanitizer_common/sanitizer_libc.cpp:230-259 | any number of any size, behind any blanks, with either sign or none and zeros in front, is read whole and brought into 64 signed bits |
| `FrameDescriptions.NoNumberIsRead` | llvm-project/compiler-rt/lib/sanitizer_common/sanitizer_libc.cpp:230-259 | without digits the number is zero and nothing but the blanks is read |
| `FrameDescriptions.LabelRoundTrip` | llvm-project/compiler-rt/lib/asan/asan_report.cpp:103-109 | a label is read back as its name and its line |
| `FrameDescriptions.NameIsKeptIffNoColon` | llvm-project/compiler-rt/lib/asan/asan_report.cpp:103-109 | a name is read back whole exactly when it has no colon |
| `FrameDescriptions.EntryRoundTrip` | llvm-project/compiler-rt/lib/asan/asan_report.cpp:96-112 | one variable is read back |
| `FrameDescriptions.ReadVarIff` | llvm-project/compiler-rt/lib/asan/asan_report.cpp:96-112 | from any text: a variable is read if and only if its numbers, one blank and its label stand there, the first two numbers not zero, the name up to the first colon of the label |
| `FrameDescriptions.ReadFrameIff` | llvm-project/compiler-rt/lib/asan/asan_report.cpp:83-116 | from any text: variables are read if and only if their number, not zero, and then their descriptions stand there one behind the other |
| `FrameDescriptions.FrameRoundTrip` | llvm-project/compiler-rt/lib/asan/asan_report.cpp:83-116 | the description of any nonempty frame is read back, variable by variable |
| `StackLookup.FindInfoForStackVar` | llvm-project/compiler-rt/lib/asan/asan_debugging.cpp:26-47 | for every offset, the whole region and the name of the first variable that does not end before it, as far from the address as the variable is from the offset; nothing if there is none or the text cannot be read |
| `StackLookup.FindsOwnerIffSpaced` | llvm-project/compiler-rt/lib/asan/asan_debugging.cpp:35-46 | every offset inside a variable finds that variable if and only if the variables are in order, with a gap, and none ends outside the word |
| `StackLookup.ParsedAreVars` | llvm-project/compiler-rt/lib/asan/asan_report.cpp:83-116 | whatever text the parser accepts, it gives variables whose places and sizes are words other than zero |
| `StackLookup.ParsedFindsOwnerIffSpaced` | llvm-project/compiler-rt/lib/asan/asan_debugging.cpp:29-46 | the same of every description that the parser accepts |
| `StackLookup.TouchingIsConfused` | llvm-project/compiler-rt/lib/asan/asan_debugging.cpp:36 | touching variables are confused |
| `StackLookup.RegionInFrame` | llvm-project/compiler-rt/lib/asan/asan_debugging.cpp:42-43 | the reported address is as far from the frame as the variable's offset, in word arithmetic |
| `StackLookup.ReportsIff` | llvm-project/compiler-rt/lib/asan/asan_debugging.cpp:40-43 | the region with the variable's size and name, at that distance in word arithmetic, is the one reported, for offsets inside and outside the variable |
| `StackLookup.LookupReportsFirst` | llvm-project/compiler-rt/lib/asan/asan_debugging.cpp:26-47 | from the compiler's variables through the description to the report, for every offset: the region and name of the first variable with offset <= beg + size |
| `StackLookup.LookupReportsNothing` | llvm-project/compiler-rt/lib/asan/asan_debugging.cpp:35-46 | nothing is reported exactly when every variable ends before the offset |
| `StackLookup.LookupFindsVariable` | llvm-project/compiler-rt/lib/asan/asan_debugging.cpp:26-47 | from the compiler's variables through the description to the report: exactly the region and name of the variable that holds the offset |

## Left out

- Floating-point calls of the provider (FuzzedDataProvider.h, lines 236-285): their claims turn on rounding.
- `ConsumeIntegral<bool>`: its conversion is not modular; the ordinary integer types of 8 to 64 bits are modelled.
- `size_t` is taken to have 64 bits; window sizes in `Runs.dfy` are unbounded except where `SIZE_MAX` decides an abort.
- Vector capacity, `reserve` and `shrink_to_fit`: they do not affect results.
- `PickValueInArray` picks from numbers that stand for values of any type.
- The parsing of the text of `ASAN_ACTIVATION_OPTIONS`: an override is a value for some of the flags.
- Coverage flags, verbosity, help and the reports of activation: they do not reach the settings modelled here.
- Repoisoning of existing chunks when the allocator is reinitialized, and the memory order of its atomics.
- The allocator's checks at the start of the runtime: the constructor of `AsanRuntime` begins with settings that pass them.
- Copying of the variable's name into the caller's buffer: the report gives the place and length of the name.
- A description whose label length points past its end: reading behind the terminator is taken to see terminators.
- In `StackLookup.dfy` and `FrameDescriptions.dfy` a word has 64 bits.
- The rest of `asan_debugging.cpp`: `__asan_locate_address`, the stacks of heap chunks and the shadow mapping.
- The low-water mark of the quarantine, nine tenths of its size: it is not read back.
- The rest of compiler-rt and of the repository around it.
