# Always-on firmware: a verified model

This project models, in Dafny, the parts of a T-Head always-on firmware and its support libraries
that hold state, loops or delicate arithmetic, and proves what they promise. `dafny verify
dfyconfig.toml` checks all of it.

| file | what it models |
|---|---|
| `RetentionLayout.dfy`, `RetentionMemory.dfy`, `RetentionSizes.dfy` | the retention-memory allocator: the block list as a value with its laws over whole runs, the in-place list of headers inside an array of words, and the size words for requests of any number of bytes |
| `PowerManagement.dfy`, `SuspendResume.dfy`, `PowerManager.dfy` | device registration, suspend and resume into retention blocks, deep sleep |
| `Numerals.dfy`, `PrintfSpec.dfy`, `Printf.dfy`, `PrintfIso.dfy` | the digit loop, the format interpreter, the truncating sink, and sections 7.21.6.1 and 7.21.6.5 of ISO/IEC 9899:2011 |
| `TraceFormat.dfy`, `TraceNames.dfy`, `TraceRecording.dfy`, `TraceRecorder.dfy` | the event log with its reader, the name table, whole recordings read back from both, and the recorder that fills them |
| `FixedPoint.dfy` | saturation, Clarke and Park transforms with their inverses, table interpolation |
| `RingBuffer.dfy` | the byte FIFO |
| `PoMessages.dfy` | the PO string writer with its reader, and the message list keyed on written forms |
| `PowerDomains.dfy`, `Rails.dfy` | power-domain sequencing and the rail table |
| `MachineWords.dfy`, `Wrappers.dfy` | integer ranges and an option type |

The pattern is the same throughout. Code that changes things in place is a class or a method on an
array, and its contract ties the new state to a function of the old one. Those functions are then
the subject of the lemmas: invariants over every run, round trips, refinement of a simpler form.

Conventions. Words have 32 bits, `long` too; integers are unbounded in Dafny, so wrap-around is
written out where it can happen. C strings are Dafny strings without NUL. Each public call is one
atomic step. Time deltas, regulator results, allocation results, wake-up register contents and the
result of `soc_pm_enter_sleep` are parameters.

Findings worth knowing, each with its lemma:

- The allocator's first pass compares whole size words and does not look at the used bit. In all runs of
  requests of given sizes, no payload ever has two holders exactly when all those sizes are even
  (`HeldOnceIff`). The same odd request twice gets the same payload twice (`OddRequestTwice`), and after
  that an even request can get it too (`EvenAfterOddTwice`). A caller always gets the bytes it asked for
  exactly when it asks for an even number (`GetsRoomIff`); 4 bytes and then 5 end in a header
  (`OddAfterEven`). What an odd request leaves of the region looks used (`RestUsableIff`), and two bytes
  are lost (`SplitBytes`). With even requests alone, all that callers hold stays apart (`EvenRunsApart`).
  The codec driver asks for 10 bytes (csi-rtos/csi/drivers/codec/pangu/v1.0/codec.c:862), the SHA
  driver for 25 (csi-rtos/csi/drivers/sha/wj/v2.0/sha.c:489).
- Freeing never joins blocks, so a split is for ever (`SplitIsForever`).
- Unregistering keeps the invariant exactly when no other listed device holds the block that the
  device's record names; a second unregister can violate that (`UnregisterInvIff`,
  `StaleUnregisterBreaksAnother`).
- `csi_pm_dev_notify` reports a failure exactly when it is in the last list walked that has any
  devices: the lowest on suspend, the highest on resume (`ReportedIff`). Two registrations reach a
  state in which a failure is hidden (`TwoListsReached`, `LaterListHidesFailure`). Devices behind a failing
  one are not saved (`BehindFailure`), and those that are resumed all the same get whatever words their
  blocks held before (`DeepSleepOutcome`).
- A callback has to stay within the size it asked for (`OverrunBreaksList`). The SPI driver asks for
  36 bytes and saves 12 words (csi-rtos/csi/drivers/spi/dw/v2.0/spi.c:1455-1480).
- With `#`, the number 0 prints as `0x0` and `00`, and the standard asks for `0` (`HashZero`). The
  printed text is the standard's exactly when the number is not zero, or is an octal zero among padding
  zeros (`AlternativeFormIff`).
- A negative precision passed by `*` counts as 0, and the standard takes it as absent. For numbers that is
  the same exactly when the number is not zero and there are no padding zeros (`CodeIsIsoIff`), for strings
  exactly when the string is blank and within the width (`StringFormIff`). `%.*d` of -1 and 0 prints nothing,
  where the standard has `0` (`NegativeZero`).
- The event log is uniquely decodable exactly when no plain event uses a memory or divider type
  (`DecodableIff`). What is stored is always a prefix of what was offered exactly when a stop hook is set
  or the buffer is too small for any event (`StoresPrefixIff`).
- A name gets a duplicate exactly when its number reads as 0xff and it fits once more
  (`DuplicateIff`); 255 names of one character lead there (`DuplicateReached`).
- The Clarke transform's second product wraps beyond |Ib| = 1859775393, before the saturating
  addition that its documentation relies on (`ClarkeProducts`).
- Interpolation at a table point gives, for q15 and q7, one less than a positive table value
  (`MixAtTablePoint`); for q31, one less than an odd value and two less than a positive even one
  (`HalfAtTablePoint`).
- The count that `escape` keeps does not keep it inside its buffer. For every text, `StaysInsideIff` has the
  exact condition; where the text is cut off, newlines have to make up for quotes, for the last character
  and for the closing quote. Without newlines, cutting off never keeps it inside (`OneLineInsideIff`), so
  8191 quotes run past the end of the 16384 characters of `message__add` (`QuotesInsideIff`), and so do a line
  of 16376 to 16378 letters and its newline (`LineInsideIff`).
- The ring buffer's index is right exactly while the 32-bit sum does not overflow (`AdvanceWrapsIff`).
- Audio power-down asserts one of six reset bits. It leaves a reset released exactly when one of the other
  five was (`AudioDownReleasedIff`), and over a run of commands the reset link of the power chain holds for
  audio in every state exactly when no audio power-down follows an audio power-up, and none comes at all if
  one of the five was released at first (`AudioLinkIff`).

## Model

| member | source | states |
|---|---|---|
| RetentionLayout.Chosen | csi-rtos/csi/drivers/common/power_manage.c:78-110 | an allocation picks the first free block of exactly the size asked for, else the first larger free one, and none exactly when no free block is big enough |
| RetentionLayout.PayloadsApart | csi-rtos/csi/drivers/common/power_manage.c:28-31 | in a tiling, no payload word is a word of another payload or of any header |
| RetentionLayout.RunTiles | csi-rtos/csi/drivers/common/power_manage.c:72-131 | every run of allocations and frees keeps the list an exact tiling of the region, headers and sizes summing to it |
| RetentionLayout.AllocGivesLive | csi-rtos/csi/drivers/common/power_manage.c:72-114 | a block handed out was not in use and is now, with room for the request; failure changes nothing and means that no free block is big enough |
| RetentionLayout.AllocSparesTwo | csi-rtos/csi/drivers/common/power_manage.c:94-104 | the block handed out has the words asked for and at most two to spare; what is left over is a free block behind it |
| RetentionLayout.RunKeepsLive | csi-rtos/csi/drivers/common/power_manage.c:72-131 | a block in use stays in use, where it is and as big, through every run that does not free it |
| RetentionLayout.FreedBlockCanBeHadAgain | csi-rtos/csi/drivers/common/power_manage.c:72-131 | a block got for a size is given to nobody else meanwhile, and freeing it makes an immediate request for that size succeed |
| RetentionLayout.HeadersNeverMove | csi-rtos/csi/drivers/common/power_manage.c:94-100 | over every run, a header once written stays where it is |
| RetentionLayout.SplitIsForever | csi-rtos/csi/drivers/common/power_manage.c:116-131 | after one split, no later run can serve a request for the whole region |
| RetentionSizes.HeldOnceIff | csi-rtos/csi/drivers/common/power_manage.c:72-131 | in every run of requests of given sizes no payload is handed out that somebody holds, if and only if all the sizes are even |
| RetentionSizes.OddRequestTwice | csi-rtos/csi/drivers/common/power_manage.c:78-100 | the same odd request twice on a fresh region gives the same payload to two callers |
| RetentionSizes.EvenAfterOddTwice | csi-rtos/csi/drivers/common/power_manage.c:78-131 | once one of the two has given it back, the even request just below gets it while the other still has it |
| RetentionSizes.GetsRoomIff | csi-rtos/csi/drivers/common/power_manage.c:72-114 | after every run of requests of any sizes, a caller gets the bytes it asked for before the next header or the end of the region, if and only if it asks for an even number |
| RetentionSizes.OddAfterEven | csi-rtos/csi/drivers/common/power_manage.c:78-100 | an even request and then the odd one just above it: the payload given ends in the next header |
| RetentionSizes.EvenRunsApart | csi-rtos/csi/drivers/common/power_manage.c:72-131 | in every state of every run of even requests, what callers asked for and hold reaches into no header, no other payload and not past the region |
| RetentionSizes.RestUsableIff | csi-rtos/csi/drivers/common/power_manage.c:94-100 | after a first request that splits the region, some even request can be met if and only if the first was even |
| RetentionSizes.RunSpaced | csi-rtos/csi/drivers/common/power_manage.c:72-131 | over every run of requests of any number of bytes, each node with the size its word tells ends before the next begins and inside the region |
| RetentionSizes.SpacedOrder | csi-rtos/csi/drivers/common/power_manage.c:28-31 | so by the sizes in their words any two nodes are apart, however far in the list |
| RetentionSizes.EvenRunsConserve | csi-rtos/csi/drivers/common/power_manage.c:72-131 | over every run of even requests, headers and sizes sum to the region |
| RetentionSizes.SplitBytes | csi-rtos/csi/drivers/common/power_manage.c:94-100 | a split conserves bytes for even requests and loses two for odd ones |
| RetentionSizes.WholeWordsAgree | csi-rtos/csi/drivers/common/power_manage.c:72-114 | for whole words the size words and the block list hand out the same node and stay in step |
| RetentionMemory.RetentionMemory.SetRegion | csi-rtos/csi/drivers/common/power_manage.c:52-70 | a region of at least three words becomes one free block; otherwise error and nothing changed |
| RetentionMemory.RetentionMemory.FindExact | csi-rtos/csi/drivers/common/power_manage.c:78-87 | for any number of bytes, the first walk ends at the first node whose size word equals it, or at the end of the list |
| RetentionMemory.RetentionMemory.FindLarger | csi-rtos/csi/drivers/common/power_manage.c:92-110 | for any number of bytes, the second walk ends at the first node with a larger size word and no used bit, or at the end of the list |
| RetentionMemory.RetentionMemory.Split | csi-rtos/csi/drivers/common/power_manage.c:94-100 | the four header words written store the split list, and no payload word of it is touched |
| RetentionMemory.RetentionMemory.Alloc | csi-rtos/csi/drivers/common/power_manage.c:72-114 | in place, exactly the list operation; the stored list stays well formed and no payload word changes |
| RetentionMemory.RetentionMemory.Free | csi-rtos/csi/drivers/common/power_manage.c:116-131 | the block at that address, if any, becomes free; any other address changes nothing |
| PowerManagement.RegisterInv | csi-rtos/csi/drivers/common/power_manage.c:133-157 | registering an unlisted device keeps the invariant: tiling, one listing per device, each block held by one device and in use |
| PowerManagement.RegisterMeans | csi-rtos/csi/drivers/common/power_manage.c:133-157 | success if and only if some free block was big enough; the device first in its list, the others in their order, every other list and record as before; on success a block that nobody had |
| PowerManagement.UnregisterInvIff | csi-rtos/csi/drivers/common/power_manage.c:159-168 | unregistering keeps the invariant if and only if no other listed device holds the block the record names; a listed device always may be unregistered |
| PowerManagement.UnregisterMeans | csi-rtos/csi/drivers/common/power_manage.c:159-168 | off every list, the block that the record names free, all else as before |
| PowerManagement.RemoveFirstIs | csi-rtos/csi/csi/include/drv/list.h:223-233 | the first entry goes and the rest keeps its order |
| PowerManagement.RunInv | csi-rtos/csi/drivers/common/power_manage.c:133-168 | every legal run of registrations and unregistrations keeps the invariant |
| PowerManagement.StaleUnregisterBreaksAnother | csi-rtos/csi/drivers/common/power_manage.c:159-168 | a reachable state in which unregistering a device a second time frees another device's block |
| SuspendResume.ScatterGather | csi-rtos/csi/drivers/common/power_manage.c:170-182 | restoring what was saved gives back every saved register and no other, also when the register runs overlap |
| SuspendResume.VisitsAll | csi-rtos/csi/drivers/common/power_manage.c:194-219 | without failures each listed device is visited exactly once per direction, all higher lists before lower ones on suspend and the other way round on resume |
| SuspendResume.ReportedIff | csi-rtos/csi/drivers/common/power_manage.c:184-225 | success is reported if and only if every callback of the last list walked that has devices succeeds, in both directions |
| SuspendResume.TwoListsReached | csi-rtos/csi/drivers/common/power_manage.c:133-157 | two registrations lead to the state of the next row |
| SuspendResume.LaterListHidesFailure | csi-rtos/csi/drivers/common/power_manage.c:195-206 | a listed device's failing callback whose failure the returned code does not show |
| SuspendResume.SuspendIsIntact | csi-rtos/csi/drivers/common/power_manage.c:194-206 | suspending, even with failing callbacks, leaves the stored list word for word and changes only words that listed devices own |
| SuspendResume.DeepSleepOutcome | csi-rtos/csi/drivers/common/power_manage.c:184-225 | with any callbacks failing, a device served both ways gets its saved registers back whatever the others do, one resumed but not saved gets the words its block held before, one not resumed gets nothing; all headers unchanged |
| SuspendResume.DeepSleepRoundTrip | csi-rtos/csi/drivers/common/power_manage.c:184-225 | from every state that meets the invariant, suspend all then resume all gives each listed device back exactly the registers it saved, whatever was lost, with all headers unchanged |
| SuspendResume.BehindFailure | csi-rtos/csi/drivers/common/power_manage.c:195-206 | a device behind a failing one in the same list is not reached |
| SuspendResume.OverrunBreaksList | csi-rtos/csi/drivers/common/power_manage.c:170-175 | one word beyond the block replaces the next header's link, so the list is no longer stored |
| PowerManager.Unlink | csi-rtos/csi/csi/include/drv/list.h:223-233 | removes the first occurrence of a node and keeps the order of the rest |
| PowerManager.SaveRegs | csi-rtos/csi/drivers/common/power_manage.c:170-175 | the copied words, and nothing else of the region, are replaced |
| PowerManager.RestoreRegs | csi-rtos/csi/drivers/common/power_manage.c:177-182 | the named registers get the stored words, the others stay |
| PowerManager.PowerManager.Register | csi-rtos/csi/drivers/common/power_manage.c:133-157 | exactly the specified registration, success if and only if some free block was big enough, the device first in its list; the invariant kept and no payload touched |
| PowerManager.PowerManager.Unregister | csi-rtos/csi/drivers/common/power_manage.c:159-168 | exactly the specified unregistration, with the invariant kept under the condition above |
| PowerManager.PowerManager.NotifyList | csi-rtos/csi/drivers/common/power_manage.c:196-205 | a list is walked up to its first failing callback, with the effect and code of those callbacks |
| PowerManager.PowerManager.Notify | csi-rtos/csi/drivers/common/power_manage.c:184-225 | the effect of visiting the specified order, the last callback's code, and the invariant kept |
| PowerManager.PowerManager.EnterSleep | csi-rtos/csi/drivers/common/power_manage.c:227-274 | deep sleep 1 gives every device its outcome, and all their registers back when no callback fails; a suspend whose reported code is an error does not sleep; the other modes touch no retention word |
| Numerals.LongToString | csi-rtos/modules/newlib_wrap/__ltostr.c:11-39 | the numeral, or its low-order digits, and a terminator at the start of the buffer, nothing outside it touched; bases 0 and above 36 count as 10 |
| Numerals.TextReadsBack | csi-rtos/modules/newlib_wrap/__ltostr.c:11-39 | a number that fits is written as its numeral: it reads back, and only zero starts with the digit 0 |
| Numerals.LowDigitsCut | csi-rtos/modules/newlib_wrap/__lltostr.c:11-39 | a number that does not fit keeps exactly its low-order digits, all of them |
| Numerals.OtherBases | csi-rtos/modules/newlib_wrap/__ltostr.c:20 | base 0 and bases above 36 count as 10 |
| Printf.DigitsAlwaysFit | csi-rtos/modules/newlib_wrap/__v_printf.c:294-298 | every 64-bit value has fewer digits than the 123 characters handed over, in every base |
| Printf.WritePad | csi-rtos/modules/newlib_wrap/__v_printf.c:28-37 | exactly the padding asked for reaches the sink and is counted |
| Printf.WriteField | csi-rtos/modules/newlib_wrap/__v_printf.c:172-225 | the padded field reaches the sink and is counted |
| Printf.WriteNumber | csi-rtos/modules/newlib_wrap/__v_printf.c:265-316 | the field of a number built in a 128-byte buffer without leaving it |
| Printf.ReadDirective | csi-rtos/modules/newlib_wrap/__v_printf.c:78-143 | the loop over flags, width, precision and length computes the recursive parse |
| Printf.VPrintf | csi-rtos/modules/newlib_wrap/__v_printf.c:39-375 | exactly the rendered text reaches the sink and the result is its length; -1 after a broken directive |
| Printf.Sink.Put | csi-rtos/modules/newlib_wrap/vsnprintf.c:19-31 | the stored text depends only on the text written so far, not on how it was cut, and nothing past its terminator is touched |
| Printf.Vsnprintf | csi-rtos/modules/newlib_wrap/vsnprintf.c:33-43 | the first min(n, size-1) characters of the full text, a terminator, everything later untouched; n is the full length |
| PrintfIso.NumberTextMeans | csi-rtos/modules/newlib_wrap/__v_printf.c:172-225 | an integer field has length max(width, sign + max(precision, digits)) and reads back as the number |
| PrintfIso.NumberReadsBack | csi-rtos/modules/newlib_wrap/__v_printf.c:229-316 | a call prints a text that reads back in base 10 for d, i and u, 2 for b, 8 for o, 16 for x and X, as the argument for d and i and modulo the range of its type for the others; capital digits for X alone |
| PrintfIso.NumberDirective | csi-rtos/modules/newlib_wrap/__v_printf.c:249-316 | any flags in any order, width and precision in digits or by `*`, and length modifiers on d, i, u, x, X, o, b, with `#` on x, X and o, print the standard's field for their arguments |
| PrintfIso.AlternativeTextMeans | csi-rtos/modules/newlib_wrap/__v_printf.c:236-263 | with `#` the field of a number other than zero has length max(width, prefix + digits) and reads back as the number |
| PrintfIso.StringDirective | csi-rtos/modules/newlib_wrap/__v_printf.c:161-170 | %s prints at most precision characters, padded with blanks to the width, both in digits or by `*` |
| PrintfIso.NegativeStringIff | csi-rtos/modules/newlib_wrap/__v_printf.c:131-143 | the field of a negative precision is the standard's if and only if the string is blank and within the width |
| PrintfIso.StringFormIff | csi-rtos/modules/newlib_wrap/__v_printf.c:131-170 | a whole call of %s prints the standard's text if and only if the precision is not negative or the string is blank and within the width |
| PrintfIso.LiteralText | csi-rtos/modules/newlib_wrap/__v_printf.c:46-51 | text with every percent sign doubled prints as itself |
| PrintfIso.CharPrints | csi-rtos/modules/newlib_wrap/__v_printf.c:145-149 | %c prints the low eight bits of its argument |
| PrintfIso.NullPrints | csi-rtos/modules/newlib_wrap/__v_printf.c:161-170 | a null string prints as (null), with width and precision |
| PrintfIso.UnknownConversion | csi-rtos/modules/newlib_wrap/__v_printf.c:369-371 | any other conversion character prints nothing and takes no argument |
| PrintfIso.WrittenPrecision | csi-rtos/modules/newlib_wrap/__v_printf.c:131-143 | a precision in digits may have blanks and a sign ahead; negative counts as 0, and it is held within 32 bits |
| PrintfIso.DigitAfterPrecision | csi-rtos/modules/newlib_wrap/__v_printf.c:112-125 | a digit after a precision by `*` breaks the directive |
| PrintfIso.EndsInDirective | csi-rtos/modules/newlib_wrap/__v_printf.c:78-81 | a format that ends inside a directive fails after what came before it |
| PrintfIso.WholeFormat | csi-rtos/modules/newlib_wrap/__v_printf.c:39-375 | a format of any number of literals, characters and directives prints the pieces and fields in order, each with its own arguments |
| PrintfIso.CodeIsIsoIff | csi-rtos/modules/newlib_wrap/__v_printf.c:236-316 | the printed field is the standard's, with `#` if and only if the number is not zero or is an octal zero among padding zeros, with a negative precision if and only if the number is not zero and no zeros pad |
| PrintfIso.AlternativeFormIff | csi-rtos/modules/newlib_wrap/__v_printf.c:236-263 | a whole call with `#` prints the standard's text if and only if the number is not zero or is an octal zero among padding zeros |
| PrintfIso.HashZero | csi-rtos/modules/newlib_wrap/__v_printf.c:236-263 | the format %#x prints 0 as 0x0, where the standard has 0 |
| PrintfIso.NegativeZero | csi-rtos/modules/newlib_wrap/__v_printf.c:131-143 | the format %.*d prints nothing for -1 and 0, where the standard has 0 |
| TraceFormat.SizeIsExact | csi-rtos/csi/libs/trace/trcUser.c:319-337 | the announced size is never too small, and exact unless a plain event uses a memory type |
| TraceFormat.EncodeBytes | csi-rtos/csi/libs/trace/trcUser.c:144-317 | every byte of an event: type, name number, 16-bit delta, with the divider of type 0x3f and a multiple of 0xffff ahead of longer ones, address and size behind, all least significant first |
| TraceFormat.KeptIff | csi-rtos/csi/libs/trace/trcUser.c:159-173 | a running recorder keeps an event of its own kind if and only if its bytes leave room to spare |
| TraceFormat.DecodeRoundTrip | csi-rtos/csi/libs/trace/trcUser.c:254-317 | the reader recovers every event with type, name number, full time delta, address and size |
| TraceFormat.DecodableIff | csi-rtos/csi/libs/trace/trcUser.c:144-176 | different logs differ in bytes if and only if plain events use neither memory types nor the divider type |
| TraceFormat.OfferAllFits | csi-rtos/csi/libs/trace/trcUser.c:159-173 | over every run the used size is a multiple of four and below the capacity |
| TraceFormat.HookStoresPrefix | csi-rtos/csi/libs/trace/trcUser.c:104-118 | with a stop hook the stored log is a prefix of what was offered |
| TraceFormat.StoresPrefixIff | csi-rtos/csi/libs/trace/trcUser.c:104-176 | for every capacity, all runs store a prefix of what was offered if and only if a stop hook is set or no event fits |
| TraceFormat.Gap | csi-rtos/csi/libs/trace/trcUser.c:159-173 | for every capacity above four and no hook, a run that drops an event and stores a later one |
| TraceRecording.NamesReadBack | csi-rtos/csi/libs/trace/trcUser.c:362-397 | cutting the name table at its NULs gives back the names |
| TraceRecording.RecordAllFaithful | csi-rtos/csi/libs/trace/trcUser.c:144-176 | over every run with at most 255 names, each event's number stands for its call's name, or for NULL when the name did not fit |
| TraceRecording.RecordingReadsBack | csi-rtos/csi/libs/trace/trcUser.c:144-397 | over every run, the bytes of both buffers give back every kept call with type, name, full time delta, address and size |
| TraceRecording.CallKeptIff | csi-rtos/csi/libs/trace/trcUser.c:144-176 | a call is kept if and only if its bytes leave room to spare; else nothing changes but the stop |
| TraceRecording.AllKept | csi-rtos/csi/libs/trace/trcUser.c:144-317 | calls whose bytes together stay below the capacity are all kept, in order |
| TraceRecording.HookKeepsLongest | csi-rtos/csi/libs/trace/trcUser.c:104-176 | with a stop hook the longest prefix below the capacity is kept, and nothing after it |
| TraceRecording.HookKeepsPrefix | csi-rtos/csi/libs/trace/trcUser.c:104-176 | with a stop hook the calls kept are a prefix of the calls made |
| TraceNames.StoreResolves | csi-rtos/csi/libs/trace/trcUser.c:362-381 | up to 255 names, storing returns a number that resolves to the name, or 0 when the table is full, and names stay distinct |
| TraceNames.StoredIff | csi-rtos/csi/libs/trace/trcUser.c:362-381 | up to 255 names, a name is added if and only if it is not there and fits with its NUL |
| TraceNames.NumbersStay | csi-rtos/csi/libs/trace/trcUser.c:362-381 | whatever is stored later, no number changes its name |
| TraceNames.NamesStayDistinct | csi-rtos/csi/libs/trace/trcUser.c:73-84 | over every run of stores leaving at most 256 names, names are distinct and NULL is number 0 |
| TraceNames.DuplicateIff | csi-rtos/csi/libs/trace/trcUser.c:361-381 | a store can make a duplicate if and only if a name numbered 255 modulo 256 fits once more |
| TraceNames.DuplicateReached | csi-rtos/csi/libs/trace/trcUser.c:361-381 | a run of stores to 256 different names, and the store after it that makes a duplicate |
| TraceNames.TableAt | csi-rtos/csi/libs/trace/trcUser.c:386-394 | each name, with its NUL, starts where the names before it end |
| TraceRecorder.Recorder.FindName | csi-rtos/csi/libs/trace/trcUser.c:382-397 | the walk over the bytes finds the first equal name, or nothing |
| TraceRecorder.Recorder.StoreName | csi-rtos/csi/libs/trace/trcUser.c:362-381 | the specified store, with the bytes still the table of the names |
| TraceRecorder.Recorder.Clear | csi-rtos/csi/libs/trace/trcUser.c:73-84 | empty log, and NULL as the only name |
| TraceRecorder.Recorder.Start | csi-rtos/csi/libs/trace/trcUser.c:86-103 | a stopped recorder starts cleared, a running one is left alone |
| TraceRecorder.Recorder.Stop | csi-rtos/csi/libs/trace/trcUser.c:104-118 | data is ready; the recorder stops only with a hook |
| TraceRecorder.Recorder.RecordEvent | csi-rtos/csi/libs/trace/trcUser.c:144-176 | the event is appended whole or not at all, and the buffer stays the encoding of the log |
| TraceRecorder.Recorder.RecordMemory | csi-rtos/csi/libs/trace/trcUser.c:254-278 | the same for memory events with address and size |
| TraceRecorder.BuffersReadBack | csi-rtos/csi/libs/trace/trcUser.c:144-397 | at any time the bytes in the two arrays read back as the calls kept |
| FixedPoint.ClipSaturates | csi-rtos/csi/csi/dsp/include/csky_math.h:522-527 | the word comparison gives the nearest 32-bit value, for every 64-bit value |
| FixedPoint.SaturatingArithmetic | csi-rtos/csi/csi/dsp/include/csky_math.h:3319-3319 | the saturating sum and difference are the 32-bit values nearest to the exact ones |
| FixedPoint.ClarkeConstants | csi-rtos/csi/csi/dsp/include/csky_math.h:3117-3121 | the constants are the nearest to 1/sqrt(3), 2/sqrt(3) and sqrt(3)/2 at their scales |
| FixedPoint.ClarkeProducts | csi-rtos/csi/csi/dsp/include/csky_math.h:3117-3121 | the first product always fits; the second if and only if the magnitude of Ib is at most 1859775393 |
| FixedPoint.ClarkeIs | csi-rtos/csi/csi/dsp/include/csky_math.h:3099-3126 | Ibeta is the sum of the two products, and is held at an end of the range if and only if the sum is past it |
| FixedPoint.InvClarkeIs | csi-rtos/csi/csi/dsp/include/csky_math.h:3205-3232 | the inverse, for all inputs: the 32-bit value nearest to the difference of the two products |
| FixedPoint.ClarkeRoundTrip | csi-rtos/csi/csi/dsp/include/csky_math.h:3099-3232 | Clarke and back gives Ia exactly and Ib between three below and one above |
| FixedPoint.ParkIs | csi-rtos/csi/csi/dsp/include/csky_math.h:3342-3355 | for all inputs, Id and Iq as saturated sum and difference of saturated products |
| FixedPoint.InvParkIs | csi-rtos/csi/csi/dsp/include/csky_math.h:3457-3470 | the same for the inverse |
| FixedPoint.ParkRotates | csi-rtos/csi/csi/dsp/include/csky_math.h:3342-3355 | where nothing saturates, Park alone is the rotation, two units low at most on Id and less than one off on Iq |
| FixedPoint.ParkRoundTrip | csi-rtos/csi/csi/dsp/include/csky_math.h:3342-3470 | Park and back gives the vector scaled by sin^2+cos^2, with errors below 4 and 5 units, where nothing saturates |
| FixedPoint.UnitCircleRoundTrip | csi-rtos/csi/csi/dsp/include/csky_math.h:3342-3470 | for vectors eight units inside the unit circle and sin^2+cos^2 at most 1 nothing saturates, so those errors hold |
| FixedPoint.Interp15Bounds | csi-rtos/csi/csi/dsp/include/csky_math.h:3650-3693 | q15 interpolation reads inside the table, its final cast loses nothing, and it stays between the neighbours, one low at most and only above 0 |
| FixedPoint.Interp7Bounds | csi-rtos/csi/csi/dsp/include/csky_math.h:3714-3750 | the same for q7, with its own order of tests and its 12-bit index |
| FixedPoint.Interp15Line | csi-rtos/csi/csi/dsp/include/csky_math.h:3650-3693 | between table points q15 follows the straight line, from x alone, below it by the scaled value on the left and less than a unit more |
| FixedPoint.Interp7Line | csi-rtos/csi/csi/dsp/include/csky_math.h:3714-3750 | the same for q7 |
| FixedPoint.Interp31Line | csi-rtos/csi/csi/dsp/include/csky_math.h:3585-3628 | the same for q31, with less than four units |
| FixedPoint.MixStaysIn32 | csi-rtos/csi/csi/dsp/include/csky_math.h:3739-3748 | q7 interpolation never leaves 32 bits |
| FixedPoint.MixAtTablePoint | csi-rtos/csi/csi/dsp/include/csky_math.h:3675-3691 | at a table point q15 and q7 give the value exactly unless it is positive, then one less |
| FixedPoint.HalfAtTablePoint | csi-rtos/csi/csi/dsp/include/csky_math.h:3601-3627 | at a table point q31 gives an odd value less one, a positive even one less two, any other exactly |
| FixedPoint.Interp31Bounds | csi-rtos/csi/csi/dsp/include/csky_math.h:3585-3628 | q31 interpolation reads inside the table, overflows nowhere and stays between the neighbours, at most four low |
| RingBuffer.BytesConserved | csi-rtos/csi/drivers/common/ringbuffer.c:82-145 | over every run of the bounded FIFO, bytes accepted are bytes removed followed by bytes queued |
| RingBuffer.OutTakesFirst | csi-rtos/csi/drivers/common/ringbuffer.c:121-145 | an output takes the first bytes: as many as asked for, or all there are |
| RingBuffer.AdvanceWrapsIff | csi-rtos/csi/drivers/common/ringbuffer.c:105-140 | the index wraps as it should if and only if the 32-bit sum does not overflow, which it never does up to 2^31 bytes |
| RingBuffer.Fifo.Reset | csi-rtos/csi/drivers/common/ringbuffer.c:13-18 | the queue is empty |
| RingBuffer.Fifo.In | csi-rtos/csi/drivers/common/ringbuffer.c:82-110 | a step of the bounded FIFO: the queue in the wrapped array grows by the longest prefix that fits; bytes accepted stay bytes removed followed by bytes queued |
| RingBuffer.Fifo.Out | csi-rtos/csi/drivers/common/ringbuffer.c:121-145 | a step of the bounded FIFO: the queue loses its first bytes, which land in the destination unless it is null; bytes accepted stay bytes removed followed by bytes queued |
| PoMessages.EscapeRoundTrip | csi-rtos/tools/kconfig-frontends/utils/gettext.c:12-61 | reading the adjacent literals gives back the text |
| PoMessages.EscapeInjective | csi-rtos/tools/kconfig-frontends/utils/gettext.c:12-61 | different texts have different written forms |
| PoMessages.WrittenShape | csi-rtos/tools/kconfig-frontends/utils/gettext.c:22-57 | the written form starts with an empty literal on a line of its own if and only if the text has a newline; a final newline closes the last literal |
| PoMessages.ShortTextsFit | csi-rtos/tools/kconfig-frontends/utils/gettext.c:32-52 | texts of at most (len - 6) / 6 characters are written whole, inside the buffer |
| PoMessages.StaysInsideIff | csi-rtos/tools/kconfig-frontends/utils/gettext.c:12-61 | the exact condition, for every text and count, under which nothing is written past the buffer |
| PoMessages.CutRunsOver | csi-rtos/tools/kconfig-frontends/utils/gettext.c:32-52 | a text that is cut off has used up the count and runs over it by at most five |
| PoMessages.OneLineInsideIff | csi-rtos/tools/kconfig-frontends/utils/gettext.c:32-57 | a text without newlines stays inside if and only if its whole written form and terminator fit |
| PoMessages.LineInsideIff | csi-rtos/tools/kconfig-frontends/utils/gettext.c:32-57 | n letters and a newline stay inside the buffer of 16384 unless n is 16376 to 16378 |
| PoMessages.QuotesInsideIff | csi-rtos/tools/kconfig-frontends/utils/gettext.c:33-50 | n quotes stay inside the buffer of 16384 if and only if n is at most 8190 |
| PoMessages.WrittenWhole | csi-rtos/tools/kconfig-frontends/utils/gettext.c:32-57 | what is written of a text that is not cut off is its written form |
| PoMessages.EscapeInto | csi-rtos/tools/kconfig-frontends/utils/gettext.c:12-61 | for any text and count that stay inside, the buffer holds the written part, closed, and a terminator, cut off where the loop stops |
| PoMessages.OneEntryPerText | csi-rtos/tools/kconfig-frontends/utils/gettext.c:149-169 | after any run of additions, one entry per text added, with its first option and all its places, newest first |
| PoMessages.NewestFirst | csi-rtos/tools/kconfig-frontends/utils/gettext.c:149-169 | the entries are in the order of their first adding, newest first |
| PoMessages.EntriesWereAdded | csi-rtos/tools/kconfig-frontends/utils/gettext.c:149-169 | every entry is the written form of a text that was added |
| PoMessages.MessageTable.FindMessage | csi-rtos/tools/kconfig-frontends/utils/gettext.c:120-131 | the first entry with that written form, or the end of the list |
| PoMessages.MessageTable.Add | csi-rtos/tools/kconfig-frontends/utils/gettext.c:149-169 | the message of what was written gets one more place or is new at the head, which for a text not cut off is the specified addition; nothing and -1 without memory |
| PowerDomains.OwnApart | csi-rtos/csi/chips/thead/light_aon/include/power.h:103-107 | no register bit belongs to two domains |
| PowerDomains.DomainNumbers | csi-rtos/csi/chips/thead/light_aon/power.c:1582-1669 | which domain or core each number stands for, and its isolation and switch bits |
| PowerDomains.RegisterMap | csi-rtos/csi/chips/thead/light_aon/sysclk.c:24-143 | the reset and clock bits of each domain |
| PowerDomains.ScriptsLeadThere | csi-rtos/csi/chips/thead/light_aon/power.c:625-909 | from any state, power-up ends powered, connected, clocked, released and power-down off, isolated, unclocked, in reset; the GPU scripts leave reset and clock alone, and audio power-down asserts one of six resets |
| PowerDomains.PowerUpResets | csi-rtos/csi/chips/thead/light_aon/power.c:625-909 | every power-up but the GPU's first asserts all resets with nothing else touched |
| PowerDomains.EveryState | csi-rtos/csi/chips/thead/light_aon/power.c:625-909 | in every state of every run of commands, released implies clocked implies connected implies powered; the first link for all domains but audio and GPU, the second for all but the GPU |
| PowerDomains.CommandIsLocal | csi-rtos/csi/chips/thead/light_aon/power.c:1582-1669 | from any state, a command leaves every bit of every other domain as it was |
| PowerDomains.AudioDownReleasedIff | csi-rtos/csi/chips/thead/light_aon/power.c:685-700 | audio power-down leaves a reset released if and only if one of the five it does not assert was |
| PowerDomains.AudioLinkIff | csi-rtos/csi/chips/thead/light_aon/power.c:685-724 | in every state of a run released implies clocked for audio, if and only if no audio power-down comes after an audio power-up, or at all when one of the five was released at first |
| PowerDomains.AudioKeepsResetsReleased | csi-rtos/csi/chips/thead/light_aon/power.c:685-724 | up and down again, from any state, leaves a reset released with the clock stopped |
| PowerDomains.Chip.Switch | csi-rtos/csi/chips/thead/light_aon/power.c:625-909 | a domain's writes in order, with every chain that held at the start kept in every state since |
| PowerDomains.Chip.PdCtrl | csi-rtos/csi/chips/thead/light_aon/power.c:1582-1660 | the domain's writes in order, or -1 and no write for an unknown mode or domain; the chains are kept |
| PowerDomains.Chip.CpuCtrl | csi-rtos/csi/chips/thead/light_aon/power.c:1662-1669 | the core's writes in order, or none for an unknown core |
| Rails.CtrlKeepsSuffix | csi-rtos/csi/chips/thead/light_aon/power.c:924-950 | aborted anywhere or not, the rails on are a suffix of the table; success switches all on or all off |
| Rails.SucceedsIff | csi-rtos/csi/chips/thead/light_aon/power.c:924-950 | success if and only if every regulator call succeeds |
| Rails.StopsAtFailure | csi-rtos/csi/chips/thead/light_aon/power.c:924-950 | at the first failing call exactly the rails before it in order have been switched, and its own if it did switch it |
| Rails.RunKeepsSuffix | csi-rtos/csi/chips/thead/light_aon/power.c:924-950 | the same over every run of calls, for tables of any length |
| Rails.Pmic.PowerCtrl | csi-rtos/csi/chips/thead/light_aon/power.c:924-950 | the loop does exactly that |

## Left out

- RetentionMemory.RetentionMemory.Alloc: request sizes are multiples of 4, because headers at unaligned addresses are not words of the region; `RetentionSizes` has what the allocator does with requests of any size, on the size words.
- PowerManager.PowerManager.Register: sizes are multiples of 4 for the same reason, priorities are below 4 and the device is not listed yet, because the source indexes past its lists, or makes a list cyclic, otherwise.
- PowerManager.PowerManager.Notify: a callback saves and restores fixed register runs within the size it asked for, and one that fails does neither; callbacks that do anything else are not modelled.
- PowerManager.PowerManager.EnterSleep: setting a new region while devices hold blocks of an old one is not modelled.
- Printf.VPrintf: %f, %g, %m and %p, `#` with a precision or on conversions other than x, X and o, missing arguments and arguments of the wrong type are not covered; `flag_long` and the returned count do not wrap.
- Printf.WriteNumber: the same for `#`.
- Printf.Vsnprintf: the same formats, and the full text is shorter than 2^31 characters, which is what an int can count.
- PrintfIso.NumberDirective: widths and precisions are below 2^31, and an argument under `h` or `hh` is in range; a negative `*` width is parsed as the code does and not compared with the standard.
- PrintfIso.WholeFormat: %c has no width, which the code ignores, and %s no `#`.
- Numerals.LongToString: a buffer of one character cannot hold a zero, and the source then writes before it; such a call is excluded.
- TraceRecorder.Recorder.RecordEvent: the big-endian path, the stop hook's own actions and the timer are not modelled.
- RingBuffer.Fifo.In: buffers above 2^31 bytes are excluded, because the 32-bit index sum can then overflow.
- RingBuffer.Fifo.Out: the same.
- PoMessages.EscapeInto: texts for which the source writes past its buffer are excluded.
- PoMessages.MessageTable.Add: the same, for its buffer of 16384 characters.
- PoMessages.OneEntryPerText: texts that are cut off are not covered; two of them can share a message.
- PowerDomains.Chip.PdCtrl: reading a SET or CLR register is taken to return 0; the IOPMP writes, the delays, the polling of acknowledge bits, the wait for an idle core and the hardware power mode are left out.
- Rails.Pmic.PowerCtrl: the entries of the rail table name different regulators.
- The four trace calls for malloc and free, `trace_printf`, buffer information and error text: thin wrappers.
- The PID controller, bilinear interpolation, floating-point and SIMD versions in csky_math.h.
- Chip suspend and resume as a whole, clock-source switching, interrupt save lists, watchdog, pin and board code: register plumbing or waits on hardware.
- Critical sections and interrupts: each public call is one step.
