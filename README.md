# UModel core runtime, modelled in Dafny

This project models the runtime support layer of UModel's `Core/Core.cpp`. That layer holds
the small sequential services the rest of the viewer builds on:

* **Bounded C-string helpers.** `appStrncpyz`, `appStrncpylwr`, `appStrcatn` and `appStristr`
  work on `array<char>` destinations with a capacity (module `CStrings`).
* **File names.** `NormalizeFilename` and the directory-chain creation of `appMakeDirectory` and
  `appMakeDirectoryForFile` are in module `Paths`. The model returns the paths handed to
  `mkdir`, in call order.
* **The `va` scratch ring buffer.** It is a 2048-character static buffer with a cursor; class
  `ScratchBuffer` in module `Scratch`.
* **The header-tagged allocator.** `appMalloc`, `appRealloc` and `appFree` keep a header before
  each payload and update the statistics `GTotalAllocationSize` and `GTotalAllocationCount`.
  This is module `Memory`, with step functions on a `Heap` value and class `Allocator`, whose
  methods are proved equal to those steps.
* **Diagnostics** (module `Diagnostics`):
  * `appPrintf`, `appOpenLogFile`, `appSprintf`, the notify header of `appSetNotifyHeader` and
    `appNotify` (class `Console`);
  * the error history built by `LogHistory`, `appUnwindPrefix`, `appUnwindThrow` and the guarded
    branch of `appError` (class `Guard`).

Common conventions:

* A `const char *` argument is the characters it points at. The string it denotes is `CStr(s)`,
  the characters before the first NUL.
* Formatting is not expanded: the text a `printf`-style call would produce is an input.
* vsnprintf stores that text cut to the buffer, then a terminator. It returns the text's length
  when it fits and a negative value otherwise, which is the convention `va` relies on.
* Output streams are sequences of the strings written to them.
* Whether `fopen` succeeds, and the address the system `malloc` returns, are inputs.
* `exit(1)` and `THROW` end a call with a `Status`. Fatal allocator errors are `Err` outcomes.

Two facts about the code that the model keeps as written:

* The header's `offset` byte holds the distance from the raw block to the payload, less one
  (Core/Core.cpp:211-213). For raw blocks where the padding fits a byte, that value is at least 7,
  because the header sits in between. Where the padding does not fit, the byte wraps
  (Memory.OffsetByteWraps stores 6).
* The unguarded `appError` writes its second "Fatal Error" line to stderr, not to the log file
  (Core/Core.cpp:69; see Findings).

## Model

| member | source | states |
|---|---|---|
| CStrings.CopyZNothing | Core/Core.cpp:351-353 | with count <= 0 nothing is stored and the buffer is unchanged |
| CStrings.CopyZMeaning | Core/Core.cpp:351-367 | at most count characters are stored, and the destination's string becomes the source string cut to count-1 characters, always terminated |
| CStrings.CopyZ | Core/Core.cpp:351-367 | appStrncpyz stores nothing exactly when count <= 0 |
| CStrings.CopyZTerminated | Core/Core.cpp:351-367 | with room it stores at most count characters, the last the only terminator, and the whole source string when it fits |
| CStrings.Strncpyz | Core/Core.cpp:351-367 | the destination becomes the old buffer with exactly that terminated copy at the offset, every other character unchanged |
| CStrings.LowerKeepsTerminator | Core/Core.cpp:383 | lower-casing each character keeps the terminator in place, so it commutes with reading the C string |
| CStrings.Strncpylwr | Core/Core.cpp:370-386 | as appStrncpyz, with the ASCII lower-cased source |
| CStrings.CatnFrame | Core/Core.cpp:389-395 | appStrcatn keeps the buffer size, changes nothing at or past count, and changes nothing at all when at most one character of the capacity is left |
| CStrings.CatnAppends | Core/Core.cpp:389-395 | otherwise the string becomes the old string followed by the source cut to the room left; it stays shorter than count and terminated |
| CStrings.Strcatn | Core/Core.cpp:389-395 | the in-place append leaves exactly the buffer Catn describes |
| CStrings.Catn | Core/Core.cpp:389-395 | appStrcatn keeps the buffer's size |
| CStrings.WriteAt | Core/Core.cpp:327 | memcpy/strcpy leave the old buffer with exactly the written characters at the offset |
| CStrings.Vsnprintf | Core/Core.cpp:313 | vsnprintf leaves the buffer with the text cut to n-1 characters and a terminator at the offset, and returns the text's length when it and its terminator fit in n characters, -1 otherwise |
| CStrings.Decimal | Core/Core.cpp:345 | %d of a non-negative number: decimal digits with no leading zero that denote it |
| CStrings.FindFrom | Core/Core.cpp:403 | strstr: the first occurrence at or after i, or None exactly when there is none |
| CStrings.Folded | Core/Core.cpp:400-402 | each local buffer holds its argument lower-cased and cut to 1023 characters |
| CStrings.Stristr | Core/Core.cpp:398-406 | the result is an offset into s1's string at the first occurrence of the folded s2 in the folded s1, and None exactly when s2 occurs nowhere |
| CStrings.StristrShort | Core/Core.cpp:398-406 | for strings shorter than the buffers, the result is Some(k) exactly when k is the first position where s2 matches s1 ignoring ASCII case |
| Paths.Normalized | Core/Core.cpp:408-421 | the normalised string is no longer than the original |
| Paths.NormalizedAddsNoNul | Core/Core.cpp:414-419 | normalising a string without NUL adds no NUL |
| Paths.NormalizedIsNormal | Core/Core.cpp:408-421 | the result has no backslash and no two slashes in a row, keeps every non-separator character in order, and is empty exactly when the input is |
| Paths.NormalizedFixesNormal | Core/Core.cpp:408-421 | a name with no backslash and no double slash is left unchanged |
| Paths.NormalizeIdempotent | Core/Core.cpp:408-421 | normalising twice gives the same string as normalising once |
| Paths.NormalizedBufferReads | Core/Core.cpp:408-421 | after the in-place pass the buffer is still terminated and its string is the normalised old string |
| Paths.NormalizedBufferIdempotent | Core/Core.cpp:408-421 | running the in-place pass twice leaves the same buffer as running it once |
| Paths.NormalizeFilename | Core/Core.cpp:408-421 | the in-place loop leaves exactly the normalised buffer |
| Paths.CopiedAndNormalized | Core/Core.cpp:427-429 | after the bounded copy into the 256-character Name and normalisation, Name holds the name cut to 255 characters and normalised, terminated |
| Paths.LoadName | Core/Core.cpp:427-429 | the local buffer is loaded with that path |
| Paths.ChainLength | Core/Core.cpp:431-446 | the prefix loop makes at most one call per cut point |
| Paths.MkdirCalls | Core/Core.cpp:423-448 | no calls for an empty name; at most 256 calls, each a prefix of the normalised name |
| Paths.ChainMembers | Core/Core.cpp:431-446 | a path is created exactly when it is a prefix of the normalised name ending just before a slash or at the end, other than "." |
| Paths.ChainOrdered | Core/Core.cpp:431-446 | the created paths are successively longer prefixes |
| Paths.ChainEndsWithPath | Core/Core.cpp:431-446 | the last path created is the whole name (unless it is ".") |
| Paths.MakeDirectory | Core/Core.cpp:423-448 | the prefix loop, which cuts and restores the buffer, makes exactly the mkdir calls MkdirCalls lists (none for an empty name) |
| Paths.MkdirCallsOfNormal | Core/Core.cpp:423-448 | for a short normal path the bounded copy and normalisation change nothing |
| Paths.LastSlash | Core/Core.cpp:455 | strrchr: the position of the last slash, None exactly when there is none |
| Paths.ForFileMakesParents | Core/Core.cpp:450-462 | appMakeDirectoryForFile creates exactly the parent directories of the file: the proper prefixes ending before a slash, other than ".", and none when no slash follows the first character |
| Paths.ForFileCalls | Core/Core.cpp:450-462 | no calls when the normalised name has no slash; at most 256 calls |
| Paths.MakeDirectoryForFile | Core/Core.cpp:450-462 | the method makes exactly those calls |
| Scratch.ScratchBuffer.constructor | Core/Core.cpp:303-304 | the static buffer starts all NUL, with the cursor at 0 |
| Scratch.SuffixFits | Core/Core.cpp:326-327 | the terminated overflow marker is 16 characters and ends at the buffer end |
| Scratch.VaStep | Core/Core.cpp:299-335 | the cursor stays within the buffer and the returned offset lies inside it |
| Scratch.ScratchBuffer.Va | Core/Core.cpp:299-335 | the call leaves the buffer, cursor and returned offset that VaStep gives |
| Scratch.WrapsNearEnd | Core/Core.cpp:306 | a cursor in the last 512 characters behaves as cursor 0 |
| Scratch.StoredAtCursor | Core/Core.cpp:312-332 | a text that fits is stored whole at the (wrapped) cursor, which advances by its length plus one; what lies before it and after its terminator is untouched |
| Scratch.RetriedAtStart | Core/Core.cpp:314-320 | a text that does not fit at a cursor past 0 but fits the buffer is stored whole from offset 0, not split |
| Scratch.OverflowMarked | Core/Core.cpp:324-329 | a text that fits nowhere leaves the cursor at 0 and " ... (overflow)" in the last 16 characters; the string at offset 0 is the text's first 2032 characters followed by the marker |
| Memory.AlignmentOkIsPowerOfTwo | Core/Core.cpp:203 | the bit test alignment & (alignment-1) accepts exactly the powers of two from 2 to 256 |
| Memory.AlignUp | Core/Core.cpp:207 | Align gives the first multiple of the alignment at or after its argument |
| Memory.PayloadAt | Core/Core.cpp:204-207 | the payload starts after room for the header, within alignment-1 bytes of padding, on a multiple of the alignment |
| Memory.HeaderFields | Core/Core.cpp:210-215 | the header holds magic 0xAE, the distance back to the raw block less one modulo 256, the alignment less one, and the size |
| Memory.MallocStep | Core/Core.cpp:198-226 | a successful appMalloc returns the payload of a recorded block |
| Memory.MallocFailures | Core/Core.cpp:201-206 | appMalloc fails for a size outside [0, 256 MiB), then for an alignment that is not a power of two in (1, 256], then when malloc fails; a failure changes nothing |
| Memory.MallocPlacesBlock | Core/Core.cpp:198-226 | a successful call returns an aligned address inside the raw block, records the header fields, zero-fills size bytes, adds size and one to the statistics, and touches no other block |
| Memory.PaddingFits | Core/Core.cpp:204-211 | from an 8-aligned raw block the padding never exceeds 256, so the offset byte holds it |
| Memory.OffsetRoundTrip | Core/Core.cpp:213 | a distance in [1, 256] stored less one in a byte reads back exactly |
| Memory.FreeReleasesRawBlock | Core/Core.cpp:271-285 | when the padding fits the byte, appFree of a fresh block releases exactly the raw block appMalloc was given |
| Memory.OffsetByteWraps | Core/Core.cpp:211-213 | when it does not (256-aligned from raw address 249) appFree releases 505 instead of 249 |
| Memory.FreeStep | Core/Core.cpp:265-288 | appFree succeeds exactly for a non-null pointer with a live header; a failure changes nothing; a success keeps every header but leaves this one not live |
| Memory.FreeUncounts | Core/Core.cpp:265-288 | appFree refuses a null pointer and a header that is not live; otherwise it decrements the magic to 0xAD, keeps the payload, subtracts the recorded size and one block, and releases the raw block the offset leads back to |
| Memory.DoubleFreeDetected | Core/Core.cpp:274-275 | freeing a pointer again, or reallocating it after freeing it, fails the magic check |
| Memory.ReallocStep | Core/Core.cpp:228-263 | a successful appRealloc returns the payload of a recorded block; a non-null pointer without a live header fails the magic check and changes nothing |
| Memory.Moved | Core/Core.cpp:235-256 | the move of a recorded block returns the payload of a recorded block |
| Memory.ReallocCorrected | Core/Core.cpp:228-263 | the corrected appRealloc keeps those two properties |
| Memory.ReallocNullIsMalloc | Core/Core.cpp:233 | appRealloc of a null pointer is appMalloc with the default alignment |
| Memory.ReallocMovesPayload | Core/Core.cpp:235-255 | a successful move keeps the alignment, gives a block of newSize bytes holding the first min(newSize, oldSize) bytes of the old payload and zeros after, invalidates the old header and releases the old raw block |
| Memory.ReallocCounters | Core/Core.cpp:245-258 | as written, the size statistic grows by 2*newSize - oldSize and the count by one |
| Memory.ReallocFailureStrandsBlock | Core/Core.cpp:240-245 | when the inner appMalloc fails, the old header is already invalid: the block is neither live nor released and is still counted |
| Memory.FreeAfterReallocDetected | Core/Core.cpp:240-241 | a pointer appRealloc has moved can be neither freed nor reallocated again |
| Memory.MallocKeepsWellFormed | Core/Core.cpp:208-215 | every payload stays as long as its header says |
| Memory.MovedKeepsWellFormed | Core/Core.cpp:243-247 | the same holds after the move |
| Memory.MallocKeepsConsistent | Core/Core.cpp:218-219 | when the statistics equal the live blocks' total size and number, appMalloc at a fresh address keeps them equal |
| Memory.FreeKeepsConsistent | Core/Core.cpp:282-283 | appFree keeps them equal |
| Memory.ReallocOvercounts | Core/Core.cpp:258 | as written, a successful appRealloc leaves newSize bytes and one block counted that no live block accounts for |
| Memory.ReallocBreaksStatistics | Core/Core.cpp:218-258 | appMalloc(10) then appRealloc to 20: one live block of 20 bytes, but 40 bytes and two blocks counted |
| Memory.ReallocCorrectedSameBlocks | Core/Core.cpp:228-263 | the corrected statistics change nothing else: the blocks, released addresses and result are those of the code as written |
| Memory.ReallocCorrectedKeepsConsistent | Core/Core.cpp:258 | with the corrected update, a successful appRealloc keeps the statistics equal to the live blocks |
| Memory.Allocator.constructor | Core/Core.cpp:183-184 | no blocks, both statistics zero |
| Memory.Allocator.Malloc | Core/Core.cpp:198-226 | the method's result and new state are those of MallocStep |
| Memory.Allocator.Free | Core/Core.cpp:265-288 | the result and new state are those of FreeStep |
| Memory.Allocator.Realloc | Core/Core.cpp:228-263 | the result and new state are those of ReallocCorrected |
| Diagnostics.Console.constructor | Core/Core.cpp:16 | no log file, nothing written, an empty notify header |
| Diagnostics.PrintfStep | Core/Core.cpp:26-42 | appPrintf exits exactly for a text of 4095 characters or more, and never writes stderr or notify.log |
| Diagnostics.PrintfEchoes | Core/Core.cpp:26-42 | appPrintf exits exactly for a text of 4095 characters or more; otherwise the text goes to stdout and, only when open, to the log |
| Diagnostics.Console.Printf | Core/Core.cpp:26-42 | the method exits in exactly that case and otherwise writes what PrintfStep says |
| Diagnostics.Console.OpenLogFile | Core/Core.cpp:18-23 | the log is open exactly when fopen succeeded; a failure is reported through appPrintf |
| Diagnostics.Console.SetNotifyHeader | Core/Core.cpp:77-88 | a null format clears the header; any other text sets it, cut to 511 characters |
| Diagnostics.NotifyStep | Core/Core.cpp:91-127 | appNotify exits exactly for a text of 4095 characters or more; otherwise stdout is untouched and stderr grows |
| Diagnostics.NotifyFraming | Core/Core.cpp:91-127 | appNotify exits for 4095 characters or more. Otherwise stderr, the log (only when open) and notify.log (only when it opens) each get the header frame first when there is a header, then the message; stdout gets nothing |
| Diagnostics.NotifyHeaderOnce | Core/Core.cpp:115-126 | notifying twice frames only the first message, because the first call clears the header |
| Diagnostics.Console.Notify | Core/Core.cpp:91-127 | the method writes what NotifyStep says for the current header, then clears the header |
| Diagnostics.Console.Deliver | Core/Core.cpp:104-124 | the three streams receive the frame and the message |
| Diagnostics.Console.Sprintf | Core/Core.cpp:338-348 | appSprintf stores the text cut to size-1 characters, terminated, returns vsnprintf's result, and reports through appPrintf exactly when the text does not fit with room to spare |
| Diagnostics.ReportFits | Core/Core.cpp:142 | appUnwindPrefix's overflow report itself fits appPrintf's buffer |
| Diagnostics.Logged | Core/Core.cpp:133-137 | the history stays shorter than GErrorHistory |
| Diagnostics.LoggedExtends | Core/Core.cpp:133-137 | the banner starts an empty history and only that one; the history grows only at its end, by the whole part when it fits |
| Diagnostics.HistoryBuf | Core/Core.cpp:133-137 | LogHistory keeps the 2048-character size of GErrorHistory |
| Diagnostics.HistoryReads | Core/Core.cpp:133-137 | the buffer LogHistory leaves is terminated and holds the history Logged describes |
| Diagnostics.Guard.LogHistory | Core/Core.cpp:133-137 | the method leaves that buffer |
| Diagnostics.ThrowStep | Core/Core.cpp:149-169 | after appUnwindThrow the history fits GErrorHistory and WasError is set |
| Diagnostics.PrefixStep | Core/Core.cpp:139-145 | after appUnwindPrefix the history fits GErrorHistory and WasError is clear |
| Diagnostics.ErrorStep | Core/Core.cpp:60-66 | after the guarded appError the history fits and WasError is unchanged; a message that fits becomes the history followed by "\n" |
| Diagnostics.FirstThrow | Core/Core.cpp:160-166 | the first appUnwindThrow logs its message unprefixed, after the banner when the history is empty, and sets WasError |
| Diagnostics.NextThrow | Core/Core.cpp:155-158 | while WasError is set, appUnwindThrow appends " <- " and its message |
| Diagnostics.PrefixAppends | Core/Core.cpp:139-145 | appUnwindPrefix appends "name:", after " <- " while WasError is set, and clears WasError |
| Diagnostics.UnwindTrace | Core/Core.cpp:139-169 | an inner region B throwing, then an outer region A throwing, then an enclosing function f, yields the banner, "B <- A <- f:" and WasError cleared |
| Diagnostics.ErrorTrace | Core/Core.cpp:60-66 | appError replaces the history with its message and a line break, so an enclosing function f follows directly: "msg\nf:" |
| Diagnostics.Guard.constructor | Core/Core.cpp:130-131 | an empty history, WasError and GIsSwError clear |
| Diagnostics.Guard.UnwindPrefix | Core/Core.cpp:139-145 | the history and WasError change as PrefixStep says, with the appSprintf report when the name does not fit the buffer; NotifyBuf is untouched |
| Diagnostics.Guard.PrefixFormatted | Core/Core.cpp:141-142 | the appSprintf into the 512-character buffer leaves PrefixPart as its string, with the overflow report when the expanded format does not fit |
| Diagnostics.Guard.ThrowFormatted | Core/Core.cpp:151-165 | the formatting leaves ThrowPart as the buffer's string: " <- " and the text while WasError is set, the text alone otherwise, cut to the buffer |
| Diagnostics.Guard.UnwindThrow | Core/Core.cpp:149-169 | the history and WasError change as ThrowStep says, and the call throws |
| Diagnostics.Guard.Record | Core/Core.cpp:64-65 | strcpy then appStrcatn of a line break leave the message and "\n" as the history |
| Diagnostics.Guard.Error | Core/Core.cpp:51-66 | appError exits exactly for a text of 4095 characters or more; otherwise it sets GIsSwError, makes the history the message and a line break, and throws |
| Diagnostics.FatalReport | Core/Core.cpp:67-71 | as written, the unguarded report adds two lines to stderr when the log is open, one otherwise, and leaves stdout, the log and notify.log as they were |
| Diagnostics.FatalReportMissesLog | Core/Core.cpp:67-71 | as written, the unguarded report goes to stderr twice and never to the open log |
| Diagnostics.FatalReportCorrected | Core/Core.cpp:67-71 | corrected, it adds one line to stderr, one to the log exactly when it is open, and nothing elsewhere |
| Diagnostics.FatalReportReachesLog | Core/Core.cpp:67-71 | corrected, it goes to stderr once and to the log when open |

## Left out

- Real I/O is not performed. stdout, stderr, the log file and notify.log are sequences of written strings; `fflush` and `fclose` are not modelled. `mkdir` calls are the returned list of paths. Whether `fopen` succeeds is a parameter.
- `OutputDebugString` and `IsDebuggerPresent` (Core/Core.cpp:38-41) are left out: this is Windows debugger output.
- Format expansion of a caller's format and arguments is not modelled: that formatted text is an input. The runtime's own fixed formats are expanded: the notify frames "******** %s ********\n" and its notify.log variant, "*** %s\n", "Fatal Error: %s\n", "Unable to open log \"%s\"\n", appSprintf's overflow report with its %d and %s, and appUnwindPrefix's "%s:" and " <- %s:".
- vsnprintf is assumed to return a negative value when the text does not fit, as `va` relies on. A C99 vsnprintf, which returns the full length, is not modelled.
- `va` formats the same `va_list` a second time on its retry (Core/Core.cpp:319). The model assumes the retry sees the same text.
- `THROW`, `exit(1)`, the `guard`/`unguard`/`unguardf` macros, `Align` and `OffsetPointer` are defined in Core.h, which is not part of this model. THROW and exit are a `Status`; Align is modelled as rounding up to a multiple of the alignment.
- The appMalloc alignment `assert` is modelled as a fatal check (`BadAlignment`). The default alignment of `appMalloc(size)` is assumed to be 8, because Core.h is not part of this model.
- Memory.PaddingFits: holds only for raw addresses that are multiples of 8, as system allocators return. An arbitrary raw address can wrap the offset byte, as OffsetByteWraps shows.
- The raw addresses `malloc` returns are inputs. Pointer arithmetic, a foreign pointer, and memory outside the blocks are not modelled. A pointer that is not a block's payload fails the magic check.
- The `PROFILE` counter `GNumAllocs` (Core/Core.cpp:220-222, 249-251) is not modelled; it is a build option and no modelled state depends on it.
- The `DEBUG_MEMORY` 0xFE fill (Core/Core.cpp:252-254, 277-279) is not modelled. In such a build the payload of a freed or moved block reads 0xFE; the model keeps its old bytes.
- The statistics are unbounded integers. The 32-bit `int` overflow of the C counters is not modelled.
- `tolower` is ASCII lower-casing; locale-dependent case mapping is left out.
- Diagnostics.Guard.Error: requires that a text short enough to pass the 4095 check also fits GErrorHistory. The unchecked strcpy of up to 4094 characters into the 2048-character history overruns it (Core/Core.cpp:64), and that overrun is not modelled.
- Diagnostics.Console.Sprintf: requires size > 0 and a destination other than NotifyBuf. The source passes either (a size of 0 stores nothing).
- Memory.Allocator.Realloc: updates the statistics as corrected (ReallocCorrected), not as written at Core/Core.cpp:258. The as-written update is ReallocStep, and ReallocCounters and ReallocOvercounts are about it.
- Viewers/ObjectViewer.h is not part of this model. It is viewer and drawing glue over types that are not shown.

## Findings

| source | as written | input that shows it | evidently intended | confidence | as-written member | corrected member |
|---|---|---|---|---|---|---|
| Core/Core.cpp:258 | appRealloc adds newSize - oldSize to the size statistic, though the inner appMalloc (Core/Core.cpp:218-219) already counted newSize bytes and one block, and the old block is never uncounted | appMalloc(10) from raw block 1000, then appRealloc of it to 20 bytes: one live 20-byte block, but the statistics say 40 bytes and 2 blocks | uncount the old block, as appFree does: subtract oldSize and one | not executed | Memory.ReallocOvercounts | Memory.ReallocCorrectedKeepsConsistent |
| Core/Core.cpp:69 | with the log open, the unguarded appError prints "Fatal Error" to stderr a second time instead of to GLogFile | any appError in a build without DO_GUARD while the log file is open | fprintf(GLogFile, ...) | not executed | Diagnostics.FatalReportMissesLog | Diagnostics.FatalReportReachesLog |
