# CloudMusic desktop-lyrics reader, modelled in Dafny

The program attaches to the NetEase CloudMusic desktop client and reads the
lyric line the client is showing straight out of its memory. This project
models the four pieces of logic in `main.py` that do that work:

- **`MemoryAccess`** (`memory_reader.dfy`): the `MemoryReader` class. It
  owns a process handle and reads 64-bit words from the target process.
  `read_uint64` makes three checks, in this order:
  1. the handle is set;
  2. the address lies in `[0x10000, 0x7FFFFFFFFFFF]`;
  3. `ReadProcessMemory` succeeds and transfers exactly 8 bytes.

  The operating system enters the model as two values fixed when the reader
  is built. `OpenProcess` is an oracle from process id to handle.
  `ReadProcessMemory` is a table (`Memory`) of what the call answers at each
  address: success flag, bytes transferred, word, and last-error code. An
  address the table does not list fails with `ERROR_PARTIAL_COPY` (299).
  Two ghost logs record the reads and the `CloseHandle` calls actually issued.
- **`PointerChain`** (`pointer_chain.dfy`): `resolve_pointer_chain`. It is a
  left fold `current := read_uint64(current + offset)` over the offsets. The
  fold stops at the first failure and wraps that failure with the 1-based
  level and the offset of that level. The method's loop is proved against
  the recursive function `Resolve` (the result) and `ChainReads` (the reads
  issued).
- **`ModuleLocator`** (`module_locator.dfy`): `get_module_base`. It is a
  linear search for the first module whose lower-cased name equals the
  lower-cased target. `str.lower` is an abstract function parameter.
- **`Lyric`** (`lyric.dfy`), with **`Utf16`** (`utf16.dfy`): one tick of the
  polling loop, and the loop itself. Each tick:
  1. reads 200 bytes;
  2. cuts them at the first `00 00` pair, found at any byte offset;
  3. appends one zero byte to an odd-length result;
  4. decodes strictly as UTF-16LE;
  5. strips whitespace at both ends.

  The line is printed only when it differs from `last_lyric`, which it then
  replaces. The loop runs over a finite sequence of read results. Whitespace
  is the set of characters Python's `str.isspace` accepts, written out.
  `Utf16` gives the strict decoder a UTF-16LE encoder as partner and proves
  the two inverse.

The model follows `main.py` as written, in particular:

- `split(b'\x00\x00')` is not word-aligned. A terminator can start at an odd
  offset, inside the code units of the text. `Lyric.UnalignedTerminatorCuts`
  shows that "A" followed by U+4E00 loses its second character.
- A failed `read_bytes` and a decode error are not caught in the loop (only
  `KeyboardInterrupt` is), so either one ends the run.
- No check for emptiness comes before printing. An empty line that differs
  from the last one is printed.
- `close` hands the handle to `CloseHandle` but does not clear the field.

## Model

| member | source | states |
|---|---|---|
| MemoryAccess.MemoryReader.constructor | main.py:15-17 | a new reader has no handle (`None`) and has issued no read and no close |
| MemoryAccess.MemoryReader.OpenProcess | main.py:19-22 | the handle field takes what OpenProcess returns, even a null one; the call fails exactly when that handle is falsy |
| MemoryAccess.MemoryReader.Close | main.py:24-26 | CloseHandle is called with the handle exactly when it is set; the handle field is left unchanged |
| MemoryAccess.MemoryReader.ReadU64 | main.py:28-53 | the result is ReadU64Spec of the handle, table and address; exactly the reads in IssuedReads are appended to the read log, at most one per call |
| MemoryAccess.ReadU64Contract | main.py:29-53 | a value is returned iff the handle is set, the address is plausible, the call succeeds and 8 bytes were transferred, and then it is the word read; no handle means ProcessNotOpen with no read; an implausible address means SuspiciousAddress with no read; a partial copy (error 299) is still an error |
| PointerChain.ResolvePointerChain | main.py:64-72 | the loop returns Resolve from the base over all offsets, and appends exactly ChainReads to the reader's read log |
| PointerChain.ResolveSplit | main.py:66-68 | the fold over a list is the fold over its first k offsets, then, unless that failed, the fold on from where it ended |
| PointerChain.ChainReadsSplit | main.py:66-68 | the reads of a walk are the reads over the first k offsets, then, if those resolved, the reads from where they ended |
| PointerChain.ResolvedReadsAll | main.py:66-68 | a walk that resolves issued exactly one read per remaining offset |
| PointerChain.ResolveSuccess | main.py:64-72 | a resolved chain issued exactly one read per offset, in list order; read i is at the address reached after i levels plus offsets[i]; an empty chain returns the base |
| PointerChain.ResolveFailure | main.py:66-71 | a failed chain failed at some level k + 1: the first k levels resolved, the read at level k + 1 failed with the carried cause, and the error carries offsets[k] |
| PointerChain.FailedLevelEndsWalk | main.py:66-71 | if the first k levels resolve and the read at level k + 1 fails, the whole chain fails with level k + 1, offsets[k] and that read's error, whatever offsets follow |
| PointerChain.FailedLevelReadsNoMore | main.py:66-71 | in that case the reads issued are those of the first k levels plus the failed read; no later level is read |
| PointerChain.FailedChainIgnoresLaterLevels | main.py:66-71 | appending offsets to a failed chain leaves its outcome unchanged |
| PointerChain.FailedChainReadsNoMore | main.py:66-71 | appending offsets to a failed chain issues no further reads |
| ModuleLocator.GetModuleBase | main.py:56-61 | fails with ModuleNotFound iff no module's lower-cased name equals the lower-cased target; otherwise returns the base of the first module that matches |
| Utf16.Combine | main.py:120 | a surrogate pair combines into a supplementary code point (U+10000 to U+10FFFF) |
| Utf16.DecodeUtf16Le | main.py:120 | a successful decode had an even number of bytes and yields at most one character per code unit |
| Utf16.DecodeUnitsSucceedsIffWellFormed | main.py:120 | the strict decoder accepts exactly the code-unit sequences in which every high surrogate is followed by a low one and no low surrogate stands alone |
| Utf16.DecodeSucceeds | main.py:120 | decoding bytes succeeds iff their count is even and their code units are well formed, and re-encoding the result gives back the bytes |
| Utf16.DecodeEncode | main.py:120 | decoding the UTF-16LE encoding of any string gives the string back |
| Utf16.DecodeEncodeUnits | main.py:120 | decoding the code units of any string's encoding gives the string back |
| Utf16.EncodeDecodeUnits | main.py:120 | encoding a successful decode gives back the code units decoded |
| Utf16.UnitsBytesRoundTrip | main.py:120 | little-endian pairing inverts splitting code units into bytes |
| Utf16.BytesUnitsRoundTrip | main.py:120 | on an even number of bytes, splitting the paired code units gives back the bytes |
| Lyric.TerminatorIndex | main.py:114 | the offset of the first zero byte pair at any offset, or the buffer length when there is none |
| Lyric.Candidate | main.py:114 | the candidate is the prefix of the buffer before the first zero pair, or the whole buffer when there is none |
| Lyric.PadEven | main.py:117-118 | the padded candidate has even length, keeps the candidate as its prefix, and adds one zero byte exactly when the length was odd |
| Lyric.Strip | main.py:120 | the result is a contiguous slice of the input, with only whitespace before and after it, that neither starts nor ends with whitespace |
| Lyric.StripUnique | main.py:120 | any split into whitespace, a middle that is empty or bounded by non-space characters, and whitespace, is what Strip returns |
| Lyric.StripKeepsInterior | main.py:120 | text that neither starts nor ends with whitespace is returned unchanged; nothing inside is normalised |
| Lyric.StripIdempotent | main.py:120 | stripping twice is stripping once |
| Lyric.LyricWithinBuffer | main.py:113-120 | on a 200-byte window the padded candidate is even and at most 200 bytes long, so the decoded text has at most 100 UTF-16 code units and the stripped lyric at most 100 characters |
| Lyric.UnalignedZeroPair | main.py:114 | the UTF-16LE encoding of "A" and U+4E00 holds a zero pair at the odd offset 1 |
| Lyric.UnalignedTerminatorCuts | main.py:114-120 | that text followed by a terminator is cut after one byte, padded, and decodes to "A" alone |
| Lyric.Detect | main.py:121-123 | a lyric is printed iff it differs from the last one; afterwards the last lyric is the lyric just processed |
| Lyric.DecodeWindow | main.py:114-120 | the split, in-place pad, decode and strip of one window equal the specification pipeline ExtractLyric |
| Lyric.PollLyrics | main.py:109-125 | the loop, starting with an empty last lyric and stopping at the first failed read or decode, prints and stops exactly as PollFrom specifies over the same reads |
| Lyric.TickLyricsIndex | main.py:110-120 | the i-th tick outcome is the outcome of the i-th read |
| Lyric.DetectAll | main.py:110-123 | a run never prints more lines than it had ticks |
| Lyric.EmptyLyricIsEmitted | main.py:121-123 | a window starting with a zero pair yields the empty lyric, which is printed when the last lyric was not empty |
| Lyric.LoneSurrogateIsFatal | main.py:120-133 | a window that starts with a lone low surrogate ends the run with a decode error; nothing is printed and later reads change nothing |
| Lyric.NoRepeats | main.py:121-123 | over any run, no line is printed twice in a row, the first line printed differs from the starting lyric, and the final last lyric is the last line printed (or the starting one) |
| Lyric.LeadingEmptyNeverEmitted | main.py:109 | since last_lyric starts empty, the first line printed is never empty |
| Lyric.RepeatedLyricEmitsAtMostOnce | main.py:121-123 | the same tick outcome repeated prints at most one line, and none when it equals the last lyric |
| Lyric.RepeatedBufferEmitsAtMostOnce | main.py:113-123 | reading the same window on every tick prints at most one line, and none when its lyric is already the last one |
| Lyric.FatalEndsRun | main.py:127-133 | once an error has ended the run, outcomes after it change nothing |
| Lyric.FatalPollEndsRun | main.py:127-133 | reads after the one that ended the run are never looked at |
| Lyric.CompletesIff | main.py:127-133 | a run ends without error exactly when every tick produced a lyric |
| Lyric.PollCompletesIff | main.py:113-133 | a polling run ends without error exactly when every read succeeded and every window decoded |

## Left out

- `OpenProcess`, `CloseHandle` and `ReadProcessMemory` are foreign calls. They are modelled as the `OpenOracle` function, the `closed` log and the `Memory` table. The table is a constant of the reader, so every read of one address gives the same answer for the reader's whole life, within a walk and across walks: the model does not capture the target process's memory changing.
- `GetLastError` is only read after a failed call. Its value is part of the table entry for each address.
- `FindWindow`, `GetWindowThreadProcessId`, `pymem.Pymem`, `list_modules` and `close_process` are foreign calls. The module list is a parameter of `GetModuleBase`. The setup sequence in `main` is not modelled.
- `pm.read_bytes` is a foreign call. Each tick's result is an input, `TickRead`: either the bytes read or a fault.
- `str.lower` is Unicode case mapping. It stays an abstract function parameter of `GetModuleBase`.
- `time.sleep` has no behaviour to verify.
- `KeyboardInterrupt` is asynchronous signal delivery. The loop runs over a finite sequence of reads, and an interrupt is the end of that sequence.
- The `print` calls and the wording of messages are not modelled. What remains is which lines are printed and the level, offset and cause an error carries.
- The hard-coded pointer-chain offsets and window names are configuration.
- `finally` cleanup and `exit(1)` are process lifecycle. `Close` is modelled on its own.
- The model does not fix the number of bytes a read returns. `LyricWithinBuffer` states the 200-byte bound for a full window.
