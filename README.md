# MSR query buffers, modelled in Dafny

This project models the query part of `src/MSRAccess.h`. That header gives user-mode access to
Model-Specific Registers (MSRs) through a kernel driver. A query (`_msrquery`) is a heap record
with these fields:

- `corecount` and `msrs`: the request shape, both `uint8_t`.
- `_result`: a status byte.
- `_res`: a reserved byte.
- `_count`: a `uint32_t` count of samples.
- `_input`: an owned array of `uint32_t` request words.
- `output`: an owned array of `uint64_t` response words.

The model covers how a query is allocated, filled, cloned and executed, and how its getters
address the two flat arrays.

Modules:

- `MsrTypes` (`msr_types.dfy`): the C integer widths, and the conversions the source depends on:
  truncation to `uint8_t`, `uint32_t` wrap-around, and the reinterpretation of a `DWORD` as an `int`.
- `QueryLayout` (`query_layout.dfy`): pure functions over word sequences.
  - The request encoding `[corecount][core]*corecount [len][msr]*len [0]` and a reference decoder.
  - The generated core list `0 .. corecount-1`.
  - The array sizes `AllocateQuery` computes. They are kept in 32-bit unsigned arithmetic, as in C.
  - The memset sentinels `0xDDDDDDDD` and all-ones.
  - The response addressing. Index 1 is the timestamp counter, and core `c` has its block at
    flat index `c*msrs+2`. A reference decoding splits the response into one row per core.
- `Driver` (`driver.dfy`): the `readMSRs` call.
  - The `DeviceIoControl` exchange is a parameter of type `DriverReply`. It gives the transport
    outcome and the words the driver writes into `output`.
  - `ReturnCode` is what `readMSRs` returns: `0`, or `-(int)err` in 32-bit two's complement.
  - `StatusByte` is the `(uint8_t)` cast `PerformMSRQuery` stores in `_result`.
- `MsrAccess` (`msr_access.dfy`): the record as class `Query`, and the C functions over it.
  - `_result`, `_res`, `_count` and `_input` become `result`, `res`, `count` and `input`.
  - A ghost history `statuses` records the status byte of every execution. `Valid()` ties
    `_count` to the number of zero statuses modulo 2^32, and `_result` to the last status.
  - Allocation failure is a parameter (`Malloc`), which says whether each of the three `malloc`
    calls succeeds.
  - The platform core count of `CreateMSRQueryAllCores` is a parameter.

Notes on the header as written:

- `CreateMSRQuery` calls `AllocateQuery(corecount, len + 1)` (line 168), so it reserves room for
  one register more than it writes. `_input` therefore has `corecount + len + 3` words, and
  every one of them is written. `output` has `(len + 1) * corecount + 2` words, of which the
  getters address the first `len * corecount + 2`.
- `CloneQuery` never sets the clone's `corecount` or `msrs`. `AllocateQuery` does not set them
  either, and the model leaves them unconstrained. Only the copied `_input` words carry the shape.
- `PerformMSRQuery` never reads `output[0]`, so a delivered exchange is always counted as a
  valid sample (`Driver.StatusOfTransport`, first ensures).
- A failed driver call does not always leave a non-zero status (see "## Findings").
- As written, the header does not compile. `IsSampleValid` reads `q->result`, and
  `AllocateQuery` and `CloneQuery` write `_resv`. The model uses the declared fields `_result`
  and `_res`.

## Model

| member | source | states |
|---|---|---|
| `QueryLayout.EncodeRequest` | src/MSRAccess.h:171-195 | The request words have `corecount+len+3` slots: `[0]` is the core count, `[1+i]` is core `i`, `[1+corecount]` is `len`, `[2+corecount+j]` is register `j`, and the last slot is the terminator 0 |
| `QueryLayout.DecodeRequest` | src/MSRAccess.h:111-113 | Reference reader of request words. A result that decodes has byte-sized counts and exactly `cores+regs+3` words |
| `QueryLayout.DecodeEncode` | src/MSRAccess.h:171-195 | Round trip: decoding the words of any byte-sized request gives back its core list and register list |
| `QueryLayout.EncodeDecode` | src/MSRAccess.h:171-195 | Converse round trip: any word sequence that decodes is exactly the encoding of what it decodes to |
| `QueryLayout.EncodingBySlots` | src/MSRAccess.h:171-195 | The slot values determine the encoding: words with those slots equal `EncodeRequest(req)` |
| `QueryLayout.CoreRange` | src/MSRAccess.h:175-180 | The generated core list has `n` entries, and entry `i` is `i` |
| `QueryLayout.InputWords` | src/MSRAccess.h:119 | The `_input` word count `cores + msrs + 2` in `uint32_t` arithmetic: never more than the true sum, and equal to it when the sum fits in 32 bits |
| `QueryLayout.OutputWords` | src/MSRAccess.h:126 | The `output` word count `msrs * cores + 2` in `uint32_t` arithmetic: never more than the true value, and equal to it when it fits in 32 bits |
| `QueryLayout.SizesDoNotWrap` | src/MSRAccess.h:119-126 | For a byte core count and at most 256 registers (every call inside the header), the sizes are exactly `cores+msrs+2` and `msrs*cores+2` words |
| `QueryLayout.OutputSizeWraps` | src/MSRAccess.h:126 | A direct call with 1 core and `2^32-2` registers wraps: 0 output words and 1 input word |
| `QueryLayout.SentinelsAreByteFills` | src/MSRAccess.h:125-133 | `memset` of `0xdd` over 4 bytes gives `0xDDDDDDDD`, and of `0xff` over 8 bytes gives `0xFFFFFFFFFFFFFFFF` |
| `QueryLayout.ValueOffset` | src/MSRAccess.h:107 | The index `core * msrs + 2` in `uint32_t` arithmetic: never more than the true value, and equal to it when it fits in 32 bits |
| `QueryLayout.Rows` | src/MSRAccess.h:105-108 | The split has `cores` rows of `msrs` values each |
| `QueryLayout.RowsAt` | src/MSRAccess.h:105-108 | Value `r` of row `c` is the block word at flat index `c*msrs+r`, and that index is in range |
| `QueryLayout.DecodeOutput` | src/MSRAccess.h:100-108 | The reference decoding exists exactly when the response has at least `cores*msrs+2` words, and then it has one row per core |
| `QueryLayout.DecodeOutputAt` | src/MSRAccess.h:106-108 | Addressing formula: value `(core, reg)` is `output[core*msrs+2+reg]` |
| `QueryLayout.ValueBlockInBounds` | src/MSRAccess.h:106-108 | On a created query, for `core < corecount` the flat index `core*msrs+2` does not wrap, and the whole block of `len` values fits in the `(len+1)*corecount+2` output words |
| `QueryLayout.ValueBlockDecodes` | src/MSRAccess.h:106-108 | The `msrs` words from `core*msrs+2` are the reference row of that core |
| `Driver.ReturnCode` | src/MSRAccess.h:68-78 | `readMSRs` returns 0 exactly when the exchange was delivered or the error code is 0 |
| `Driver.StatusOfTransport` | src/MSRAccess.h:212 | A delivered exchange gives status byte 0. A failed one gives status 0 exactly when its error code is a multiple of 256 |
| `Driver.FailureReadsAsValid` | src/MSRAccess.h:212 | As written: a failure with error code 256 gives status byte 0, the mark of a valid sample |
| `Driver.StatusByte` | src/MSRAccess.h:212 | The `(uint8_t)` cast: a return code in `0..255` is kept, and any code differs from its byte by a multiple of 256 |
| `Driver.CheckedStatusByte` | src/MSRAccess.h:212 | Corrected status byte: zero exactly when the return code is zero. It equals the C cast whenever that cast is non-zero |
| `Driver.ZeroErrorReadsAsDelivered` | src/MSRAccess.h:75-77 | As written: a failure whose `GetLastError()` code is 0 returns 0, the same value as a delivered exchange |
| `Driver.CheckedReturnCode` | src/MSRAccess.h:68-78 | Corrected return code: zero exactly when the exchange was delivered. It equals the return code as written whenever that code is non-zero |
| `Driver.CheckedStatusOfTransport` | src/MSRAccess.h:212 | With the corrected return code and status byte, an exchange is a valid sample exactly when it was delivered |
| `Driver.Overwrite` | src/MSRAccess.h:71 | The buffer keeps its length. Each word is the driver's word where one was written, and the old word elsewhere |
| `Driver.ReadMSRs` | src/MSRAccess.h:68-78 | Returns `ReturnCode` of the transport outcome. `output` afterwards is the old contents overwritten by what the driver wrote. `list` is not changed |
| `Driver.ReadMSRsChecked` | src/MSRAccess.h:68-78 | The same exchange as `ReadMSRs`, returning the corrected return code. `output` is overwritten in the same way |
| `MsrAccess.Successes` | src/MSRAccess.h:213-215 | The number of valid executions never exceeds the number of executions |
| `MsrAccess.SampleCountStep` | src/MSRAccess.h:213-215 | `_count++` on a `uint32_t` keeps `_count` equal to the number of valid executions modulo 2^32, through a valid or an invalid step |
| `MsrAccess.Query.constructor` | src/MSRAccess.h:115-138 | Both arrays are fresh, with `InputWords`/`OutputWords` words, every one the sentinel. `_result` and `_res` are `0xff`, `_count` is 0, and there is no history. The shape fields are unconstrained |
| `MsrAccess.Query.RecordStatus` | src/MSRAccess.h:212-219 | Stores the status and appends it to the history. `_count` goes up by one modulo 2^32 exactly when the status is 0. Returns whether it was 0. Nothing else changes |
| `MsrAccess.GetSampleCount` | src/MSRAccess.h:91-93 | `_count` as stored: on a valid query, the number of valid executions modulo 2^32 |
| `MsrAccess.IsSampleValid` | src/MSRAccess.h:96-98 | On a valid query, true exactly when there has been an execution and the last one had status 0 |
| `MsrAccess.GetTSCFromQuery` | src/MSRAccess.h:101-103 | `output[1]`: the timestamp counter of the reference decoding whenever the response decodes |
| `MsrAccess.GetMSRValues` | src/MSRAccess.h:106-108 | The `msrs` words from flat index `core*msrs+2` (in `uint32_t` arithmetic). For `core < corecount` they are that core's reference row |
| `MsrAccess.GetMSRRegList` | src/MSRAccess.h:111-113 | The `msrs` words from `_input` offset `2+corecount`. When the input decodes with this shape, they are the decoded register list |
| `MsrAccess.RegListRoundTrip` | src/MSRAccess.h:111-113 | On a created query the register list read back is the list it was created with |
| `MsrAccess.ValuesInBounds` | src/MSRAccess.h:106-108 | On a created query, every core below `corecount` has its whole value block inside `output`, and the output decodes |
| `MsrAccess.AllocateQuery` | src/MSRAccess.h:115-138 | Returns null exactly when one of the three allocations fails. Otherwise the query is fresh, has sentinel-filled arrays of the computed sizes, has status `0xff`, has no samples, and is valid |
| `MsrAccess.CreateMSRQuery` | src/MSRAccess.h:166-199 | Null exactly on allocation failure. Otherwise a fresh, valid, unsampled query with `corecount` and `msrs == len` set. `_input` is exactly the encoding of the given or generated cores and the first `len` registers. `output` has `(len+1)*corecount+2` words |
| `MsrAccess.WriteRequest` | src/MSRAccess.h:171-195 | The cursor walk writes exactly the encoding of the request into an array of `corecount+len+3` words. Every write is in bounds |
| `MsrAccess.WriteCoreList` | src/MSRAccess.h:174-186 | Writes the core count and then the cores, and leaves the cursor on word `corecount` |
| `MsrAccess.RequestedCores` | src/MSRAccess.h:175-186 | The core list has `corecount` entries: the caller's, or the generated range when none is given |
| `MsrAccess.CreateMSRQueryAllCores` | src/MSRAccess.h:202-207 | `CreateMSRQuery` without a core list, for the core count truncated to a byte |
| `MsrAccess.CloneQuery` | src/MSRAccess.h:140-154 | Null for null, and null exactly on allocation failure. Otherwise a fresh, valid, unsampled query with new arrays. Its input is the first `corecount+msrs+3` input words of the original, and a created original's request decodes from it. Its output has `(msrs+1)*corecount+2` words |
| `MsrAccess.PerformMSRQuery` | src/MSRAccess.h:210-222 | Returns false for null. Otherwise `_result` is the low byte of `readMSRs`'s return value and is appended to the history. `_count` goes up by one modulo 2^32 and true is returned exactly when that byte is 0. `output` is what the driver wrote. The input and shape are unchanged |
| `MsrAccess.PerformMSRQueryChecked` | src/MSRAccess.h:210-222 | Like `PerformMSRQuery`, but with the corrected return code and status byte: it reports and counts a sample exactly when the exchange was delivered |
| `MsrAccess.TwoCoreScenario` | src/MSRAccess.h:166-222 | Cores `[0,1]` and registers `[0x10,0x1B]` give input `[2,0,1,2,0x10,0x1B,0]`. A delivered response `[0,12345,100,101,200,201]` then gives timestamp 12345, rows `[100,101]` and `[200,201]`, and a valid sample |
| `MsrAccess.CreateTwoCoreQuery` | src/MSRAccess.h:166-199 | The creation half of that scenario: a fresh, valid query for 2 cores and 2 registers with 8 output words, whose fresh `_input` holds exactly `[2,0,1,2,0x10,0x1B,0]` |
| `MsrAccess.SampleTwoCoreQuery` | src/MSRAccess.h:210-222 | The execution half of that scenario |
| `MsrAccess.FailedTransportScenario` | src/MSRAccess.h:210-222 | A failure with error 5 leaves a non-zero status and no sample. A later failure with error 256 is, as written, counted as a valid sample |

## Left out

- `OpenMSRDriver`, `CloseMSRDriver`, the global driver handle and `GetCoreCount` are Windows
  calls. The core count is a parameter of `CreateMSRQueryAllCores`.
- `readMSR` and `readMSRAllCores` are single `DeviceIoControl`/`DebugBreak` calls with no query
  logic.
- The body of `readMSRs` is the driver exchange. It is replaced by a `DriverReply` parameter.
  The model does not cover the byte lengths it hands the driver: `(count+2)*4` in and
  `(count+2)*8` out, with `count = corecount*msrs`. These differ from the query's own array
  sizes. The input length exceeds `_input` whenever `corecount*msrs > corecount+msrs+1`. It
  falls short of the request whenever `corecount*msrs < corecount+msrs+1`. With one core, the
  last register and the terminator are not handed over. The two-core, two-register request
  hands over 6 of its 7 words.
- `CloneQuery` requires the original's `corecount + msrs + 3` words to lie inside its `_input`.
  A clone's shape fields are never set, so cloning a clone is excluded. In C, the `memcpy`
  length would then come from uninitialised fields.
- `printRawOutput` and `printQuery` only print.
- `ReleaseQuery` and `free` are not modelled, because Dafny has no explicit deallocation. The
  rollback in `AllocateQuery` therefore shows only as "nothing is returned".
- `CreateMSRQuery` takes `msrlist` as a non-null array. In C it could be NULL when `len` is 0.
- `size_t` is taken as 64-bit, so the `* sizeof(...)` byte counts do not wrap. Only the 32-bit
  word counts do.
- `-(int)err` for `err == 2^31` is undefined behaviour in C. The model wraps it in two's
  complement.
- The default argument `core = 0` of `GetMSRValues` is not modelled; the caller always passes
  `core`.
- `GetMSRValues` and `GetMSRRegList` return pointers in C. The model returns the `msrs` words
  they point at, so it requires those words to be inside the array.

## Findings

| source | as written | input that shows it | evidently intended | confidence | as-written member | corrected member |
|---|---|---|---|---|---|---|
| src/MSRAccess.h:212 | `_result = (uint8_t)readMSRs(...)` keeps only the low byte of `-(int)err` | `DeviceIoControl` fails and `GetLastError()` returns 256 (or any multiple of 256): the status byte is 0, so the call returns true and `_count` goes up | a failed driver call with a non-zero error code is never recorded as a valid sample | medium, not executed (it depends on the driver reporting such an error code) | `Driver.FailureReadsAsValid` | `Driver.CheckedStatusByte` |
| src/MSRAccess.h:75-77 | a failure returns `-(int)err`, which is 0 when `GetLastError()` returns 0 | `DeviceIoControl` fails and `GetLastError()` returns 0: `readMSRs` returns 0, so the call returns true and `_count` goes up | every failed driver call returns a non-zero code | low, not executed (it depends on the system reporting a failure without an error code) | `Driver.ZeroErrorReadsAsDelivered` | `Driver.CheckedReturnCode` |

`MsrAccess.PerformMSRQuery` models the header as written. `MsrAccess.PerformMSRQueryChecked` is
the same operation with both corrections: `Driver.ReadMSRsChecked` returns
`Driver.CheckedReturnCode`, and the status byte is `Driver.CheckedStatusByte`. Its contract states
the intended property: it counts a sample exactly when the exchange was delivered. Lemma
`Driver.CheckedStatusOfTransport` states the same property for the two corrected functions.
