# zaia core, modelled in Dafny

zaia is a small Go toolkit with four pieces that carry logic of their own.
This project models those four pieces and proves properties about them.

- **The job pool** (`pool.go`) keeps two FIFO queues of jobs, pending and
  running, with counters that mirror their lengths.
  - `Add` queues a job. It first drops the oldest pending job when more than
    `maxWaitingNum` are already waiting.
  - A dispatch loop promotes the front pending job whenever fewer than
    `maxWorkerNum` jobs run.
  - `Remove` takes the first job equal to a probe out of the running queue, or
    else out of the pending queue, and asks it to stop.
  - When a job finishes, the first equal job is taken out of the running
    queue.
- **The carriage-return line splitter** (`process.go`) reads a process's
  output. It defers to the standard newline splitter, and otherwise cuts
  tokens at carriage returns.
- **The RSA helpers** (`utils/rsa.go`) do two things.
  - They encrypt data under a public key in blocks of `BitLen(N)/8 - 11`
    bytes and base64-encode the concatenated ciphertexts.
  - They "decrypt" 128-byte blocks with the public key (`m^e mod N`) and strip
    the block-type-01 padding up to the first `0xff 0x00` pair.
- **The two keyed task stores** (`task.go` and `task/task.go`) map a task id
  to a possibly-nil value. They write the map to a file after every change
  and reload it from that file.

File layout:

- `common.dfy`: `Option`, bytes.
- `pool.dfy`: module `JobPool`. It has the specification functions over queue
  contents and the `Pool` class. The class has `seq` fields for the two
  queues, counters kept equal to their lengths by `Valid()`, and a ghost log
  of the stop requests issued.
- `splitter.dfy`: module `LineSplitter`. It has the newline splitter as Go
  documents it, the carriage-return rule as written, and the corrected rule.
- `rsa_blocks.dfy`: module `RsaBlocks`. It has the block plan, the page loop,
  the public-key operation, the padding strip, and the two base64 entry
  points.
- `keyed_store.dfy`: module `KeyedStore`. It holds the map semantics of
  `Get`, `Set` and `Remove`.
- `task_zaia.dfy` and `task_package.dfy`: modules `ZaiaTask` and
  `TaskPackage`. Each has a `Task` class with the map as a field and a ghost
  log of the snapshots written to the file.

Behaviour of the code that this model follows:

- **Stop requests in `Remove`.** `Remove` issues `Stop` to the job it removes
  in both branches. This holds whether the job was running or only pending.
- **Finish clean-up matches by equality.** The clean-up after a job finishes
  removes the first running job *equal* to it, not necessarily the same job.
  So a job removed by `Remove` can, on finishing, take another equal running
  job out with it. `FinishTask` states exactly that.
- **Block length of zero.** A block length of 0 panics with a division by zero
  on any non-empty data. This happens for keys of 88 to 95 bits.
- **Negative block length.** A negative block length takes the multi-block
  path. Go's truncated division agrees with Dafny's here because the dividend
  `len(data)` is never negative.
- **Single block.** Data that fits one block comes back as raw ciphertext
  bytes, not base64.
- **A nil task map.** `Load` installs whatever map value decoding left, which
  is a nil map when the file holds JSON `null`. `Get` and `Remove` then act
  as on an empty map, and the next `Set` panics when it assigns into the nil
  map. The map field is optional to capture this, and `Set` reports the
  panic.
- **Decrypt panics.** Decryption panics unless the decoded data is a multiple
  of 128 bytes long. A key that is not RSA panics at the type assertion.

## Model

| member | source | states |
|---|---|---|
| JobPool.FirstMatch | pool.go:68-75 | The first index whose job the probe calls equal. No earlier job matches. None exactly when no job matches. |
| JobPool.RemoveAt | pool.go:110 | Removing one list element keeps the others in order and drops exactly that element from the multiset. |
| JobPool.Admit | pool.go:56-66 | The new job goes to the back. The oldest pending job is dropped first exactly when the limit is positive and already exceeded. A queue within limit+1 stays within limit+1. A full queue grows to limit+1. |
| JobPool.AdmitAll | pool.go:56-66 | A run of `Add` calls leaves a suffix of the old pending queue followed by the submitted jobs. Nothing is reordered or invented, only oldest jobs are dropped, and the last job submitted is at the back. |
| JobPool.AdmitAllAppend | pool.go:56-66 | Submitting a batch in two parts is the same as submitting it at once. |
| JobPool.AdmitAllKeepsBound | pool.go:59-63 | With a positive limit, any sequence of `Add` calls keeps at most limit+1 jobs pending. |
| JobPool.AdmitAllWithoutEviction | pool.go:59-64 | Without a positive limit, or while under it, `Add` only appends: the pending queue is the old one followed by the submitted jobs. |
| JobPool.DropOldest | pool.go:59-64 | Submitting limit+2 jobs to an empty pool drops exactly the first one. |
| JobPool.Promote | pool.go:169-182 | One `startTask` move. Running followed by pending is the same sequence before and after, and running grows by one job exactly when something was pending. |
| JobPool.PromoteN | pool.go:169-182 | k moves in a row. Running followed by pending is unchanged, and running grows by k jobs, or by all pending jobs when fewer than k wait. |
| JobPool.PromotionsFollowSubmissionOrder | pool.go:169-182 | k promotions move the first k pending jobs, in order, to the back of the running queue. |
| JobPool.RemovedMatchLeavesLaterOnes | pool.go:102-125 | After the first match is removed, a match remains exactly when the list held a later equal job. |
| JobPool.NextMatchAfterRemoval | pool.go:102-125 | The next match after a removal lies at or after the removed index, and skips no equal job. |
| JobPool.Pool.constructor | pool.go:32-42 | Both queues and both counters are empty, and the two limits are stored as given. |
| JobPool.Pool.SetMaxWorkerNumber | pool.go:44-46 | Only the worker limit changes. |
| JobPool.Pool.WaitingTasks | pool.go:48-50 | The waiting counter equals the number of pending jobs. |
| JobPool.Pool.RunningTasks | pool.go:52-54 | The running counter equals the number of running jobs. |
| JobPool.Pool.Add | pool.go:56-66 | The pending queue becomes `Admit` of the old one. Running jobs and stop requests are untouched, and the counters stay equal to the queue lengths. |
| JobPool.Pool.Find | pool.go:68-75 | The front-to-back scan returns the first equal job's position, or nil exactly when none is equal. |
| JobPool.Pool.Exist | pool.go:77-90 | True exactly when an equal job is running or pending. |
| JobPool.Pool.ExistPending | pool.go:92-100 | True exactly when an equal job is pending. |
| JobPool.Pool.Remove | pool.go:102-125 | Found exactly when an equal job is running or pending. The first equal running job is removed and sent a stop; only when none runs is the first equal pending job removed and sent a stop; otherwise nothing changes. |
| JobPool.Pool.StartTask | pool.go:169-182 | The front pending job moves to the back of the running queue, and the counters follow. With no pending job nothing changes. |
| JobPool.Pool.DispatchStep | pool.go:150-158 | A job starts exactly when one is pending and fewer than `maxWorkerNum` run. The running count then never rises above the limit. |
| JobPool.Pool.FinishTask | pool.go:184-195 | The first running job equal to the finished one is removed. The pending queue is untouched. |
| LineSplitter.IndexByte | process.go:30 | The first position of the byte, or -1 exactly when it is absent. |
| LineSplitter.DropCR | process.go:28 | The newline splitter's `dropCR`: exactly one trailing '\r' is removed when there is one, and nothing otherwise. |
| LineSplitter.ScanLines | process.go:28 | The newline splitter's contract. It consumes through the first '\n' and yields the line without a trailing '\r'; at EOF it yields the rest; otherwise it consumes nothing. |
| LineSplitter.CarriageReturnSplitAsWritten | process.go:27-41 | Defers to the newline splitter when it consumed something or at EOF. Before EOF, with nothing consumed, it returns nothing when there is no '\r' or only one byte, and otherwise cuts after the first '\r' as `CutAsWritten` does. |
| LineSplitter.CutAsWritten | process.go:32-36 | The cut as written. It takes everything after the first '\r' when no second one follows. Otherwise it uses the second '\r''s offset as an absolute index, which panics exactly when that offset is below the first '\r''s position. |
| LineSplitter.AsWrittenMisplacesSecondCR | process.go:32-36 | "ab\r\r" makes the rule panic. "x\rab\r" yields "a" instead of "ab". |
| LineSplitter.CarriageReturnSplit | process.go:27-41 | When the rule cuts at carriage returns, the token is exactly the bytes after the first '\r' up to the advance point. It holds no '\r', and the advance stops on the next '\r' or at the end. |
| LineSplitter.CutAtCR | process.go:32-36 | The corrected cut. It advances past the first '\r'. The token is exactly the bytes from there to the advance point and holds no '\r'. The advance stops on the next '\r' or at the end of the data. |
| LineSplitter.AsWrittenAgreesAfterLeadingCR | process.go:30-36 | On data that starts with '\r', the rule as written and the corrected rule agree. |
| RsaBlocks.LoadKey | utils/rsa.go:14-23 | The key preamble, in order. A key that is not base64 gives the decode error, and one that does not parse gives the parse error. A parsed key that is not RSA is singled out for the panic, and otherwise the parsed RSA key is returned. |
| RsaBlocks.BitLen | utils/rsa.go:24 | The bit length of the modulus: 2^(r-1) <= N < 2^r, and 0 only for 0. |
| RsaBlocks.BlockLength | utils/rsa.go:24 | The block length is positive exactly for a modulus of at least 96 bits, and zero exactly for a modulus of 88 to 95 bits. |
| RsaBlocks.Chunks | utils/rsa.go:32-48 | The pieces concatenate back to the data. Each piece has 1 to `blockLength` bytes, and all but the last are full. |
| RsaBlocks.ChunkPlan | utils/rsa.go:32-42 | The pieces the page loop encrypts. For a positive block length they concatenate back to the data, each of 1 to `blockLength` bytes. For a negative one, Go's page count `len(data)/blockLength` decides: zero gives the whole non-empty data as one piece, and negative (or empty data) gives no piece. |
| RsaBlocks.EncryptAll | utils/rsa.go:43-47 | Encrypting the pieces fails exactly when one piece's encryption fails. |
| RsaBlocks.NegativeDivisor | utils/rsa.go:33 | With a negative block length the page count is never positive. It is zero exactly when the data is shorter than the block length's magnitude. |
| RsaBlocks.EncryptPages | utils/rsa.go:32-48 | The page loop, including its skipped empty last page, yields the concatenated encryption of the block plan. It fails exactly when some piece fails. |
| RsaBlocks.RSABase64Encrypt | utils/rsa.go:13-51 | Covers the error order (key decode, key parse), the panic on a non-RSA key, and the single-block raw path. It also covers the division-by-zero panic and the base64 of the concatenated piece ciphertexts. Any error comes with empty text. |
| RsaBlocks.ModPow | utils/rsa.go:82 | The public-key operation is below the modulus. |
| RsaBlocks.FromBigEndian | utils/rsa.go:80 | `SetBytes` reads the bytes as a big-endian number, below 256 to the power of the byte count. |
| RsaBlocks.ToBigEndian | utils/rsa.go:83 | Minimal big-endian octets: empty exactly for 0, with no leading zero byte. |
| RsaBlocks.BigEndianRoundTrip | utils/rsa.go:80-83 | Reading back the octets of a number gives the number. |
| RsaBlocks.BigEndianCanonical | utils/rsa.go:80-83 | Reading a byte string and writing it back drops exactly its leading zero bytes. |
| RsaBlocks.MarkerEndFrom | utils/rsa.go:85-93 | The scan from an index finds the first `0xff 0x00` pair from there, or reports none exactly when there is none. |
| RsaBlocks.PaddingEnd | utils/rsa.go:84-93 | The skip is 0 exactly when no `0xff 0x00` pair starts at index 2 or later; otherwise it is just past the first such pair. |
| RsaBlocks.PublicDecrypt | utils/rsa.go:77-95 | The plaintext is a suffix of the octets of `m^e mod N`. |
| RsaBlocks.RsaPublicDecrypt | utils/rsa.go:77-95 | The loop with its early breaks computes `PublicDecrypt`. |
| RsaBlocks.StripRecoversMessage | utils/rsa.go:84-94 | On a block-type-01 padded message with at least 8 padding bytes, the strip returns exactly the message. |
| RsaBlocks.DecryptBlocks | utils/rsa.go:67-74 | The plaintext of whole 128-byte blocks. A single block gives exactly its public decryption. |
| RsaBlocks.DecryptBlocksAppend | utils/rsa.go:67-74 | Blocks are decrypted independently: the plaintext of two runs of whole blocks is the first run's plaintext followed by the second's. |
| RsaBlocks.DecryptLoop | utils/rsa.go:67-73 | The front-to-back loop over 128-byte blocks. It yields the blocks' plaintexts in order when the length is a multiple of 128, and the slice panic otherwise. |
| RsaBlocks.RSABase64Decrypt | utils/rsa.go:53-75 | Errors come in order: data decode, key decode, key parse. A non-RSA key panics. Otherwise the result is the 128-byte blocks' plaintexts in order when the data length is a multiple of 128, and a slice panic when it is not. |
| KeyedStore.Lookup | task.go:29-37 | `Get` returns a value exactly when the key is bound to a non-nil value, and then it returns that value. |
| KeyedStore.Bind | task.go:25 | `Set` binds the key to the value, nil included, and leaves every other key alone. |
| KeyedStore.Unbind | task.go:42-45 | `Remove` deletes the key only when it holds a non-nil value, so a nil binding survives. Every other key is left alone. |
| KeyedStore.LookupAfterBind | task.go:22-37 | `Get` after `Set` returns what was set, and other keys read as before. |
| KeyedStore.LookupAfterUnbind | task.go:29-47 | `Get` after `Remove` returns nil, and other keys read as before. |
| KeyedStore.UnbindIdempotent | task.go:39-47 | Removing twice is removing once. |
| ZaiaTask.Task.constructor | task.go:14-20 | An empty map whose file name is "task.json"; nothing is written. |
| ZaiaTask.Task.Set | task.go:22-27 | On a nil map the assignment panics and nothing changes. Otherwise the map becomes `Bind` of the old one, and one snapshot of the new map is written to the project file. |
| ZaiaTask.Task.Get | task.go:29-37 | The result is `Lookup` of the map's entries, a nil map reading as empty; the store is unchanged. |
| ZaiaTask.Task.Remove | task.go:39-47 | The entries become `Unbind` of the old ones, a nil map stays nil, and a snapshot is written even when nothing was deleted. |
| ZaiaTask.Task.Dump | task.go:49-51 | Exactly one snapshot of the current map is written to the project file. |
| ZaiaTask.Task.Load | task.go:53-60 | When the file could be read, the map is replaced by the map value decoding left, the nil map included. Otherwise it is kept. |
| TaskPackage.Task.constructor | task/task.go:15-21 | An empty map whose file name is "task.json"; nothing is written. |
| TaskPackage.Task.Set | task/task.go:23-28 | On a nil map the assignment panics and nothing changes. Otherwise the map becomes `Bind` of the old one, and one snapshot is written. |
| TaskPackage.Task.Get | task/task.go:30-38 | The result is `Lookup` of the map's entries, a nil map reading as empty. |
| TaskPackage.Task.Remove | task/task.go:40-48 | The entries become `Unbind` of the old ones, a nil map stays nil, and a snapshot is written. |
| TaskPackage.Task.Dump | task/task.go:50-52 | Exactly one snapshot of the current map is written. |
| TaskPackage.Task.Load | task/task.go:54-61 | When the file could be read, the map is replaced by the map value decoding left, the nil map included. Otherwise it is kept. |

## Left out

- **Concurrency:** goroutines, channels, the `sync.RWMutex` locks, `atomic`
  operations and the `WaitGroup`. Each pool operation is modelled as one
  atomic step, which is what the locks provide.
- **Unlocked task-store calls:** in both task stores `Set`, `Get` and
  `Remove` take `taskLocker`, but `Load` and the public `Dump` do not. A
  `Load` or `Dump` running beside a locked call is a data race on the map.
  Every store method is modelled as one atomic step, so that race is not
  captured.
- **Races between the loop and the lock:** the dispatch loop reads the two
  counters and the worker limit before taking the lock in `startTask`.
  `DispatchStep` reads and promotes in one step, so a race with a concurrent
  `Remove` between the two is not modelled.
- **Pool operations that only manage timing or shutdown:**
  - `Run`, `Close` and `WaitAllDone` manage goroutines, the stop channel and
    one-second timers.
  - The loop is modelled by one iteration, `DispatchStep`.
- **Job behaviour:**
  - Jobs are a type parameter, and `Equal` is a function fixed when the pool
    is created.
  - `Execute` is not modelled. A job's completion is `FinishTask`.
  - The panic recovery and `panicHandler` around `Execute` are not modelled.
  - `Stop` is recorded in the ghost log `stopRequests` rather than run, since
    the code calls it in a goroutine and ignores its result.
- **Counter width:** the counters and limits are `int32` in Go and unbounded
  integers here. Wrap-around needs 2^31 queued jobs.
- **Processes:** process creation, pipes, timeouts and the reader loop in
  `process.go` are not modelled. Neither is the `bufio.Scanner` that calls the
  split function.
- **Splitter errors:** the splitter's `err` result is left out. The standard
  newline splitter never returns an error, and the carriage-return branch
  returns nil.
- **Encryption library:**
  - base64 encoding and decoding, `x509.ParsePKIXPublicKey` and
    `rsa.EncryptPKCS1v15` are functions of a `Library` value that the model
    does not define.
  - The random padding of encryption is folded into that encryption function.
  - The textual error messages become error tags.
- **`RsaPublicDecrypt` verifies no signature:** it checks neither the leading
  `00 01` bytes nor the padding length. The model follows the code.
- **Task store persistence:** `DumpInterface`, `ReadFileToByte` and
  `json.Unmarshal` are not part of this model. A write is a snapshot appended
  to a ghost log. A load takes the decoded map as a parameter, `None` when the
  file read returned nil.
- **Decode errors in `Load`:** `Load` ignores the decode error. The model
  takes the map value decoding left behind as a parameter, the nil map
  included, without modelling how JSON decoding produces it.
- **Other files:** `utils/http.go` and `tpl.go` are not part of this model.

## Findings

| source | as written | input that shows it | evidently intended | confidence | as-written member | corrected member |
|---|---|---|---|---|---|---|
| process.go:32-36 | The offset of the second '\r', found inside `data[firstCRIndex+1:]`, is used directly as an index into `data`, both as the advance and as the token's end. | Not at EOF, with no '\n': "ab\r\r" panics, because the slice low bound 3 exceeds the high bound 1. "x\rab\r" yields the token "a" and advance 3, instead of "ab" and advance 4. | Add `firstCRIndex+1` to the offset, so that the token is the bytes between the two carriage returns and the scan resumes at the second one. | high; not executed | LineSplitter.CarriageReturnSplitAsWritten, LineSplitter.AsWrittenMisplacesSecondCR | LineSplitter.CarriageReturnSplit |
