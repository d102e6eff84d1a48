# sslkeylogfile — a Dafny model of the key-log file allocator and the durable writer

The Go package `sslkeylogfile` writes TLS session secrets to files for a
packet analyser to read. It has two parts, and this project models both:

- **`keyLogWriter`**: the allocator. It holds a file name pattern (the value of
  `SSLKEYLOGFILE`) and an `atomic.Int64` counter. Each `NewKeyWriter` call
  takes the next counter value `n` with one atomic add. The file name is
  the bare pattern when `n <= 1` and `pattern + "." + decimal(n)` when `n > 1`.
  That file is created with `O_CREATE|O_EXCL`, which fails if the name
  exists. The counter value is used up even when the open fails.
- **`syncWriter`**: the durable writer. Each `Write` makes one write to the
  file and then, only if that write succeeded, one `Sync`.

The modules:

- `Wrappers` (`wrappers.dfy`): `Option` and `Result`.
- `Decimal` (`decimal.dfy`): the base-10 text `strconv.FormatInt(n, 10)`
  produces for `n >= 0`, its parser, and the two round trips.
- `FileNames` (`filenames.dfy`): how a file name is derived from a counter
  value, its inverse, and injectivity.
- `Os` (`os.dfy`): opaque error causes, and a file seen as the bytes handed
  to the kernel (`buffered`) plus the bytes on stable storage (`durable`).
- `SyncWriter` (`syncwriter.dfy`): `syncWriter` and its `Write`.
- `KeyLogFile` (`keylogfile.dfy`): the counter, the exclusive open, and
  `NewKeyWriter`. It also has runs of many requests, `initializeGlobalWriter`
  and `newGlobalWriter`.

The model is purely functional.
- An allocator is the value `KeyLogWriter(pattern, counter)`.
- The filesystem is the set of names that exist.
- Every step returns the new allocator, the new filesystem and the Go result.
- What the operating system does is an explicit parameter, so every branch is
  reachable:
  - `OpenEnv`: whether `os.OpenFile` would create a name that is absent;
  - `WriteReply`: the `(n, err)` pair `f.Write` returns;
  - `SyncReply`: what `f.Sync` returns.

Concurrency. The counter is the only shared state, and it changes through one
atomic add. So any interleaving of whole requests is a sequence of
`NewKeyWriter` steps. Requests can also interleave between the add and the
open. `CreatesCommute` shows that the creation halves of two requests holding
different positive numbers commute. After the counter wraps, two requests
that both hold numbers at most 1 race for the bare pattern and do not
commute. Their end state still equals running them in the order of their
opens. The lemma covers two requests only. For `k`
requests, the claim that such interleavings end the same way as some
sequential order follows by swapping adjacent creation steps, assuming each
request's OS answer does not depend on the order.

Where the package documentation and the code disagree, the model follows the
code:
- `doc.go:10` gives the names as `.1`, `.2`, …. The code produces the bare
  pattern, then `.2`, `.3`, … (`sslkeylogfile.go:29-31`).
- `doc.go:4` says the file is created "or appended to". The code opens with
  `O_EXCL` and never appends to an existing file (`sslkeylogfile.go:33`).
  `NewKeyWriter` therefore fails on an existing name.

The counter is 64 bits wide and wraps in two's complement (`AddOne`). After
2^63 - 1 requests from a fresh allocator, the counter is 2^63 - 1. Request
number 2^63 wraps it to -2^63. A value that is not greater than 1 derives
the bare pattern again (`CounterWrapDerivesBarePattern`). So the next
2^63 + 1 requests all try the bare pattern, and then `.2`, `.3`, … come
round again. The lemmas about which names a run tries therefore assume
`counter + requests <= 2^63 - 1`: `RunCounterAndNames`, `RunNamesDistinct`,
`RunOnFreeNames` and `FreshAllocatorCreatesDistinctFiles`. All but
`RunCounterAndNames` also assume `counter >= 0`, because distinct names are
only guaranteed for positive numbers. The other run
lemmas hold for every run, including `SuccessNamesDistinctAnyRun`: two
successful requests never get the same file, even after the wrap.

## Model

| member | source | states |
|---|---|---|
| Decimal.Format | sslkeylogfile.go:31 | the suffix text of `n` is canonical base 10: non-empty, digits only, and no leading zero unless `n == 0` |
| Decimal.ParseFormat | sslkeylogfile.go:31 | parsing the suffix text of `n` gives `n` back |
| Decimal.FormatParse | sslkeylogfile.go:31 | every non-empty digit string with no leading zero (other than "0" itself) equals the formatted text of the number it denotes |
| Decimal.FormatInjective | sslkeylogfile.go:31 | distinct numbers have distinct suffix texts |
| FileNames.FileName | sslkeylogfile.go:29-32 | the derived name always starts with the pattern; it equals the bare pattern exactly when the counter value is at most 1 |
| FileNames.SequenceNumberOfFileName | sslkeylogfile.go:29-32 | the name derived from any `n >= 1` reads back as `n` |
| FileNames.FileNameOfSequenceNumber | sslkeylogfile.go:29-32 | any name that reads back as a number is the name derived from that number |
| FileNames.FileNameInjective | sslkeylogfile.go:28-32 | distinct positive counter values derive distinct names |
| KeyLogFile.AddOne | sslkeylogfile.go:28 | `Add(1)` on the 64-bit counter is an increment modulo 2^64; the value grows except at the single wrap from 2^63 - 1 |
| KeyLogFile.OpenExclusive | sslkeylogfile.go:33 | the open succeeds exactly when the name is absent and the OS permits it; on success only that name is added and the file is empty; an existing name fails with "exists"; an absent name the OS refuses fails with the OS's own cause; on failure the filesystem is unchanged |
| KeyLogFile.CreateKeyFile | sslkeylogfile.go:29-40 | for a counter value, the attempted name is the derived one; success means the name was free and exactly it was added, with a writer bound to the new empty file; failure returns an error naming that file and leaves the filesystem unchanged; its cause is "exists" for an existing name and the OS's own cause, wrapped, when the OS refuses a free name |
| KeyLogFile.NewKeyWriter | sslkeylogfile.go:27-41 | the counter advances by one whether the open succeeds or fails, and the pattern is unchanged; the first call tries the bare pattern; the create-exclusive result rules of `CreateKeyFile` hold for the new counter value, including the error's cause: "exists" for an existing name, the OS's refusal for a free one |
| KeyLogFile.CreatesCommute | sslkeylogfile.go:28-40 | the creation steps of two requests holding different positive numbers commute, whatever the OS answers |
| KeyLogFile.RunCounterAndNames | sslkeylogfile.go:28-32 | over `k` requests the counter rises by exactly `k`; request `i` tries file number `counter + i + 1`, even after failures |
| KeyLogFile.RunAddsCreatedNames | sslkeylogfile.go:33-40 | after a run, the filesystem is the initial one plus the names of the files the successful requests created, and nothing else |
| KeyLogFile.RunCountsFiles | sslkeylogfile.go:33-40 | after a run, the file count has grown by exactly the number of successful requests |
| KeyLogFile.RunNeverReusesExisting | sslkeylogfile.go:33-36 | no file that existed before a run is ever handed out by it |
| KeyLogFile.RunNamesDistinct | sslkeylogfile.go:28-32 | without wrap-around, no two requests of a run try the same name |
| KeyLogFile.SuccessNamesDistinctAnyRun | sslkeylogfile.go:28-36 | in every run, wrap-around included, two successful requests were handed different files |
| KeyLogFile.NameRangeGrows | sslkeylogfile.go:28-32 | the name of the next counter value is new to the names already derived |
| KeyLogFile.RunOnFreeNames | sslkeylogfile.go:27-41 | when the OS permits every open and none of the derived names exists, every request succeeds and exactly the files for the consumed numbers are added |
| KeyLogFile.FreshAllocatorCreatesDistinctFiles | sslkeylogfile_test.go:63-94 | on a directory without key-log names, `k` permitted requests from a fresh allocator create exactly `k` distinct files, numbered 1 to `k`, and request `i` gets file `i + 1` |
| KeyLogFile.PreexistingFileScenario | sslkeylogfile.go:27-36 | if `keys.log` was created out of band, the first request fails on it without touching it; the second request creates `keys.log.2` |
| KeyLogFile.CounterWrapDerivesBarePattern | sslkeylogfile.go:24-31 | from counter 2^63 - 1, the next request wraps the counter to -2^63 and tries the bare pattern again |
| KeyLogFile.InitializeGlobalWriter | sslkeylogfile.go:112-121 | a non-empty `SSLKEYLOGFILE` value installs an allocator with that pattern and counter 0; an empty value leaves the global as it was |
| KeyLogFile.InitializeAtStartup | sslkeylogfile_test.go:96-118 | starting from a nil global, an allocator is installed exactly when the value is non-empty, and then it has that pattern and counter 0 |
| KeyLogFile.NewGlobalWriter | sslkeylogfile.go:99-104 | with no global allocator, the result is `(nil, nil)` and the filesystem and global are unchanged; with one, the new global, the filesystem and the result are exactly those of one `NewKeyWriter` step: success returns that step's writer and failure returns its `CreateError` |
| SyncWriter.NewSyncWriter | syncwriter.go:11-13 | the writer wraps exactly the file it was given |
| SyncWriter.Write | syncwriter.go:15-24 | makes one write, then a sync only if the write succeeded. A write error passes through its count and error. A sync error reports 0 and the sync error. Full success reports the write count with no error. The count is the write's count or 0, so it is never more than `len(p)`. The writer stays on its file. After full success, durable content equals buffered content, which is the old content followed by `p`. |
| SyncWriter.WritePreservesDurablePrefix | syncwriter.go:15-24 | durable content never runs ahead of what was written: "durable is a prefix of buffered" is preserved by every `Write` |
| SyncWriter.WriteAllSynced | syncwriter.go:15-24 | after one or more fully successful writes, durable content equals buffered content, which is the old content followed by every payload in order; with no writes, this holds only if the file was already synced |

## Left out

- `NewTLSConfig`, `NewTransport` and `PatchDefaultTransport` (`sslkeylogfile.go:46-97`) are left out. They only plug the writer into `crypto/tls` and `net/http` objects.
- `autopatch/autopatch.go` is left out. Its `init` only calls `PatchDefaultTransport` and panics on error.
- Verbose diagnostics are left out: `verboseEnabled`, `strconv.ParseBool` and the stderr notices. They do not affect any result.
- Reading the environment is left out. `initializeGlobalWriter` receives the value `os.Getenv("SSLKEYLOGFILE")` returned. An unset variable and an empty one both arrive as "".
- The `init` hook is not modelled as such. `InitializeAtStartup` covers the call it makes at process start.
- The real `os.OpenFile`, `f.Write` and `f.Sync` are left out. Their answers are parameters. Permission bits are recorded only as the constant `CreateMode` (0600).
- KeyLogFile.OpenExclusive: an existing name is always reported as "exists" (`EEXIST`), whatever else the OS would say. A real `open(2)` can report another cause first, such as `EACCES` on a directory that cannot be searched. No result property depends on which cause is reported.
- The text of the error messages is left out. A `CreateError` keeps the file name and the wrapped cause.
- Atomicity of `atomic.Int64` is not modelled as such. Each `Add(1)` is one sequential step.
- SyncWriter.Write: requires the underlying write's reply to obey the `io.Writer` contract, which `*os.File` honours. The count must lie in `0..len(p)`, and a short count must come with an error.
- SyncWriter.Write: when the sync fails, durable content is modelled as unchanged. The OS may have persisted part of it, and the source makes no promise either way.
- The pattern and file names are Dafny strings, sequences of characters, standing for Go's byte strings. Name derivation and injectivity only use concatenation, so the difference does not matter.
- The network test `TestKeyLogFile` (`sslkeylogfile_test.go:29-61`) is left out. It needs a live TLS handshake.
