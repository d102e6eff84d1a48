/**
  The key-log file allocator: a filename pattern and an `atomic.Int64`
  counter. Each request takes the next counter value, derives a file
  name from it and creates that file exclusively. The only shared state
  is the counter, updated by one atomic add, so requests that do not
  overlap form a sequence of the steps below. Requests that interleave
  between the add and the open are covered by `CreatesCommute`, for
  requests holding different positive numbers.

  The filesystem is the set of names that exist; what the operating
  system would do for a name not yet present is an explicit parameter.
 */
module KeyLogFile {
  import opened Wrappers
  import opened Os
  import opened FileNames
  import opened SyncWriter

  const Int64Min: int := -0x8000_0000_0000_0000
  const Int64Max: int := 0x7FFF_FFFF_FFFF_FFFF
  const Int64Modulus: int := 0x1_0000_0000_0000_0000

  type int64 = x: int | Int64Min <= x <= Int64Max

  /** Permission bits of every created key-log file (octal 0600: owner read/write only). */
  const CreateMode: nat := 0x180

  /** `atomic.Int64.Add(1)`: two's-complement increment. */
  function AddOne(c: int64): (r: int64)
    ensures (r - c - 1) % Int64Modulus == 0
    ensures r > c <==> c < Int64Max
  {
    if c == Int64Max then Int64Min else c + 1
  }

  datatype KeyLogWriter = KeyLogWriter(pattern: string, counter: int64)

  /** What `os.OpenFile` does for a name that does not exist yet. */
  datatype OpenEnv = Permitted | Refused(cause: OsError)

  /** Why `os.OpenFile` with `O_CREATE|O_EXCL` failed. */
  datatype OpenError = ErrExist | Other(cause: OsError)

  /** The error `NewKeyWriter` returns: the file name it tried and the wrapped cause. */
  datatype CreateError = CreateError(filename: string, cause: OpenError)

  /** The filesystem after an open, and the opened file or the failure. */
  datatype Opened = Opened(fs: set<string>, result: Result<File, OpenError>)

  /** `os.OpenFile(name, O_CREATE|O_WRONLY|O_EXCL, 0600)` on a filesystem of names. */
  function OpenExclusive(fs: set<string>, name: string, env: OpenEnv): (o: Opened)
    ensures o.result.Success? <==> name !in fs && env.Permitted?
    ensures o.result.Success? ==> o.result.value == Created(name) && o.fs == fs + {name}
    ensures o.result.Failure? ==> o.fs == fs
    ensures name in fs ==> o.result == Failure(ErrExist)
    ensures name !in fs && env.Refused? ==> o.result == Failure(Other(env.cause))
  {
    if name in fs then
      Opened(fs, Failure(ErrExist))
    else
      match env
      case Refused(e) => Opened(fs, Failure(Other(e)))
      case Permitted => Opened(fs + {name}, Success(Created(name)))
  }

  /** The name a result is about: the created file, or the one the error names. */
  function NameOf(r: Result<SyncWriter, CreateError>): string {
    match r
    case Success(w) => w.f.name
    case Failure(e) => e.filename
  }

  /**
    The create-exclusive rules for one attempt on `name`: the result names
    it; it succeeds exactly when the name was free and the OS agreed, and
    then exactly that name is added and bound to a new empty file; on
    failure nothing changes, and the cause is "exists" for an existing name
    and the OS's own refusal, wrapped, for a free one.
   */
  predicate ExclusiveCreate(fs: set<string>, name: string, env: OpenEnv, fs': set<string>, r: Result<SyncWriter, CreateError>) {
    && NameOf(r) == name
    && (r.Success? <==> name !in fs && env.Permitted?)
    && (r.Success? ==> fs' == fs + {name} && r.value.f == Created(name))
    && (r.Failure? ==> fs' == fs)
    && (name in fs ==> r == Failure(CreateError(name, ErrExist)))
    && (name !in fs && env.Refused? ==> r == Failure(CreateError(name, Other(env.cause))))
  }

  datatype Creation = Creation(fs: set<string>, result: Result<SyncWriter, CreateError>)

  /**
    Everything `NewKeyWriter` does after taking counter value `cur`:
    derive the name, create it exclusively, wrap it in a durable writer.
   */
  function CreateKeyFile(pattern: string, cur: int, fs: set<string>, env: OpenEnv): (c: Creation)
    ensures ExclusiveCreate(fs, FileName(pattern, cur), env, c.fs, c.result)
  {
    var filename := FileName(pattern, cur);
    var o := OpenExclusive(fs, filename, env);
    match o.result
    case Failure(e) => Creation(o.fs, Failure(CreateError(filename, e)))
    case Success(f) => Creation(o.fs, Success(NewSyncWriter(f)))
  }

  datatype Step = Step(allocator: KeyLogWriter, fs: set<string>, result: Result<SyncWriter, CreateError>)

  function NewKeyWriter(w: KeyLogWriter, fs: set<string>, env: OpenEnv): (s: Step)
    // the counter advances by one whatever the open does
    ensures s.allocator.pattern == w.pattern
    ensures s.allocator.counter == AddOne(w.counter)
    ensures 0 <= w.counter < Int64Max ==> s.allocator.counter == w.counter + 1
    // the name tried is the one derived from the new counter value
    ensures w.counter == 0 ==> NameOf(s.result) == w.pattern
    // exclusive creation of that name, with the error causes of the source
    ensures ExclusiveCreate(fs, FileName(w.pattern, s.allocator.counter), env, s.fs, s.result)
  {
    var cur := AddOne(w.counter);
    var c := CreateKeyFile(w.pattern, cur, fs, env);
    Step(w.(counter := cur), c.fs, c.result)
  }

  /**
    The creation halves of two requests that hold different positive
    counter values commute, whatever the operating system answers; so
    concurrent requests that interleave between the atomic add and the open
    end as some sequential order of whole requests does. After the counter
    wraps, two requests holding values at most 1 both try the bare pattern
    and do not commute; their end state is that of running them in the
    order of their opens.
   */
  lemma CreatesCommute(pattern: string, a: int, b: int, fs: set<string>, ea: OpenEnv, eb: OpenEnv)
    requires a >= 1 && b >= 1 && a != b
    ensures var a1 := CreateKeyFile(pattern, a, fs, ea);
            var b2 := CreateKeyFile(pattern, b, a1.fs, eb);
            var b1 := CreateKeyFile(pattern, b, fs, eb);
            var a2 := CreateKeyFile(pattern, a, b1.fs, ea);
            a1.result == a2.result && b2.result == b1.result && b2.fs == a2.fs
  {
    if FileName(pattern, a) == FileName(pattern, b) {
      FileNameInjective(pattern, a, b);
    }
  }

  datatype Run = Run(allocator: KeyLogWriter, fs: set<string>, results: seq<Result<SyncWriter, CreateError>>)

  /** Number of successful requests. */
  function Successes(rs: seq<Result<SyncWriter, CreateError>>): nat {
    if |rs| == 0 then 0 else Successes(rs[..|rs| - 1]) + (if rs[|rs| - 1].Success? then 1 else 0)
  }

  /** Names of the files the successful requests created. */
  function CreatedNames(rs: seq<Result<SyncWriter, CreateError>>): set<string> {
    set i | 0 <= i < |rs| && rs[i].Success? :: rs[i].value.f.name
  }

  /** `NewKeyWriter` called once per entry of `envs`, in order. */
  function RunRequests(w: KeyLogWriter, fs: set<string>, envs: seq<OpenEnv>): (r: Run)
    ensures |r.results| == |envs|
    ensures r.allocator.pattern == w.pattern
    ensures fs <= r.fs
    decreases |envs|
  {
    if |envs| == 0 then
      Run(w, fs, [])
    else
      var prev := RunRequests(w, fs, envs[..|envs| - 1]);
      var s := NewKeyWriter(prev.allocator, prev.fs, envs[|envs| - 1]);
      Run(s.allocator, s.fs, prev.results + [s.result])
  }

  /** The run of all but the last request, and the last request on top of it. */
  lemma RunUnfold(w: KeyLogWriter, fs: set<string>, envs: seq<OpenEnv>)
    requires |envs| > 0
    ensures var prev := RunRequests(w, fs, envs[..|envs| - 1]);
            var s := NewKeyWriter(prev.allocator, prev.fs, envs[|envs| - 1]);
            var r := RunRequests(w, fs, envs);
            && r.allocator == s.allocator && r.fs == s.fs
            && r.results[..|envs| - 1] == prev.results && r.results[|envs| - 1] == s.result
  {
  }

  /** Without wrap-around the counter ends `|envs|` higher and request `i` tries file number `counter + i + 1`. */
  lemma {:induction false} RunCounterAndNames(w: KeyLogWriter, fs: set<string>, envs: seq<OpenEnv>)
    requires w.counter + |envs| <= Int64Max
    ensures var r := RunRequests(w, fs, envs);
            && r.allocator.counter == w.counter + |envs|
            && forall i :: 0 <= i < |envs| ==> NameOf(r.results[i]) == FileName(w.pattern, w.counter + i + 1)
    decreases |envs|
  {
    if |envs| > 0 {
      var front := envs[..|envs| - 1];
      RunCounterAndNames(w, fs, front);
      RunUnfold(w, fs, envs);
      var r := RunRequests(w, fs, envs);
      var prev := RunRequests(w, fs, front);
      forall i | 0 <= i < |envs| - 1
        ensures NameOf(r.results[i]) == FileName(w.pattern, w.counter + i + 1)
      {
        assert r.results[i] == prev.results[i];
      }
    }
  }

  /** Files are only ever added: the final filesystem is the initial one plus the files the successful requests created. */
  lemma {:induction false} RunAddsCreatedNames(w: KeyLogWriter, fs: set<string>, envs: seq<OpenEnv>)
    ensures var r := RunRequests(w, fs, envs);
            r.fs == fs + CreatedNames(r.results)
    decreases |envs|
  {
    if |envs| > 0 {
      var front := envs[..|envs| - 1];
      RunAddsCreatedNames(w, fs, front);
      RunUnfold(w, fs, envs);
      var r := RunRequests(w, fs, envs);
      var prev := RunRequests(w, fs, front);
      assert r.results == prev.results + [r.results[|envs| - 1]];
      CreatedNamesSnoc(prev.results, r.results[|envs| - 1]);
    }
  }

  /** One more result adds its file's name when, and only when, it is a success. */
  lemma CreatedNamesSnoc(rs: seq<Result<SyncWriter, CreateError>>, last: Result<SyncWriter, CreateError>)
    ensures CreatedNames(rs + [last]) == CreatedNames(rs) + (if last.Success? then {NameOf(last)} else {})
  {
    var all := rs + [last];
    forall name | name in CreatedNames(all)
      ensures name in CreatedNames(rs) + (if last.Success? then {NameOf(last)} else {})
    {
      var i :| 0 <= i < |all| && all[i].Success? && all[i].value.f.name == name;
      if i < |rs| {
        assert all[i] == rs[i];
      }
    }
    forall name | name in CreatedNames(rs)
      ensures name in CreatedNames(all)
    {
      var i :| 0 <= i < |rs| && rs[i].Success? && rs[i].value.f.name == name;
      assert all[i] == rs[i];
    }
    if last.Success? {
      assert all[|rs|] == last;
    }
  }

  /** Each successful request adds exactly one new file, and a failed one adds none. */
  lemma {:induction false} RunCountsFiles(w: KeyLogWriter, fs: set<string>, envs: seq<OpenEnv>)
    ensures var r := RunRequests(w, fs, envs);
            |r.fs| == |fs| + Successes(r.results)
    decreases |envs|
  {
    if |envs| > 0 {
      var front := envs[..|envs| - 1];
      RunCountsFiles(w, fs, front);
      RunUnfold(w, fs, envs);
    }
  }

  /** No file that existed before the run is ever handed out by it. */
  lemma {:induction false} RunNeverReusesExisting(w: KeyLogWriter, fs: set<string>, envs: seq<OpenEnv>)
    ensures var r := RunRequests(w, fs, envs);
            forall i :: 0 <= i < |envs| && r.results[i].Success? ==> r.results[i].value.f.name !in fs
    decreases |envs|
  {
    if |envs| > 0 {
      var front := envs[..|envs| - 1];
      RunNeverReusesExisting(w, fs, front);
      RunUnfold(w, fs, envs);
      var r := RunRequests(w, fs, envs);
      var prev := RunRequests(w, fs, front);
      forall i | 0 <= i < |envs| - 1 && r.results[i].Success?
        ensures r.results[i].value.f.name !in fs
      {
        assert r.results[i] == prev.results[i];
      }
    }
  }

  /** No two requests of a run, successful or not, try the same name. */
  lemma RunNamesDistinct(w: KeyLogWriter, fs: set<string>, envs: seq<OpenEnv>, i: int, j: int)
    requires 0 <= w.counter && w.counter + |envs| <= Int64Max
    requires 0 <= i < |envs| && 0 <= j < |envs| && i != j
    ensures NameOf(RunRequests(w, fs, envs).results[i]) != NameOf(RunRequests(w, fs, envs).results[j])
  {
    RunCounterAndNames(w, fs, envs);
    if NameOf(RunRequests(w, fs, envs).results[i]) == NameOf(RunRequests(w, fs, envs).results[j]) {
      FileNameInjective(w.pattern, w.counter + i + 1, w.counter + j + 1);
    }
  }

  /**
    Two successful requests of any run, even one that wraps the counter
    around, were handed different files: the exclusive open refuses a name
    an earlier request created.
   */
  lemma {:induction false} SuccessNamesDistinctAnyRun(w: KeyLogWriter, fs: set<string>, envs: seq<OpenEnv>, i: int, j: int)
    requires 0 <= i < j < |envs|
    requires RunRequests(w, fs, envs).results[i].Success? && RunRequests(w, fs, envs).results[j].Success?
    ensures RunRequests(w, fs, envs).results[i].value.f.name != RunRequests(w, fs, envs).results[j].value.f.name
    decreases |envs|
  {
    var front := envs[..|envs| - 1];
    var prev := RunRequests(w, fs, front);
    var r := RunRequests(w, fs, envs);
    RunUnfold(w, fs, envs);
    assert r.results[i] == prev.results[i] by {
      assert r.results[..|envs| - 1][i] == r.results[i];
    }
    if j < |envs| - 1 {
      assert r.results[j] == prev.results[j] by {
        assert r.results[..|envs| - 1][j] == r.results[j];
      }
      SuccessNamesDistinctAnyRun(w, fs, front, i, j);
    } else {
      RunAddsCreatedNames(w, fs, front);
      assert prev.results[i].value.f.name in CreatedNames(prev.results);
    }
  }

  /** None of the names for counter values `lo+1 ..= hi` exists in `fs`. */
  predicate NamesFree(pattern: string, lo: int, hi: int, fs: set<string>) {
    forall m :: lo < m <= hi ==> FileName(pattern, m) !in fs
  }

  /** The names for counter values `lo+1 ..= hi`. */
  function NameRange(pattern: string, lo: int, hi: int): set<string> {
    set m | lo < m <= hi :: FileName(pattern, m)
  }

  /** Extending the range by one value adds its name, which was not yet in the range. */
  lemma NameRangeGrows(pattern: string, lo: int, hi: int)
    requires 0 <= lo <= hi
    ensures NameRange(pattern, lo, hi + 1) == NameRange(pattern, lo, hi) + {FileName(pattern, hi + 1)}
    ensures FileName(pattern, hi + 1) !in NameRange(pattern, lo, hi)
  {
    var last := FileName(pattern, hi + 1);
    if last in NameRange(pattern, lo, hi) {
      var m :| lo < m <= hi && FileName(pattern, m) == last;
      FileNameInjective(pattern, m, hi + 1);
    }
    assert NameRange(pattern, lo, hi + 1) == NameRange(pattern, lo, hi) + {last};
  }

  /**
    When the operating system permits every open and none of the names to
    be derived exists yet, every request succeeds and the run creates
    exactly the files numbered `counter+1 ..= counter+k`.
   */
  lemma {:induction false} RunOnFreeNames(w: KeyLogWriter, fs: set<string>, envs: seq<OpenEnv>)
    requires 0 <= w.counter && w.counter + |envs| <= Int64Max
    requires forall i :: 0 <= i < |envs| ==> envs[i].Permitted?
    requires NamesFree(w.pattern, w.counter, w.counter + |envs|, fs)
    ensures var r := RunRequests(w, fs, envs);
            && (forall i :: 0 <= i < |envs| ==> r.results[i].Success?)
            && r.fs == fs + NameRange(w.pattern, w.counter, w.counter + |envs|)
    decreases |envs|
  {
    var k := |envs|;
    if k == 0 {
      assert NameRange(w.pattern, w.counter, w.counter) == {};
    } else {
      var front := envs[..k - 1];
      RunOnFreeNames(w, fs, front);
      RunCounterAndNames(w, fs, front);
      var prev := RunRequests(w, fs, front);
      NameRangeGrows(w.pattern, w.counter, w.counter + k - 1);
      StepOnFreeName(prev.allocator, prev.fs, envs[k - 1]);
      RunUnfold(w, fs, envs);
      LastSucceeded(prev.results, RunRequests(w, fs, envs).results);
    }
  }

  /** A permitted request whose derived name is free succeeds and adds exactly that name. */
  lemma StepOnFreeName(w: KeyLogWriter, fs: set<string>, env: OpenEnv)
    requires 0 <= w.counter < Int64Max && env.Permitted?
    requires FileName(w.pattern, w.counter + 1) !in fs
    ensures var s := NewKeyWriter(w, fs, env);
            s.result.Success? && s.fs == fs + {FileName(w.pattern, w.counter + 1)}
  {
  }

  /** Extending an all-successful sequence with one more success keeps it all-successful. */
  lemma LastSucceeded(prev: seq<Result<SyncWriter, CreateError>>, rs: seq<Result<SyncWriter, CreateError>>)
    requires |rs| == |prev| + 1 && rs[..|prev|] == prev
    requires forall i :: 0 <= i < |prev| ==> prev[i].Success?
    requires rs[|prev|].Success?
    ensures forall i :: 0 <= i < |rs| ==> rs[i].Success?
  {
  }

  /** A run in which every request succeeded counts `|rs|` successes. */
  lemma {:induction false} AllSucceeded(rs: seq<Result<SyncWriter, CreateError>>)
    requires forall i :: 0 <= i < |rs| ==> rs[i].Success?
    ensures Successes(rs) == |rs|
    decreases |rs|
  {
    if |rs| > 0 {
      AllSucceeded(rs[..|rs| - 1]);
    }
  }

  /**
    A fresh allocator on a directory holding no key-log names: `k` requests
    the OS permits create exactly `k` distinct files, named by 1 ..= k.
   */
  lemma {:induction false} FreshAllocatorCreatesDistinctFiles(pattern: string, fs: set<string>, envs: seq<OpenEnv>)
    requires |envs| <= Int64Max
    requires forall i :: 0 <= i < |envs| ==> envs[i].Permitted?
    requires NamesFree(pattern, 0, |envs|, fs)
    ensures var r := RunRequests(KeyLogWriter(pattern, 0), fs, envs);
            && (forall i :: 0 <= i < |envs| ==> r.results[i].Success? && NameOf(r.results[i]) == FileName(pattern, i + 1))
            && |r.fs| == |fs| + |envs|
            && r.fs == fs + NameRange(pattern, 0, |envs|)
  {
    var w := KeyLogWriter(pattern, 0);
    var r := RunRequests(w, fs, envs);
    RunOnFreeNames(w, fs, envs);
    RunCounterAndNames(w, fs, envs);
    RunCountsFiles(w, fs, envs);
    AllSucceeded(r.results);
    assert |r.fs| == |fs| + |envs|;
  }

  /**
    A file created out of band under the bare pattern makes the first
    request fail without touching it; the second request consumes the next
    number and creates `keys.log.2`.
   */
  lemma PreexistingFileScenario()
    ensures var s1 := NewKeyWriter(KeyLogWriter("keys.log", 0), {"keys.log"}, Permitted);
            var s2 := NewKeyWriter(s1.allocator, s1.fs, Permitted);
            && s1.result == Failure(CreateError("keys.log", ErrExist))
            && s1.fs == {"keys.log"}
            && s2.result.Success? && NameOf(s2.result) == "keys.log.2"
            && s2.fs == {"keys.log", "keys.log.2"}
  {
  }

  /**
    The request taken from counter 2^63 - 1 (request number 2^63 of a fresh
    allocator) wraps the counter to the most negative value, which is not
    greater than 1, so the bare pattern is derived again.
   */
  lemma CounterWrapDerivesBarePattern(pattern: string, fs: set<string>, env: OpenEnv)
    ensures var s := NewKeyWriter(KeyLogWriter(pattern, Int64Max), fs, env);
            s.allocator.counter == Int64Min && NameOf(s.result) == pattern
  {
  }

  /**
    Initialisation from the value of `SSLKEYLOGFILE`: a non-empty value
    installs a fresh allocator on that pattern; an empty (or unset) value
    leaves the global as it was.
   */
  function InitializeGlobalWriter(current: Option<KeyLogWriter>, env: string): (g: Option<KeyLogWriter>)
    ensures env != "" ==> g == Some(KeyLogWriter(env, 0))
    ensures env == "" ==> g == current
  {
    if env != "" then Some(KeyLogWriter(env, 0)) else current
  }

  /** At process start the global is nil: it is installed exactly when the value is non-empty. */
  lemma InitializeAtStartup(env: string)
    ensures InitializeGlobalWriter(None, env).Some? <==> env != ""
    ensures InitializeGlobalWriter(None, env).Some? ==>
              InitializeGlobalWriter(None, env).value == KeyLogWriter(env, 0)
  {
  }

  datatype GlobalStep = GlobalStep(global: Option<KeyLogWriter>, fs: set<string>, result: Result<Option<SyncWriter>, CreateError>)

  /** `newGlobalWriter`: a `(nil, nil)` no-op without a global allocator, otherwise one request. */
  function NewGlobalWriter(g: Option<KeyLogWriter>, fs: set<string>, env: OpenEnv): (s: GlobalStep)
    ensures g.None? ==> s.global.None? && s.fs == fs && s.result == Success(None)
    ensures g.Some? ==> s.global.Some? && s.global.value.pattern == g.value.pattern
    ensures g.Some? ==> s.global.value.counter == AddOne(g.value.counter)
    ensures g.Some? && s.result.Success? ==> s.result.value.Some? && s.fs == fs + {s.result.value.value.f.name}
    ensures g.Some? && s.result.Success? ==> s.result.value.value.f.name !in fs
    ensures s.result.Failure? ==> s.fs == fs
    // with a global allocator, the call is exactly one `NewKeyWriter` step
    ensures g.Some? ==>
              var st := NewKeyWriter(g.value, fs, env);
              && s.global == Some(st.allocator) && s.fs == st.fs
              && (st.result.Success? ==> s.result == Success(Some(st.result.value)))
              && (st.result.Failure? ==> s.result == Failure(st.result.error))
  {
    match g
    case None => GlobalStep(None, fs, Success(None))
    case Some(w) =>
      var step := NewKeyWriter(w, fs, env);
      match step.result
      case Success(sw) => GlobalStep(Some(step.allocator), step.fs, Success(Some(sw)))
      case Failure(e) => GlobalStep(Some(step.allocator), step.fs, Failure(e))
  }
}
