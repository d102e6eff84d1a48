/**
  The durable writer: every `Write` is one write to the file followed, if
  and only if that write succeeded, by one `Sync`. The replies of the
  underlying `f.Write` and `f.Sync` are parameters, so every branch is
  reachable.
 */
module SyncWriter {
  import opened Wrappers
  import opened Os

  /** Owns exactly one open file for its whole life. */
  datatype SyncWriter = SyncWriter(f: File)

  /** The `(n, err)` pair the underlying `f.Write(p)` returned. */
  datatype WriteReply = WriteReply(n: int, err: Option<OsError>)

  /** What the underlying `f.Sync()` returned. */
  datatype SyncReply = SyncOk | SyncFailed(err: OsError)

  /** One call made on the underlying file. */
  datatype FileCall = WriteCall(p: seq<byte>) | SyncCall

  /** The `(int, error)` result of `Write`, the calls it made, and the writer afterwards. */
  datatype Outcome = Outcome(n: int, err: Option<OsError>, calls: seq<FileCall>, writer: SyncWriter)

  /**
    The `io.Writer` contract, which `*os.File` honours: the count lies in
    `0..len(p)` and a short count comes with an error.
   */
  predicate ObeysWriterContract(r: WriteReply, p: seq<byte>) {
    && 0 <= r.n <= |p|
    && (r.n < |p| ==> r.err.Some?)
  }

  function NewSyncWriter(f: File): (w: SyncWriter)
    ensures w.f == f
  {
    SyncWriter(f)
  }

  /** The file after the kernel accepted `n` bytes of `p`. */
  function Append(f: File, p: seq<byte>, n: nat): (g: File)
    requires n <= |p|
    ensures g.name == f.name && g.durable == f.durable
    ensures g.buffered == f.buffered + p[..n]
  {
    f.(buffered := f.buffered + p[..n])
  }

  /** The file after a successful `fsync`. */
  function Flush(f: File): (g: File)
    ensures g.name == f.name && g.buffered == f.buffered
    ensures g.durable == g.buffered
  {
    f.(durable := f.buffered)
  }

  function Write(w: SyncWriter, p: seq<byte>, wr: WriteReply, sr: SyncReply): (o: Outcome)
    requires ObeysWriterContract(wr, p)
    // exactly one write, then one sync only after a successful write
    ensures o.calls == if wr.err.None? then [WriteCall(p), SyncCall] else [WriteCall(p)]
    // the result rules
    ensures wr.err.Some? ==> o.n == wr.n && o.err == wr.err
    ensures wr.err.None? && sr.SyncFailed? ==> o.n == 0 && o.err == Some(sr.err)
    ensures wr.err.None? && sr.SyncOk? ==> o.n == wr.n && o.err.None?
    ensures o.n == wr.n || o.n == 0
    ensures 0 <= o.n <= |p|
    // effect on the one file the writer owns
    ensures o.writer.f.name == w.f.name
    ensures o.writer.f.buffered == w.f.buffered + p[..wr.n]
    ensures o.err.None? ==> o.writer.f.durable == o.writer.f.buffered == w.f.buffered + p
    ensures o.err.Some? ==> o.writer.f.durable == w.f.durable
  {
    var f := Append(w.f, p, wr.n);
    if wr.err.Some? then
      Outcome(wr.n, wr.err, [WriteCall(p)], SyncWriter(f))
    else
      match sr
      case SyncFailed(e) => Outcome(0, Some(e), [WriteCall(p), SyncCall], SyncWriter(f))
      case SyncOk => Outcome(wr.n, None, [WriteCall(p), SyncCall], SyncWriter(Flush(f)))
  }

  /** `Write` never lets durable content run ahead of what was written. */
  lemma WritePreservesDurablePrefix(w: SyncWriter, p: seq<byte>, wr: WriteReply, sr: SyncReply)
    requires ObeysWriterContract(wr, p)
    requires DurablePrefix(w.f)
    ensures DurablePrefix(Write(w, p, wr, sr).writer.f)
  {
  }

  /** Concatenation of a sequence of payloads. */
  function Concat(ps: seq<seq<byte>>): seq<byte> {
    if |ps| == 0 then [] else Concat(ps[..|ps| - 1]) + ps[|ps| - 1]
  }

  /**
    Writes every payload in turn, with the kernel accepting all of it and
    every sync succeeding. With at least one payload the final sync makes
    everything durable, whatever was pending before; with none, the file
    must already have had nothing pending (as every freshly created
    key-log file has).
   */
  function WriteAllSynced(w: SyncWriter, ps: seq<seq<byte>>): (r: SyncWriter)
    requires |ps| > 0 || w.f.durable == w.f.buffered
    ensures r.f.name == w.f.name
    ensures r.f.durable == r.f.buffered == w.f.buffered + Concat(ps)
    decreases |ps|
  {
    if |ps| == 0 then
      w
    else
      var p := ps[|ps| - 1];
      var prev := if |ps| == 1 then w else WriteAllSynced(w, ps[..|ps| - 1]);
      assert |ps| == 1 ==> Concat(ps[..|ps| - 1]) == [];
      Write(prev, p, WriteReply(|p|, None), SyncOk).writer
  }
}
