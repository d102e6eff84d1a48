/**
  The slice of the operating system the key-log writer touches: opaque
  error causes and one regular file, seen as the bytes handed to the
  kernel (`buffered`) and the bytes known to be on stable storage
  (`durable`).
 */
module Os {

  type byte = x: int | 0 <= x < 256

  /** An opaque cause (`*os.PathError`, `syscall.Errno`, ...); only its identity matters. */
  datatype OsError = OsError(code: nat)

  datatype File = File(name: string, buffered: seq<byte>, durable: seq<byte>)

  /** Whatever has reached stable storage was first handed to the kernel. */
  predicate DurablePrefix(f: File) {
    f.durable <= f.buffered
  }

  /** The file `os.OpenFile` returns after creating `name` with `O_CREATE|O_EXCL`. */
  function Created(name: string): (f: File)
    ensures f.name == name && |f.buffered| == 0
    ensures DurablePrefix(f)
  {
    File(name, [], [])
  }
}
