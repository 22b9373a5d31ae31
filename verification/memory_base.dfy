/** Values shared by the memory-inspection layer: bytes, the target's
    memory regions, the error taxonomy and the cross-process read primitive. */
module MemoryBase {

  /** An 8-bit byte of the target's memory (`u8`). */
  type byte = x: int | 0 <= x < 0x100

  /** One past the largest `u64`, which is also `usize` on a 64-bit host. */
  const U64_LIMIT: nat := 0x1_0000_0000_0000_0000

  datatype Option<T> = None | Some(value: T)

  /** One contiguous range of the target's virtual address space. */
  datatype MemoryRegion = MemoryRegion(from: nat, size: nat)

  /** The errno values the memory layer tells apart. */
  datatype Errno = EPERM | ESRCH | EFAULT | OtherErrno(code: int)
  {
    /** Each errno has one form: the Linux numbers of EPERM (1), ESRCH (3)
        and EFAULT (14) appear only as their own constructors. */
    predicate Canonical()
    {
      OtherErrno? ==> code != 1 && code != 3 && code != 14
    }
  }

  /** The kinds of failure of Rust's integer parsing (`IntErrorKind`). */
  datatype IntErrorKind = Empty | InvalidDigit | PosOverflow | NegOverflow

  /** One element of a byte pattern: a concrete byte or a wildcard. */
  datatype PatternByte = Exact(b: byte) | Wildcard

  type Signature = seq<PatternByte>

  /** The errors of the memory layer. `Io` and `ParseInt` stand for the
      converted `std::io::Error` and `ParseIntError`, `Os` for a converted errno. */
  datatype ProcessError =
    | Io(code: int)
    | ParseInt(kind: IntErrorKind)
    | Os(errno: Errno)
    | ProcessNotFound
    | SignatureNotFound(sign: Signature)
    | BadAddress(addr: nat, len: nat)

  datatype Result<T> = Ok(value: T) | Err(error: ProcessError) {
    predicate IsFailure() { Err? }
    function PropagateFailure<U>(): Result<U> requires Err? { Err(error) }
    function Extract(): T requires Ok? { value }
  }

  /** The sequence `rest` produces, with `v` already produced in front of it. */
  function Prepend<T>(v: seq<T>, rest: Result<seq<T>>): Result<seq<T>>
  {
    if rest.Ok? then Ok(v + rest.value) else rest
  }

  lemma PrependNothing<T>(rest: Result<seq<T>>)
    ensures Prepend([], rest) == rest
  {
    if rest.Ok? {
      assert [] + rest.value == rest.value;
    }
  }

  lemma PrependTwice<T>(v: seq<T>, x: T, rest: Result<seq<T>>)
    ensures Prepend(v, Prepend([x], rest)) == Prepend(v + [x], rest)
  {
    if rest.Ok? {
      assert v + ([x] + rest.value) == (v + [x]) + rest.value;
    }
  }

  /** What one cross-process read hands back: the bytes it copied (possibly
      fewer than asked for, when only a prefix of the range is readable) or
      an errno. */
  datatype Transfer = Copied(bytes: seq<byte>) | Failed(errno: Errno)

  /** `process_vm_readv(pid, [buffer of len], [(base, len)])` as an oracle
      over the target's address space: it never copies more than asked, it
      reports each errno in its one canonical form, and a call for no bytes
      copies nothing without looking at the target (the kernel returns 0
      for an empty local buffer before it looks up the process). */
  type Syscall = f: (int, nat, nat) -> Transfer
    | forall pid, base, len :: (f(pid, base, len).Copied? ==> |f(pid, base, len).bytes| <= len)
                               && (f(pid, base, len).Failed? ==> f(pid, base, len).errno.Canonical())
                               && (len == 0 ==> f(pid, base, len) == Copied([]))
    witness (pid: int, base: nat, len: nat) => if len == 0 then Copied([]) else Failed(EFAULT)

  function Min(a: nat, b: nat): (m: nat)
    ensures m <= a && m <= b && (m == a || m == b)
  {
    if a < b then a else b
  }

  /** `n` zero bytes, the content of a freshly allocated `vec![0u8; n]`. */
  function Zeros(n: nat): (z: seq<byte>)
    ensures |z| == n && forall i :: 0 <= i < n ==> z[i] == 0
  {
    seq(n, _ => 0)
  }
}
