/** The typed reads every platform shares (`ProcessTraits`' provided
    methods): primitive integers, unsigned LEB128 numbers and the
    length-prefixed UTF-16 strings of the .NET runtime, each built on the
    platform's `read`. */
module TypedRead {
  import opened MemoryBase
  import opened Encoding
  import opened Linux

  // =====================================================================
  // Primitive integers
  // =====================================================================

  /** What `read_<t>(addr)` yields: the `T` whose little-endian bytes the
      zero-initialised buffer holds after the read, or the read's error. */
  function IntAt(vm: Syscall, pid: int, addr: nat, ty: IntType): (r: Result<int>)
    ensures r.Ok? <==> vm(pid, addr, ty.Width()).Copied?
    ensures r.Ok? ==> ty.InRange(r.value)
    ensures r.Err? ==> r.error == ReadError(addr, ty.Width(), vm(pid, addr, ty.Width()).errno)
  {
    var bs :- ReadZeroed(vm, pid, addr, ty.Width());
    Ok(FromLeBytes(ty, bs))
  }

  /** When the whole value is readable, the read gives back the value stored. */
  lemma {:induction false} IntAtStored(vm: Syscall, pid: int, addr: nat, ty: IntType, v: int)
    requires ty.InRange(v) && vm(pid, addr, ty.Width()) == Copied(ToLeBytes(ty, v))
    ensures IntAt(vm, pid, addr, ty) == Ok(v)
  {
    assert ToLeBytes(ty, v) + Zeros(0) == ToLeBytes(ty, v);
    FromToLeBytes(ty, v);
  }

  /** When only a prefix is readable, the missing high bytes read as zero:
      an unsigned read gives the value of the prefix alone. */
  lemma {:induction false} IntAtPartial(vm: Syscall, pid: int, addr: nat, ty: IntType)
    requires vm(pid, addr, ty.Width()).Copied? && !ty.Signed()
    ensures IntAt(vm, pid, addr, ty) == Ok(LeValue(vm(pid, addr, ty.Width()).bytes))
  {
    var bs := vm(pid, addr, ty.Width()).bytes;
    LeValueZeros(bs, ty.Width() - |bs|);
  }

  /** Zero bytes on the high end do not change a little-endian value. */
  lemma {:induction false} LeValueZeros(bs: seq<byte>, n: nat)
    ensures LeValue(bs + Zeros(n)) == LeValue(bs)
    decreases |bs| + n
  {
    if bs == [] {
      if n > 0 {
        assert Zeros(n)[1..] == Zeros(n - 1);
        LeValueZeros([], n - 1);
        assert [] + Zeros(n) == Zeros(n) && [] + Zeros(n - 1) == Zeros(n - 1);
      } else {
        assert bs + Zeros(0) == [];
      }
    } else {
      assert (bs + Zeros(n))[1..] == bs[1..] + Zeros(n);
      LeValueZeros(bs[1..], n);
    }
  }

  /** `read_i8` … `read_u128`: read `size_of::<T>()` bytes at `addr` into a
      zeroed buffer and decode them little-endian. */
  method ReadInt(p: Process, vm: Syscall, addr: nat, ty: IntType) returns (r: Result<int>)
    ensures r == IntAt(vm, p.pid, addr, ty)
  {
    var bytes :- ReadZeroedBuffer(p, vm, addr, ty.Width());
    return Ok(FromLeBytes(ty, bytes));
  }

  /** `let mut buff = vec![0; len]; self.read(addr, len, &mut buff)?`: a
      zero-initialised buffer of `len` bytes, read into in place. */
  method ReadZeroedBuffer(p: Process, vm: Syscall, addr: nat, len: nat) returns (r: Result<seq<byte>>)
    ensures r == ReadZeroed(vm, p.pid, addr, len)
  {
    var buff := new byte[len](_ => 0);
    ghost var zeroed := buff[..];
    var res := p.Read(vm, addr, len, buff);
    assert Min(len, len) == len;
    if res.Err? {
      return Err(res.error);
    }
    ZeroFilled(zeroed, vm(p.pid, addr, len).bytes, buff[..]);
    return Ok(buff[..]);
  }

  /** A zero-filled buffer that received `copied` at its front holds
      `copied` followed by zeros. */
  lemma ZeroFilled(zeroed: seq<byte>, copied: seq<byte>, after: seq<byte>)
    requires forall i :: 0 <= i < |zeroed| ==> zeroed[i] == 0
    requires |copied| <= |zeroed| && after == copied + zeroed[|copied|..]
    ensures after == copied + Zeros(|zeroed| - |copied|)
  {
    assert zeroed[|copied|..] == Zeros(|zeroed| - |copied|);
  }

  // =====================================================================
  // Unsigned LEB128
  // =====================================================================

  /** The byte at `addr`, as a one-byte read sees it. */
  function ByteAt(vm: Syscall, pid: int, addr: nat): Result<byte>
  {
    match ReadZeroed(vm, pid, addr, 1)
    case Ok(bs) => Ok(bs[0])
    case Err(e) => Err(e)
  }

  /** `read_u8(addr)` reads `ByteAt(addr)`. */
  lemma ByteAtIsU8(vm: Syscall, pid: int, addr: nat)
    ensures ByteAt(vm, pid, addr).Ok? <==> IntAt(vm, pid, addr, U8).Ok?
    ensures ByteAt(vm, pid, addr).Ok? ==> IntAt(vm, pid, addr, U8) == Ok(ByteAt(vm, pid, addr).value as int)
    ensures ByteAt(vm, pid, addr).Err? ==> IntAt(vm, pid, addr, U8) == Err(ByteAt(vm, pid, addr).error)
  {
    var r := ReadZeroed(vm, pid, addr, 1);
    if r.Ok? {
      var bs := r.value;
      assert bs[1..] == [];
      assert LeValue(bs) == bs[0];
      assert U8.Modulus() == 256;
    }
  }

  /** The bytes at consecutive addresses from some start on, each as a
      one-byte read sees it: byte `j` of the stream is at `start + j`. */
  type ByteStream = nat -> Result<byte>

  /** The stream of bytes the target process offers from `addr` on. */
  function BytesFrom(vm: Syscall, pid: int, addr: nat): ByteStream
  {
    (j: nat) => ByteAt(vm, pid, addr + j)
  }

  /** The reading loop stops without a shift of 70 bits (which overflows a
      `u64`), counting from byte `k` of the stream: on a failed read among
      the first eleven, or on a byte without the high bit among the first ten. */
  predicate UlebTerminates(rd: ByteStream, k: nat)
    decreases 10 - k
  {
    k <= 10 && (rd(k).Err? || (k < 10 && (!Continues(rd(k).value) || UlebTerminates(rd, k + 1))))
  }

  /** The bytes `bs` lie, readable, in the stream from byte `k` on. */
  predicate Stored(rd: ByteStream, k: nat, bs: seq<byte>)
  {
    forall j :: 0 <= j < |bs| ==> rd(k + j) == Ok(bs[j])
  }

  /** Reading byte `j` of the stream fails with `e`. */
  predicate ReadFailsAt(rd: ByteStream, j: nat, e: ProcessError)
  {
    rd(j) == Err(e)
  }

  /** The bytes the loop consumes from byte `k` on: one at each following
      address, up to and including the first without the high bit, or the
      error of the first read that fails. */
  function UlebBytes(rd: ByteStream, k: nat): (r: Result<seq<byte>>)
    requires UlebTerminates(rd, k)
    ensures r.Ok? ==> UlebWellFormed(r.value) && k + |r.value| <= 10
    decreases 10 - k
  {
    var first := rd(k);
    if first.Err? then Err(first.error)
    else if !Continues(first.value) then Ok([first.value])
    else
      var next := UlebBytes(rd, k + 1);
      if next.Err? then Err(next.error)
      else
        var bs := [first.value] + next.value;
        assert forall j :: 1 <= j < |bs| ==> bs[j] == next.value[j - 1];
        Ok(bs)
  }

  /** The consumed bytes are the stream's bytes from byte `k` on; a failure
      is the failure of one of those reads. */
  lemma {:induction false} UlebBytesAreRead(rd: ByteStream, k: nat)
    requires UlebTerminates(rd, k)
    ensures UlebBytes(rd, k).Ok? ==> Stored(rd, k, UlebBytes(rd, k).value)
    ensures UlebBytes(rd, k).Err? ==> exists j :: k <= j <= 10 && ReadFailsAt(rd, j, UlebBytes(rd, k).error)
    decreases 10 - k
  {
    var first := rd(k);
    if first.Err? {
      assert ReadFailsAt(rd, k, UlebBytes(rd, k).error);
    } else if Continues(first.value) {
      UlebBytesAreRead(rd, k + 1);
      var next := UlebBytes(rd, k + 1);
      if next.Ok? {
        StoredCons(rd, k, first.value, next.value);
      }
    } else {
      assert rd(k + 0) == Ok(UlebBytes(rd, k).value[0]);
    }
  }

  /** A readable byte in front of stored bytes. */
  lemma StoredCons(rd: ByteStream, k: nat, b: byte, rest: seq<byte>)
    requires rd(k) == Ok(b) && Stored(rd, k + 1, rest)
    ensures Stored(rd, k, [b] + rest)
  {
    var bs := [b] + rest;
    forall j | 0 <= j < |bs| ensures rd(k + j) == Ok(bs[j]) {
      if j > 0 {
        assert bs[j] == rest[j - 1];
        assert k + j == (k + 1) + (j - 1);
      }
    }
  }

  /** `read_uleb128(addr)`: read a byte at a time, merge its seven payload
      bits in at position `7 * bytes_read`, and stop after the first byte
      whose high bit is clear. The result is the number the bytes encode,
      truncated to 64 bits. */
  method ReadUleb128(p: Process, vm: Syscall, addr: nat) returns (r: Result<nat>)
    requires UlebTerminates(BytesFrom(vm, p.pid, addr), 0)
    ensures r.Ok? <==> UlebBytes(BytesFrom(vm, p.pid, addr), 0).Ok?
    ensures r.Ok? ==> r.value == UlebValue(UlebBytes(BytesFrom(vm, p.pid, addr), 0).value) % U64_LIMIT
    ensures r.Err? ==> r.error == UlebBytes(BytesFrom(vm, p.pid, addr), 0).error
  {
    ghost var rd := BytesFrom(vm, p.pid, addr);
    var value: nat := 0;
    var bytesRead: nat := 0;
    var a := addr;
    ghost var seen: seq<byte> := [];
    PrependNothing(UlebBytes(rd, 0));
    while true
      invariant a == addr + bytesRead && bytesRead == |seen| <= 10
      invariant UlebTerminates(rd, bytesRead)
      invariant UlebBytes(rd, 0) == Prepend(seen, UlebBytes(rd, bytesRead))
      invariant value == UlebValue(seen) % U64_LIMIT
      decreases 10 - bytesRead
    {
      var read := ReadInt(p, vm, a, U8);
      ByteAtIsU8(vm, p.pid, a);
      assert rd(bytesRead) == ByteAt(vm, p.pid, a);
      UlebLoopStep(rd, bytesRead, seen);
      if read.Err? {
        return Err(read.error);
      }
      var byte: byte := read.value;
      a := a + 1;
      var byteValue := byte % 0x80;
      UlebStep(seen, byte);
      value := value + Shl64(byteValue, 7 * bytesRead);
      bytesRead := bytesRead + 1;
      if byte < 0x80 {
        seen := seen + [byte];
        break;
      }
      seen := seen + [byte];
    }
    return Ok(value);
  }

  /** One turn of the reading loop, on byte `k` of the stream after the
      bytes `seen`: a failed read ends the whole read with its error, a
      byte without the high bit completes it, and any other byte joins
      `seen` with the read still able to finish. */
  lemma UlebLoopStep(rd: ByteStream, k: nat, seen: seq<byte>)
    requires UlebTerminates(rd, k)
    requires UlebBytes(rd, 0) == Prepend(seen, UlebBytes(rd, k))
    ensures rd(k).Err? ==> UlebBytes(rd, 0) == Err(rd(k).error)
    ensures rd(k).Ok? && !Continues(rd(k).value) ==> UlebBytes(rd, 0) == Ok(seen + [rd(k).value])
    ensures rd(k).Ok? ==> k < 10
    ensures rd(k).Ok? && Continues(rd(k).value) ==> UlebTerminates(rd, k + 1)
    ensures rd(k).Ok? && Continues(rd(k).value) ==>
              UlebBytes(rd, 0) == Prepend(seen + [rd(k).value], UlebBytes(rd, k + 1))
  {
    var first := rd(k);
    if first.Ok? && Continues(first.value) {
      var next := UlebBytes(rd, k + 1);
      assert UlebBytes(rd, k) == Prepend([first.value], next);
      PrependTwice(seen, first.value, next);
    }
  }

  /** Bytes that form a complete encoding, laid out from byte `k` on with
      room to finish within ten, are exactly what the loop consumes. */
  lemma {:induction false} UlebBytesOfEncoding(rd: ByteStream, k: nat, enc: seq<byte>)
    requires UlebWellFormed(enc) && k + |enc| <= 10
    requires Stored(rd, k, enc)
    ensures UlebTerminates(rd, k) && UlebBytes(rd, k) == Ok(enc)
    decreases |enc|
  {
    assert rd(k + 0) == Ok(enc[0]);
    if |enc| > 1 {
      var rest := enc[1..];
      assert UlebWellFormed(rest) by {
        assert forall i :: 0 <= i < |rest| - 1 ==> rest[i] == enc[i + 1];
      }
      forall j | 0 <= j < |rest|
        ensures rd((k + 1) + j) == Ok(rest[j])
      {
        assert (k + 1) + j == k + (j + 1);
      }
      UlebBytesOfEncoding(rd, k + 1, rest);
      assert [enc[0]] + rest == enc;
    } else {
      assert [enc[0]] == enc;
    }
  }

  /** A `u64` stored with the standard encoder reads back as itself. */
  lemma {:induction false} UlebReadsStored(rd: ByteStream, v: nat)
    requires v < U64_LIMIT
    requires Stored(rd, 0, UlebEncode(v))
    ensures UlebTerminates(rd, 0)
    ensures UlebBytes(rd, 0) == Ok(UlebEncode(v))
    ensures UlebValue(UlebBytes(rd, 0).value) % U64_LIMIT == v
  {
    UlebU64Length(v);
    UlebBytesOfEncoding(rd, 0, UlebEncode(v));
    UlebValueOfEncode(v);
  }

  // =====================================================================
  // Strings
  // =====================================================================

  /** The string reader's own demand: the character count at `addr + 4`,
      when it can be read, can be doubled without overflowing a `u32`. */
  predicate CountFits(vm: Syscall, pid: int, addr: nat)
  {
    IntAt(vm, pid, addr + 4, U32).Ok? ==> IntAt(vm, pid, addr + 4, U32).value < 0x8000_0000
  }

  /** What `read_string(addr)` yields: the `u32` character count at
      `addr + 4`, then that many UTF-16 units from `addr + 8` (the buffer
      zero-filled past what the read copied), decoded lossily. */
  function StringAt(vm: Syscall, pid: int, addr: nat): (r: Result<string>)
    requires CountFits(vm, pid, addr)
    ensures r.Ok? ==> IntAt(vm, pid, addr + 4, U32).Ok? && |r.value| <= IntAt(vm, pid, addr + 4, U32).value
    ensures IntAt(vm, pid, addr + 4, U32).Err? ==> r == Err(IntAt(vm, pid, addr + 4, U32).error)
  {
    var count :- IntAt(vm, pid, addr + 4, U32);
    var bs :- ReadZeroed(vm, pid, addr + 8, count * 2);
    Ok(DecodeBody(bs, count))
  }

  /** `String::from_utf16_lossy` over the buffer seen as `count` `u16`s:
      at most one character per unit. */
  function DecodeBody(bs: seq<byte>, count: nat): (s: string)
    requires |bs| == 2 * count
    ensures |s| <= count
  {
    Utf16Lossy(CodeUnits(bs))
  }

  /** After a good count, the string read succeeds exactly when the call
      for the `2 * count` bytes at `addr + 8` copies, and otherwise fails
      with that call's error. */
  lemma StringAtBodyRead(vm: Syscall, pid: int, addr: nat, count: nat)
    requires IntAt(vm, pid, addr + 4, U32) == Ok(count) && count < 0x8000_0000
    ensures CountFits(vm, pid, addr)
    ensures StringAt(vm, pid, addr).Ok? <==> vm(pid, addr + 8, 2 * count).Copied?
    ensures vm(pid, addr + 8, 2 * count).Failed? ==>
              StringAt(vm, pid, addr) == Err(ReadError(addr + 8, 2 * count, vm(pid, addr + 8, 2 * count).errno))
  {
    assert count * 2 == 2 * count;
  }

  /** `read_string(addr)`. */
  method ReadString(p: Process, vm: Syscall, addr: nat) returns (r: Result<string>)
    requires CountFits(vm, p.pid, addr)
    ensures r == StringAt(vm, p.pid, addr)
  {
    var count :- ReadInt(p, vm, addr + 0x4, U32);
    var len := count * 2;
    var bytes :- ReadZeroedBuffer(p, vm, addr + 0x8, len);
    var units := CodeUnits(bytes);
    return Ok(Utf16Lossy(units));
  }

  /** A string stored as its count followed by its UTF-16 units, all of
      them readable, reads back as itself. */
  lemma {:induction false} StringAtStored(vm: Syscall, pid: int, addr: nat, s: string)
    requires |EncodeUtf16(s)| < 0x8000_0000
    requires vm(pid, addr + 4, 4) == Copied(ToLeBytes(U32, |EncodeUtf16(s)|))
    requires vm(pid, addr + 8, 2 * |EncodeUtf16(s)|) == Copied(UnitBytes(EncodeUtf16(s)))
    ensures CountFits(vm, pid, addr) && StringAt(vm, pid, addr) == Ok(s)
  {
    var us := EncodeUtf16(s);
    CountStored(vm, pid, addr + 4, |us|);
    ReadZeroedFull(vm, pid, addr + 8, UnitBytes(us));
    CodeUnitsOfBytes(us);
    Utf16RoundTrip(s);
    StringFromParts(vm, pid, addr, |us|, UnitBytes(us), s);
  }

  /** A character count stored in full reads back as itself. */
  lemma CountStored(vm: Syscall, pid: int, addr: nat, n: nat)
    requires n < 0x8000_0000 && vm(pid, addr, 4) == Copied(ToLeBytes(U32, n))
    ensures IntAt(vm, pid, addr, U32) == Ok(n)
  {
    assert U32.Modulus() == 0x1_0000_0000;
    IntAtStored(vm, pid, addr, U32, n);
  }

  /** A read that copies everything it asks for leaves exactly those bytes. */
  lemma ReadZeroedFull(vm: Syscall, pid: int, addr: nat, bs: seq<byte>)
    requires vm(pid, addr, |bs|) == Copied(bs)
    ensures ReadZeroed(vm, pid, addr, |bs|) == Ok(bs)
  {
    assert bs + Zeros(0) == bs;
  }

  /** The string read from a count, the bytes of its units and their decoding. */
  lemma StringFromParts(vm: Syscall, pid: int, addr: nat, n: nat, bs: seq<byte>, s: string)
    requires n < 0x8000_0000 && IntAt(vm, pid, addr + 4, U32) == Ok(n)
    requires |bs| == 2 * n && ReadZeroed(vm, pid, addr + 8, 2 * n) == Ok(bs)
    requires Utf16Lossy(CodeUnits(bs)) == s
    ensures CountFits(vm, pid, addr) && StringAt(vm, pid, addr) == Ok(s)
  {
    assert n * 2 == 2 * n;
  }

  /** A zero count reads the empty string. */
  lemma {:induction false} StringAtEmpty(vm: Syscall, pid: int, addr: nat)
    requires IntAt(vm, pid, addr + 4, U32) == Ok(0)
    ensures CountFits(vm, pid, addr) && StringAt(vm, pid, addr) == Ok([])
  {
    assert vm(pid, addr + 8, 0) == Copied([]);
    assert [] + Zeros(0) == [];
  }
}
