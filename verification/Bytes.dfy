/** Bytes, the big-endian integers of the wire, and the result types shared by all modules. */
module Bytes {
  type byte = b: int | 0 <= b < 0x100
  type bytes = seq<byte>
  type uint32 = n: int | 0 <= n < 0x1_0000_0000
  type uint64 = n: int | 0 <= n < 0x1_0000_0000_0000_0000

  datatype Option<+T> = None | Some(value: T) {
    predicate IsFailure() {
      None?
    }

    function PropagateFailure<U>(): Option<U>
      requires None?
    {
      None
    }

    function Extract(): T
      requires Some?
    {
      value
    }
  }

  /** The sentinel errors of the library, the two end-of-stream errors of
      io.ReadFull, and one error for a failing transport or random source. */
  datatype Error =
    | ErrEOF
    | ErrUnexpectedEOF
    | ErrIO
    | ErrFrameTooLarge
    | ErrFrameTooSmall
    | ErrInvalidChecksum
    | ErrInvalidEnvelope
    | ErrInvalidFormat
    | ErrReplay
    | ErrHandshake
    | ErrWeakPassword

  datatype Result<+T> = Ok(value: T) | Err(error: Error) {
    predicate IsFailure() {
      Err?
    }

    function PropagateFailure<U>(): Result<U>
      requires Err?
    {
      Err(error)
    }

    function Extract(): T
      requires Ok?
    {
      value
    }
  }

  /** Go's conversion `uint32(n)` of a 64-bit integer: it keeps the low 32 bits. */
  function Low32(n: int): uint32 {
    n % 0x1_0000_0000
  }

  /** `sendSeq++` on a uint64 wraps around. */
  function Next(n: uint64): uint64 {
    if n == 0xFFFF_FFFF_FFFF_FFFF then 0 else n + 1
  }

  function PutUint16(n: int): (b: bytes)
    requires 0 <= n < 0x1_0000
    ensures |b| == 2
  {
    [n / 0x100, n % 0x100]
  }

  function Uint16(b: bytes): (n: int)
    requires |b| == 2
    ensures 0 <= n < 0x1_0000
  {
    var hi: int, lo: int := b[0], b[1];
    hi * 0x100 + lo
  }

  function PutUint32(n: uint32): (b: bytes)
    ensures |b| == 4
  {
    PutUint16(n / 0x1_0000) + PutUint16(n % 0x1_0000)
  }

  function Uint32(b: bytes): uint32
    requires |b| == 4
  {
    Uint16(b[..2]) * 0x1_0000 + Uint16(b[2..])
  }

  function PutUint64(n: uint64): (b: bytes)
    ensures |b| == 8
  {
    PutUint32(n / 0x1_0000_0000) + PutUint32(n % 0x1_0000_0000)
  }

  function Uint64(b: bytes): uint64
    requires |b| == 8
  {
    var hi: int, lo: int := Uint32(b[..4]), Uint32(b[4..]);
    hi * 0x1_0000_0000 + lo
  }

  /** The reference for the integers of the wire: the positional value, most significant byte first. */
  function Positional(b: bytes): (n: nat) {
    if b == [] then 0 else Positional(b[..|b| - 1]) * 0x100 + b[|b| - 1]
  }

  lemma OneMoreDigit(b: bytes, c: byte)
    ensures Positional(b + [c]) == Positional(b) * 0x100 + c
  {
    assert (b + [c])[..|b|] == b;
  }

  lemma NoDigits()
    ensures Positional([]) == 0
  {
  }

  lemma FourDigits(a: bytes, b: bytes)
    requires |b| == 4
    ensures var b0: int, b1: int, b2: int, b3: int := b[0], b[1], b[2], b[3];
      Positional(a + b) == Positional(a) * 0x1_0000_0000 + b0 * 0x100_0000 + b1 * 0x1_0000 + b2 * 0x100 + b3
  {
    hide Positional;
    OneMoreDigit(a, b[0]);
    OneMoreDigit(a + [b[0]], b[1]);
    OneMoreDigit(a + [b[0]] + [b[1]], b[2]);
    OneMoreDigit(a + [b[0]] + [b[1]] + [b[2]], b[3]);
    assert a + b == a + [b[0]] + [b[1]] + [b[2]] + [b[3]];
  }

  /** The most significant byte comes first. */
  lemma BigEndian(b: bytes)
    requires |b| == 4
    ensures var b0: int, b1: int, b2: int, b3: int := b[0], b[1], b[2], b[3];
      Uint32(b) == b0 * 0x100_0000 + b1 * 0x1_0000 + b2 * 0x100 + b3 == Positional(b)
  {
    FourDigits([], b);
    NoDigits();
    assert [] + b == b;
    hide Positional;
  }

  lemma BigEndian64(b: bytes)
    requires |b| == 8
    ensures var b0: int, b1: int, b2: int, b3: int := b[0], b[1], b[2], b[3];
      var b4: int, b5: int, b6: int, b7: int := b[4], b[5], b[6], b[7];
      Uint64(b) == b0 * 0x100_0000_0000_0000 + b1 * 0x1_0000_0000_0000 + b2 * 0x100_0000_0000 + b3 * 0x1_0000_0000
                 + b4 * 0x100_0000 + b5 * 0x1_0000 + b6 * 0x100 + b7
    ensures Uint64(b) == Positional(b)
  {
    hide Uint32, Positional;
    BigEndian(b[..4]);
    BigEndian(b[4..]);
    FourDigits(b[..4], b[4..]);
    assert b[..4] + b[4..] == b;
  }

  /** The number 1 and the bytes 1 to 8 on the wire. */
  lemma KnownNumbers()
    ensures PutUint32(1) == [0, 0, 0, 1] && PutUint32(2) == [0, 0, 0, 2] && PutUint32(0x0102_0304) == [1, 2, 3, 4]
    ensures PutUint64(1) == [0, 0, 0, 0, 0, 0, 0, 1] && PutUint64(0x0102_0304_0506_0708) == [1, 2, 3, 4, 5, 6, 7, 8]
  {
  }

  /** The conversion forgets exactly the multiples of 2^32. */
  lemma Low32Forgets(n: uint32, k: int)
    ensures Low32(n + k * 0x1_0000_0000) == n
  {
  }

  lemma Uint32Decodes(n: uint32)
    ensures Uint32(PutUint32(n)) == n
  {
    var b := PutUint32(n);
    assert b[..2] == PutUint16(n / 0x1_0000) && b[2..] == PutUint16(n % 0x1_0000);
  }

  lemma Uint32Encodes(b: bytes)
    requires |b| == 4
    ensures PutUint32(Uint32(b)) == b
  {
    assert PutUint16(Uint16(b[..2])) == b[..2];
    assert PutUint16(Uint16(b[2..])) == b[2..];
    assert b == b[..2] + b[2..];
  }

  lemma Uint64Decodes(n: uint64)
    ensures Uint64(PutUint64(n)) == n
  {
    hide Uint32, PutUint32;
    var b := PutUint64(n);
    assert b[..4] == PutUint32(n / 0x1_0000_0000) && b[4..] == PutUint32(n % 0x1_0000_0000);
    Uint32Decodes(n / 0x1_0000_0000);
    Uint32Decodes(n % 0x1_0000_0000);
  }

  lemma Uint64Encodes(b: bytes)
    requires |b| == 8
    ensures PutUint64(Uint64(b)) == b
  {
    hide Uint32, PutUint32;
    Uint32Encodes(b[..4]);
    Uint32Encodes(b[4..]);
    assert b == b[..4] + b[4..];
  }

  lemma PutsPositional(n: uint32)
    ensures Positional(PutUint32(n)) == n
  {
    BigEndian(PutUint32(n));
    Uint32Decodes(n);
    hide Positional, Uint32, PutUint32;
  }

  lemma PutsPositional64(n: uint64)
    ensures Positional(PutUint64(n)) == n
  {
    BigEndian64(PutUint64(n));
    Uint64Decodes(n);
    hide Positional, Uint64, PutUint64;
  }
}
