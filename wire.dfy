/** The byte-level codecs of `RawStream` (RawStream.cs) and
    `MinecraftStream` (MinecraftStream.cs), as pure functions. A C# `byte`,
    `short`, `int` or `long` value is handled through its two's-complement
    bit pattern, a `nat` below 2^8, 2^16, 2^32 or 2^64: `x << s` is
    `Shl(x, s)` with the bits that leave the width dropped by `%`, `&` with
    a low mask is `%`, `>>` by seven is `/ 128` (floor division, which is
    the arithmetic shift), and `|` is `BitOr`. `Signed32`/`Signed64` read a
    pattern as the number the C# code sees. The host is little-endian, as
    `BitConverter` is on every platform the C# code targets. */
module Wire {
  import opened Results

  type byte = x: int | 0 <= x < 256

  /** The exceptions a read or a write can end in, and `Diverges` for a loop
      that never exits. */
  datatype Fault =
    | VarIntTooBig      // "VarInt is too big"
    | VarLongTooBig     // "VarLong is too big"
    | EndOfStream       // EndOfStreamException
    | Disposed          // ObjectDisposedException
    | Overflow          // `new T[n]` with a negative n
    | OutOfRange        // ArgumentOutOfRangeException of `Slice`
    | BadArgument       // the base stream's check of offset and count
    | Diverges          // the loop runs forever
    | IOError           // an exception from the base stream's `Read`, which nothing catches

  const TWO15: int := 0x8000
  const TWO16: int := 0x1_0000
  const TWO31: int := 0x8000_0000
  const TWO32: int := 0x1_0000_0000
  const TWO63: int := 0x8000_0000_0000_0000
  const TWO64: int := 0x1_0000_0000_0000_0000

  // ---------------------------------------------------------------------
  // Bit patterns
  // ---------------------------------------------------------------------

  /** `x << s` on an unbounded pattern: `x` doubled `s` times. */
  function Shl(x: nat, s: nat): nat
  {
    if s == 0 then x else 2 * Shl(x, s - 1)
  }

  lemma {:induction false} ShlAdd(x: nat, a: nat, b: nat)
    ensures Shl(x, a + b) == Shl(Shl(x, a), b)
    decreases b
  {
    if b > 0 {
      ShlAdd(x, a, b - 1);
    }
  }

  lemma {:induction false} ShlDistrib(x: nat, y: nat, s: nat)
    ensures Shl(x + y, s) == Shl(x, s) + Shl(y, s)
    decreases s
  {
    if s > 0 {
      ShlDistrib(x, y, s - 1);
    }
  }

  lemma {:induction false} ShlMono(x: nat, y: nat, s: nat)
    requires x <= y
    ensures Shl(x, s) <= Shl(y, s)
    decreases s
  {
    if s > 0 {
      ShlMono(x, y, s - 1);
    }
  }

  lemma {:induction false} ShlZero(s: nat)
    ensures Shl(0, s) == 0
    decreases s
  {
    if s > 0 {
      ShlZero(s - 1);
    }
  }

  lemma Shl7(x: nat)
    ensures Shl(x, 7) == 128 * x
  {
    assert Shl(x, 1) == 2 * x;
    assert Shl(x, 2) == 4 * x;
    assert Shl(x, 3) == 8 * x;
    assert Shl(x, 4) == 16 * x;
    assert Shl(x, 5) == 32 * x;
    assert Shl(x, 6) == 64 * x;
  }

  /** A bit `s + 7` places up is 128 times the bit `s` places up. */
  lemma ShlNext(x: nat, s: nat)
    ensures Shl(x, s + 7) == 128 * Shl(x, s)
  {
    ShlAdd(x, s, 7);
    Shl7(Shl(x, s));
  }

  lemma Shl28()
    ensures Shl(1, 28) == 0x1000_0000
  {
    ShlNext(1, 0);
    ShlNext(1, 7);
    ShlNext(1, 14);
    ShlNext(1, 21);
  }

  /** The bits the VarInt and VarLong codecs reach. */
  lemma ShlValues()
    ensures Shl(1, 28) == 0x1000_0000 && Shl(8, 28) == TWO31
    ensures Shl(1, 32) == TWO32 && Shl(1, 35) == 8 * TWO32
    ensures Shl(1, 63) == TWO63 && Shl(1, 70) == 64 * TWO64
  {
    Shl28();
    ShlNext(1, 28);
    ShlNext(1, 35);
    ShlNext(1, 42);
    ShlNext(1, 49);
    ShlNext(1, 56);
    ShlNext(1, 63);
    ShlAdd(1, 3, 28);
    assert Shl(1, 3) == 8;
    ShlAdd(1, 28, 4);
    assert Shl(0x1000_0000, 4) == TWO32;
    ShlAdd(1, 56, 7);
    assert Shl(0x100_0000_0000_0000, 7) == TWO63;
  }

  /** Bitwise OR of two bit patterns. */
  function BitOr(a: nat, b: nat): nat
    decreases a + b
  {
    if a == 0 then b
    else if b == 0 then a
    else 2 * BitOr(a / 2, b / 2) + (if a % 2 == 1 || b % 2 == 1 then 1 else 0)
  }

  /** OR-ing in bits that lie wholly above the ones already set adds them. */
  lemma {:induction false} BitOrDisjoint(a: nat, m: nat, s: nat)
    requires a < Shl(1, s)
    ensures BitOr(a, Shl(m, s)) == a + Shl(m, s)
    decreases s
  {
    if s == 0 {
      assert a == 0;
    } else if a > 0 && Shl(m, s) > 0 {
      BitOrDisjoint(a / 2, m, s - 1);
    }
  }

  /** The number a 32-bit pattern stands for as an `int`. */
  function Signed32(x: nat): int
  {
    var y := x % TWO32;
    if y < TWO31 then y else y - TWO32
  }

  /** The number a 64-bit pattern stands for as a `long`. */
  function Signed64(x: nat): int
  {
    var y := x % TWO64;
    if y < TWO63 then y else y - TWO64
  }

  /** The number a 16-bit pattern stands for as a `short`. */
  function Signed16(x: nat): int
  {
    var y := x % TWO16;
    if y < TWO15 then y else y - TWO16
  }

  /** The cast `(sbyte)b`. */
  function SignedByte(b: byte): int
  {
    if b < 128 then b else b - 256
  }

  /** The pattern of a number (the casts `(uint)v`, `(ulong)v`,
      `(ushort)v`). */
  function Unsigned32(v: int): nat
  {
    v % TWO32
  }

  function Unsigned64(v: int): nat
  {
    v % TWO64
  }

  function Unsigned16(v: int): nat
  {
    v % TWO16
  }

  predicate IsInt16(v: int)
  {
    -TWO15 <= v < TWO15
  }

  predicate IsInt32(v: int)
  {
    -TWO31 <= v < TWO31
  }

  predicate IsInt64(v: int)
  {
    -TWO63 <= v < TWO63
  }

  lemma SignedUnsigned32(v: int)
    requires IsInt32(v)
    ensures Unsigned32(v) < TWO32 && Signed32(Unsigned32(v)) == v
    ensures v < 0 <==> Unsigned32(v) >= TWO31
  {
  }

  lemma SignedUnsigned16(v: int)
    requires IsInt16(v)
    ensures Unsigned16(v) < TWO16 && Signed16(Unsigned16(v)) == v
  {
  }

  lemma UnsignedSigned(x: nat)
    ensures x < TWO16 ==> Unsigned16(Signed16(x)) == x
    ensures x < TWO32 ==> Unsigned32(Signed32(x)) == x
    ensures x < TWO64 ==> Unsigned64(Signed64(x)) == x
  {
  }

  lemma SignedUnsigned64(v: int)
    requires IsInt64(v)
    ensures Unsigned64(v) < TWO64 && Signed64(Unsigned64(v)) == v
  {
  }

  /** `(long)i` for the `int` with pattern `x`: a negative value fills the
      upper 32 bits. */
  function SignExtend(x: nat): nat
    requires x < TWO32
  {
    if x < TWO31 then x else x + (TWO64 - TWO32)
  }

  // ---------------------------------------------------------------------
  // VarInt and VarLong
  // ---------------------------------------------------------------------

  /** LEB128: seven bits at a time, low group first, the continuation bit
      (0x80) on every byte but the last. */
  function Leb128(u: nat): seq<byte>
    decreases u
  {
    if u < 128 then [u] else [u % 128 + 128] + Leb128(u / 128)
  }

  /** The byte a one-byte read yields, and what is left: a read past the
      end leaves the buffer at 0. */
  function Head(bs: seq<byte>): byte
  {
    if bs == [] then 0 else bs[0]
  }

  function Tail(bs: seq<byte>): seq<byte>
  {
    if bs == [] then [] else bs[1..]
  }

  /** What is left after `n` one-byte reads. */
  function Drop(bs: seq<byte>, n: nat): seq<byte>
  {
    if n == 0 then bs else Drop(Tail(bs), n - 1)
  }

  /** The `do ... while` of `ReadVarIntAsync` and `ReadVarInt(out int)`
      from its `numRead`-th turn on, over the bytes `bs` the one-byte
      reads yield; `result` is the pattern of the `int` built so far. The
      result is the value and the number of bytes read. */
  function VarIntLoop(bs: seq<byte>, numRead: nat, result: nat): Result<(int, nat), Fault>
    requires numRead <= 5
    decreases 5 - numRead
  {
    var read := Head(bs);
    var next := BitOr(result, Shl(read % 128, 7 * numRead % 32) % TWO32);
    if numRead + 1 > 5 then Failure(VarIntTooBig)
    else if read >= 128 then VarIntLoop(Tail(bs), numRead + 1, next)
    else Ok((Signed32(next), numRead + 1))
  }

  function DecodeVarInt(bs: seq<byte>): Result<(int, nat), Fault>
  {
    VarIntLoop(bs, 0, 0)
  }

  /** The `do ... while` of `ReadVarLongAsync` and `ReadVarLong` as
      written: `value << (7 * numRead)` is an `int` shift, so its count is
      taken modulo 32, the bits shifted past bit 31 are lost, and the `int`
      is sign-extended when OR-ed into the `long`. */
  function VarLongLoop(bs: seq<byte>, numRead: nat, result: nat): Result<(int, nat), Fault>
    requires numRead <= 10
    decreases 10 - numRead
  {
    var read := Head(bs);
    var next := BitOr(result, SignExtend(Shl(read % 128, 7 * numRead % 32) % TWO32));
    if numRead + 1 > 10 then Failure(VarLongTooBig)
    else if read >= 128 then VarLongLoop(Tail(bs), numRead + 1, next)
    else Ok((Signed64(next), numRead + 1))
  }

  function DecodeVarLong(bs: seq<byte>): Result<(int, nat), Fault>
  {
    VarLongLoop(bs, 0, 0)
  }

  /** The same loop with the shift done on a `long`
      (`(long)value << (7 * numRead)`). */
  function WideVarLongLoop(bs: seq<byte>, numRead: nat, result: nat): Result<(int, nat), Fault>
    requires numRead <= 10
    decreases 10 - numRead
  {
    var read := Head(bs);
    var next := BitOr(result, Shl(read % 128, 7 * numRead % 64) % TWO64);
    if numRead + 1 > 10 then Failure(VarLongTooBig)
    else if read >= 128 then WideVarLongLoop(Tail(bs), numRead + 1, next)
    else Ok((Signed64(next), numRead + 1))
  }

  function DecodeWideVarLong(bs: seq<byte>): Result<(int, nat), Fault>
  {
    WideVarLongLoop(bs, 0, 0)
  }

  // ---------------------------------------------------------------------
  // Facts about the encoding
  // ---------------------------------------------------------------------

  lemma {:induction false} ShlPos(s: nat)
    ensures Shl(1, s) >= 1
    decreases s
  {
    if s > 0 {
      ShlPos(s - 1);
    }
  }

  /** An encoding is at most `n` bytes long exactly when the value fits in
      `7n` bits. */
  lemma {:induction false} Leb128Length(u: nat, n: nat)
    requires n >= 1
    ensures |Leb128(u)| >= 1
    ensures |Leb128(u)| <= n <==> u < Shl(1, 7 * n)
    decreases n
  {
    ShlNext(1, 7 * (n - 1));
    assert 7 * (n - 1) + 7 == 7 * n;
    ShlPos(7 * (n - 1));
    if u >= 128 {
      assert Leb128(u) == [u % 128 + 128] + Leb128(u / 128);
      if n == 1 {
        assert Shl(1, 0) == 1;
      } else {
        Leb128Length(u / 128, n - 1);
      }
    }
  }

  /** A `uint` takes 1 to 5 bytes, a `ulong` 1 to 10. */
  lemma Leb128Bounds(u: nat)
    ensures 1 <= |Leb128(u)|
    ensures u < TWO32 ==> |Leb128(u)| <= 5
    ensures u < TWO64 ==> |Leb128(u)| <= 10
  {
    ShlValues();
    Leb128Length(u, 5);
    Leb128Length(u, 10);
  }

  /** Every byte but the last carries the continuation bit. */
  lemma {:induction false} Leb128Bits(u: nat)
    ensures forall i :: 0 <= i < |Leb128(u)| - 1 ==> Leb128(u)[i] >= 128
    ensures Leb128(u)[|Leb128(u)| - 1] < 128
    decreases u
  {
    if u >= 128 {
      Leb128Bits(u / 128);
      var t := Leb128(u / 128);
      assert Leb128(u) == [u % 128 + 128] + t;
      forall i | 0 <= i < |Leb128(u)| - 1
        ensures Leb128(u)[i] >= 128
      {
        if i > 0 {
          assert Leb128(u)[i] == t[i - 1];
        }
      }
    }
  }

  /** The first byte of an encoding, and what follows it. */
  lemma LebHead(w: nat, rest: seq<byte>)
    ensures Head(Leb128(w) + rest) == (if w < 128 then w else w % 128 + 128)
    ensures w >= 128 ==> Tail(Leb128(w) + rest) == Leb128(w / 128) + rest
    ensures |Leb128(w)| == if w < 128 then 1 else 1 + |Leb128(w / 128)|
  {
    if w >= 128 {
      assert Leb128(w) + rest == [w % 128 + 128] + (Leb128(w / 128) + rest);
    }
  }

  lemma Small128(w: nat)
    requires w < 128
    ensures w % 128 == w
  {
  }

  /** The first byte of an encoding carries the low seven bits and, in its
      top bit, whether more bytes follow. */
  lemma LebHeadGroup(w: nat, rest: seq<byte>)
    ensures Head(Leb128(w) + rest) % 128 == w % 128
    ensures Head(Leb128(w) + rest) >= 128 <==> w >= 128
  {
    LebHead(w, rest);
  }

  /** A pattern is its low group plus the rest moved up seven places. */
  lemma GroupSplit(w: nat, s: nat)
    ensures Shl(w, s) == Shl(w % 128, s) + Shl(w / 128, s + 7)
  {
    var q, r := w / 128, w % 128;
    assert w == 128 * q + r;
    ShlDistrib(128 * q, r, s);
    Shl7(q);
    ShlAdd(q, 7, s);
  }

  /** Seven more bits on top of `s` bits stay below bit `s + 7`. */
  lemma GroupBound(acc: nat, r: nat, s: nat)
    requires acc < Shl(1, s) && r < 128
    ensures acc + Shl(r, s) < Shl(1, s + 7)
  {
    ShlMono(r, 127, s);
    ShlDistrib(1, 127, s);
    Shl7(1);
    ShlAdd(1, 7, s);
  }

  /** A value with a second group reaches bit `s + 7`. */
  lemma GroupLower(w: nat, s: nat)
    requires w >= 128
    ensures Shl(1, s + 7) <= Shl(w, s)
  {
    GroupSplit(w, s);
    ShlMono(1, w / 128, s + 7);
  }

  /** One more group of seven bits joins the ones below it: OR-ing it in
      adds it, and the value left to read moves up seven places. */
  lemma GroupNext(acc: nat, w: nat, s: nat)
    requires acc < Shl(1, s)
    ensures BitOr(acc, Shl(w % 128, s)) == acc + Shl(w % 128, s)
    ensures acc + Shl(w % 128, s) < Shl(1, s + 7)
    ensures Shl(w, s) == Shl(w % 128, s) + Shl(w / 128, s + 7)
  {
    BitOrDisjoint(acc, w % 128, s);
    GroupBound(acc, w % 128, s);
    GroupSplit(w, s);
  }

  // ---------------------------------------------------------------------
  // ReadVarIntAsync after WriteVarIntAsync
  // ---------------------------------------------------------------------

  /** A group shifted by at most 28 places and still inside 32 bits is
      untouched by the `int` shift. */
  lemma Fits32(x: nat, k: nat)
    requires k <= 4 && Shl(x, 7 * k) < TWO32
    ensures Shl(x, 7 * k % 32) % TWO32 == Shl(x, 7 * k)
  {
    assert 7 * k % 32 == 7 * k;
  }

  /** OR-ing the next group of an `int` into the low bits read so far. */
  lemma VarIntOr(w: nat, k: nat, acc: nat, total: nat)
    requires k <= 4 && acc < Shl(1, 7 * k) && total == acc + Shl(w, 7 * k) && total < TWO32
    ensures BitOr(acc, Shl(w % 128, 7 * k % 32) % TWO32) == acc + Shl(w % 128, 7 * k)
  {
    GroupNext(acc, w, 7 * k);
    Fits32(w % 128, k);
  }

  /** A value below 2^32 has at most five groups. */
  lemma VarIntGroups(w: nat, k: nat, acc: nat, total: nat)
    requires k <= 4 && total == acc + Shl(w, 7 * k) && total < TWO32
    ensures w >= 128 ==> k < 4
  {
    if w >= 128 && k == 4 {
      GroupLower(w, 28);
      Shl28();
      ShlNext(1, 28);
    }
  }

  lemma VarIntTurn(bs: seq<byte>, k: nat, acc: nat, g: nat, next: nat)
    requires k < 5 && Head(bs) >= 128 && g == Head(bs) % 128
    requires next == BitOr(acc, Shl(g, 7 * k % 32) % TWO32)
    ensures VarIntLoop(bs, k, acc) == VarIntLoop(Tail(bs), k + 1, next)
  {
  }

  lemma VarIntLast(bs: seq<byte>, k: nat, acc: nat, g: nat, next: nat)
    requires k < 5 && Head(bs) < 128 && g == Head(bs) % 128
    requires next == BitOr(acc, Shl(g, 7 * k % 32) % TWO32)
    ensures VarIntLoop(bs, k, acc) == Ok((Signed32(next), k + 1))
  {
  }

  lemma VarIntLebLast(w: nat, k: nat, acc: nat, total: nat, rest: seq<byte>)
    requires k <= 4 && acc < Shl(1, 7 * k) && total == acc + Shl(w, 7 * k) && total < TWO32
    requires w < 128
    ensures VarIntLoop(Leb128(w) + rest, k, acc) == Ok((Signed32(total), k + 1))
  {
    LebHeadGroup(w, rest);
    VarIntOr(w, k, acc, total);
    Small128(w);
    VarIntLast(Leb128(w) + rest, k, acc, w % 128, acc + Shl(w % 128, 7 * k));
  }

  lemma {:induction false} VarIntLebMore(w: nat, k: nat, acc: nat, total: nat, rest: seq<byte>)
    requires k <= 4 && acc < Shl(1, 7 * k) && total == acc + Shl(w, 7 * k) && total < TWO32
    requires w >= 128
    ensures VarIntLoop(Leb128(w) + rest, k, acc) == Ok((Signed32(total), k + |Leb128(w)|))
    decreases w, 0
  {
    var bs := Leb128(w) + rest;
    var next := acc + Shl(w % 128, 7 * k);
    VarIntGroups(w, k, acc, total);
    GroupNext(acc, w, 7 * k);
    VarIntLoopLeb(w / 128, k + 1, next, total, rest);
    LebHead(w, rest);
    LebHeadGroup(w, rest);
    VarIntOr(w, k, acc, total);
    VarIntTurn(bs, k, acc, w % 128, next);
    assert VarIntLoop(bs, k, acc) == VarIntLoop(Leb128(w / 128) + rest, k + 1, next);
  }

  /** From its `k`-th turn on, with the groups read so far in `acc`, the
      loop reads back the rest `w` of a value below 2^32. */
  lemma {:induction false} VarIntLoopLeb(w: nat, k: nat, acc: nat, total: nat, rest: seq<byte>)
    requires k <= 4 && acc < Shl(1, 7 * k) && total == acc + Shl(w, 7 * k) && total < TWO32
    ensures VarIntLoop(Leb128(w) + rest, k, acc) == Ok((Signed32(total), k + |Leb128(w)|))
    decreases w, 1
  {
    if w < 128 {
      LebHead(w, rest);
      VarIntLebLast(w, k, acc, total, rest);
    } else {
      VarIntLebMore(w, k, acc, total, rest);
    }
  }

  /** `ReadVarIntAsync` after `WriteVarIntAsync(v)` gives back `v` and
      consumes exactly the bytes written, 1 to 5 of them, 5 for every
      negative `v`; the bytes after them are left alone. */
  lemma VarIntRoundTrip(v: int, rest: seq<byte>)
    requires IsInt32(v)
    ensures 1 <= |Leb128(Unsigned32(v))| <= 5
    ensures v < 0 ==> |Leb128(Unsigned32(v))| == 5
    ensures DecodeVarInt(Leb128(Unsigned32(v)) + rest) == Ok((v, |Leb128(Unsigned32(v))|))
  {
    var u := Unsigned32(v);
    SignedUnsigned32(v);
    ShlValues();
    Leb128Length(u, 5);
    Leb128Length(u, 4);
    assert Shl(1, 0) == 1;
    VarIntLoopLeb(u, 0, 0, u, rest);
  }

  /** The next `n` one-byte reads all yield the continuation bit. */
  predicate AllContinue(bs: seq<byte>, n: nat)
  {
    n == 0 || (Head(bs) >= 128 && AllContinue(Tail(bs), n - 1))
  }

  /** From the `k`-th turn on, the loop fails exactly when the bytes up to
      the fifth all carry the continuation bit, and otherwise stops after
      one of them. */
  lemma {:induction false} VarIntFailsFrom(bs: seq<byte>, k: nat, acc: nat)
    requires k <= 5
    ensures VarIntLoop(bs, k, acc).Failure? <==> AllContinue(bs, 5 - k)
    ensures VarIntLoop(bs, k, acc).Failure? ==> VarIntLoop(bs, k, acc).error == VarIntTooBig
    ensures VarIntLoop(bs, k, acc).Ok? ==> k + 1 <= VarIntLoop(bs, k, acc).value.1 <= 5
    decreases 5 - k
  {
    if k < 5 && Head(bs) >= 128 {
      var next := BitOr(acc, Shl(Head(bs) % 128, 7 * k % 32) % TWO32);
      VarIntFailsFrom(Tail(bs), k + 1, next);
      VarIntTurn(bs, k, acc, Head(bs) % 128, next);
    }
  }

  /** A sixth byte is never accepted: the read fails exactly when the first
      five bytes all carry the continuation bit, and otherwise reads 1 to 5
      bytes. */
  lemma VarIntTooBigIff(bs: seq<byte>)
    ensures DecodeVarInt(bs).Failure? <==> AllContinue(bs, 5)
    ensures DecodeVarInt(bs).Failure? ==> DecodeVarInt(bs).error == VarIntTooBig
    ensures DecodeVarInt(bs).Ok? ==> 1 <= DecodeVarInt(bs).value.1 <= 5
  {
    VarIntFailsFrom(bs, 0, 0);
  }

  // ---------------------------------------------------------------------
  // ReadVarLongAsync after WriteVarLongAsync, as written
  // ---------------------------------------------------------------------

  lemma SignExtendSmall(x: nat)
    requires x < TWO31
    ensures SignExtend(x) == x
  {
  }

  lemma Signed64Small(x: nat)
    requires x < TWO63
    ensures Signed64(x) == x
  {
  }

  /** Below bit 31 the `int` shift and the sign extension change nothing. */
  lemma VarLongOr(w: nat, k: nat, acc: nat, total: nat)
    requires k <= 4 && acc < Shl(1, 7 * k) && total == acc + Shl(w, 7 * k) && total < TWO31
    ensures BitOr(acc, SignExtend(Shl(w % 128, 7 * k % 32) % TWO32)) == acc + Shl(w % 128, 7 * k)
  {
    GroupNext(acc, w, 7 * k);
    Fits32(w % 128, k);
    SignExtendSmall(Shl(w % 128, 7 * k));
  }

  lemma VarLongTurn(bs: seq<byte>, k: nat, acc: nat, g: nat, next: nat)
    requires k < 10 && Head(bs) >= 128 && g == Head(bs) % 128
    requires next == BitOr(acc, SignExtend(Shl(g, 7 * k % 32) % TWO32))
    ensures VarLongLoop(bs, k, acc) == VarLongLoop(Tail(bs), k + 1, next)
  {
  }

  lemma VarLongLast(bs: seq<byte>, k: nat, acc: nat, g: nat, next: nat)
    requires k < 10 && Head(bs) < 128 && g == Head(bs) % 128
    requires next == BitOr(acc, SignExtend(Shl(g, 7 * k % 32) % TWO32))
    ensures VarLongLoop(bs, k, acc) == Ok((Signed64(next), k + 1))
  {
  }

  lemma VarLongLebLast(w: nat, k: nat, acc: nat, total: nat, rest: seq<byte>)
    requires k <= 4 && acc < Shl(1, 7 * k) && total == acc + Shl(w, 7 * k) && total < TWO31
    requires w < 128
    ensures VarLongLoop(Leb128(w) + rest, k, acc) == Ok((Signed64(total), k + 1))
  {
    LebHeadGroup(w, rest);
    VarLongOr(w, k, acc, total);
    Small128(w);
    VarLongLast(Leb128(w) + rest, k, acc, w % 128, acc + Shl(w % 128, 7 * k));
  }

  lemma {:induction false} VarLongLebMore(w: nat, k: nat, acc: nat, total: nat, rest: seq<byte>)
    requires k <= 4 && acc < Shl(1, 7 * k) && total == acc + Shl(w, 7 * k) && total < TWO31
    requires w >= 128
    ensures VarLongLoop(Leb128(w) + rest, k, acc) == Ok((Signed64(total), k + |Leb128(w)|))
    decreases w, 0
  {
    var bs := Leb128(w) + rest;
    var next := acc + Shl(w % 128, 7 * k);
    VarIntGroups(w, k, acc, total);
    GroupNext(acc, w, 7 * k);
    VarLongLoopLeb(w / 128, k + 1, next, total, rest);
    LebHead(w, rest);
    LebHeadGroup(w, rest);
    VarLongOr(w, k, acc, total);
    VarLongTurn(bs, k, acc, w % 128, next);
    assert VarLongLoop(bs, k, acc) == VarLongLoop(Leb128(w / 128) + rest, k + 1, next);
  }

  /** The loop as written reads back the rest `w` of a value below 2^31. */
  lemma {:induction false} VarLongLoopLeb(w: nat, k: nat, acc: nat, total: nat, rest: seq<byte>)
    requires k <= 4 && acc < Shl(1, 7 * k) && total == acc + Shl(w, 7 * k) && total < TWO31
    ensures VarLongLoop(Leb128(w) + rest, k, acc) == Ok((Signed64(total), k + |Leb128(w)|))
    decreases w, 1
  {
    if w < 128 {
      LebHead(w, rest);
      VarLongLebLast(w, k, acc, total, rest);
    } else {
      VarLongLebMore(w, k, acc, total, rest);
    }
  }

  /** `ReadVarLongAsync` after `WriteVarLongAsync(v)` gives back `v` for
      every `v` in 0 .. 2^31 - 1. */
  lemma VarLongRoundTrip(v: int, rest: seq<byte>)
    requires 0 <= v < TWO31
    ensures 1 <= |Leb128(v)| <= 5
    ensures DecodeVarLong(Leb128(v) + rest) == Ok((v, |Leb128(v)|))
  {
    ShlValues();
    Leb128Length(v, 5);
    assert Shl(1, 0) == 1;
    VarLongLoopLeb(v, 0, 0, v, rest);
    Signed64Small(v);
  }

  lemma LebTwo31()
    ensures Leb128(TWO31) == [128, 128, 128, 128, 8]
  {
    assert Leb128(8) == [8];
    assert Leb128(0x400) == [128] + Leb128(8);
    assert Leb128(0x2_0000) == [128] + Leb128(0x400);
    assert Leb128(0x100_0000) == [128] + Leb128(0x2_0000);
    assert Leb128(TWO31) == [128] + Leb128(0x100_0000);
  }

  /** A zero group leaves the value read so far at zero. */
  lemma VarLongZeroTurn(bs: seq<byte>, k: nat)
    requires k < 10 && Head(bs) == 128
    ensures VarLongLoop(bs, k, 0) == VarLongLoop(Tail(bs), k + 1, 0)
  {
    ShlZero(7 * k % 32);
    VarLongTurn(bs, k, 0, 0, 0);
  }

  /** The group 8 read fifth lands on bit 31 of the `int`. */
  lemma VarLongSignGroup(bs: seq<byte>)
    requires Head(bs) == 8
    ensures VarLongLoop(bs, 4, 0) == Ok((-TWO31, 5))
  {
    ShlValues();
    VarLongLast(bs, 4, 0, 8, SignExtend(TWO31));
  }

  /** ... and no further: 2^31, encoded in five bytes, comes back as
      -2^31, because its top group is shifted as an `int` into the sign
      bit and then sign-extended. */
  lemma VarLongShiftBreaks(rest: seq<byte>)
    ensures Leb128(TWO31) == [128, 128, 128, 128, 8]
    ensures DecodeVarLong(Leb128(TWO31) + rest) == Ok((-TWO31, 5))
  {
    LebTwo31();
    var b0, b1, b2 := [128, 128, 128, 128, 8] + rest, [128, 128, 128, 8] + rest, [128, 128, 8] + rest;
    var b3, b4 := [128, 8] + rest, [8] + rest;
    assert Tail(b0) == b1 && Head(b0) == 128;
    assert Tail(b1) == b2 && Head(b1) == 128;
    assert Tail(b2) == b3 && Head(b2) == 128;
    assert Tail(b3) == b4 && Head(b3) == 128;
    VarLongSignGroup(b4);
    VarLongZeroTurn(b3, 3);
    VarLongZeroTurn(b2, 2);
    VarLongZeroTurn(b1, 1);
    VarLongZeroTurn(b0, 0);
  }

  /** OR sets no bit that neither side has: two patterns below `2^s` OR to
      one below `2^s`. */
  lemma {:induction false} BitOrBelow(a: nat, b: nat, s: nat)
    requires a < Shl(1, s) && b < Shl(1, s)
    ensures BitOr(a, b) < Shl(1, s)
    decreases s
  {
    if s > 0 && a != 0 && b != 0 {
      BitOrBelow(a / 2, b / 2, s - 1);
    }
  }

  /** OR clears no bit: the result is at least either side. */
  lemma {:induction false} BitOrAtLeast(a: nat, b: nat)
    ensures a <= BitOr(a, b) && b <= BitOr(a, b)
    decreases a + b
  {
    if a != 0 && b != 0 {
      BitOrAtLeast(a / 2, b / 2);
    }
  }

  /** A 64-bit pattern that, read as a `long`, is an `int`: either it is
      below 2^31, or bits 31 to 63 are all set. */
  predicate IntPattern(x: nat)
  {
    x < TWO31 || TWO64 - TWO31 <= x < TWO64
  }

  lemma IntPatternOr(a: nat, b: nat)
    requires IntPattern(a) && IntPattern(b)
    ensures IntPattern(BitOr(a, b))
  {
    ShlValues();
    assert Shl(1, 32) == 2 * Shl(1, 31);
    assert Shl(1, 64) == 2 * Shl(1, 63);
    BitOrAtLeast(a, b);
    if a < TWO31 && b < TWO31 {
      BitOrBelow(a, b, 31);
    } else {
      BitOrBelow(a, b, 64);
    }
  }

  /** Every group the loop as written OR-s in is a sign-extended `int`,
      so the value built so far stays one. */
  lemma IntPatternStep(acc: nat, x: nat)
    requires IntPattern(acc) && x < TWO32
    ensures IntPattern(BitOr(acc, SignExtend(x)))
  {
    assert IntPattern(SignExtend(x));
    IntPatternOr(acc, SignExtend(x));
  }

  lemma IntPatternSigned(x: nat)
    requires IntPattern(x)
    ensures IsInt32(Signed64(x))
  {
  }

  lemma {:induction false} VarLongIntFrom(bs: seq<byte>, k: nat, acc: nat)
    requires k <= 10 && IntPattern(acc)
    ensures VarLongLoop(bs, k, acc).Ok? ==> IsInt32(VarLongLoop(bs, k, acc).value.0)
    decreases 10 - k
  {
    if k < 10 {
      var g := Head(bs) % 128;
      var x := Shl(g, 7 * k % 32) % TWO32;
      var next := BitOr(acc, SignExtend(x));
      IntPatternStep(acc, x);
      if Head(bs) >= 128 {
        VarLongTurn(bs, k, acc, g, next);
        VarLongIntFrom(Tail(bs), k + 1, next);
      } else {
        VarLongLast(bs, k, acc, g, next);
        IntPatternSigned(next);
      }
    }
  }

  /** `ReadVarLong` as written only ever returns values of an `int`,
      whatever the bytes: the `int` shift never sets bit 32 and above
      except by sign extension. */
  lemma VarLongIsInt(bs: seq<byte>)
    ensures DecodeVarLong(bs).Ok? ==> IsInt32(DecodeVarLong(bs).value.0)
  {
    VarLongIntFrom(bs, 0, 0);
  }

  /** So a non-negative `long` comes back from its own bytes exactly when
      it is below 2^31. */
  lemma VarLongRoundTripIff(v: int, rest: seq<byte>)
    requires 0 <= v < TWO63
    ensures DecodeVarLong(Leb128(v) + rest) == Ok((v, |Leb128(v)|)) <==> v < TWO31
  {
    VarLongIsInt(Leb128(v) + rest);
    if v < TWO31 {
      VarLongRoundTrip(v, rest);
    }
  }

  /** From the `k`-th turn on, the loop as written fails exactly when the
      bytes up to the tenth all carry the continuation bit. */
  lemma {:induction false} VarLongFailsFrom(bs: seq<byte>, k: nat, acc: nat)
    requires k <= 10
    ensures VarLongLoop(bs, k, acc).Failure? <==> AllContinue(bs, 10 - k)
    ensures VarLongLoop(bs, k, acc).Failure? ==> VarLongLoop(bs, k, acc).error == VarLongTooBig
    ensures VarLongLoop(bs, k, acc).Ok? ==> k + 1 <= VarLongLoop(bs, k, acc).value.1 <= 10
    decreases 10 - k
  {
    if k < 10 && Head(bs) >= 128 {
      var next := BitOr(acc, SignExtend(Shl(Head(bs) % 128, 7 * k % 32) % TWO32));
      VarLongFailsFrom(Tail(bs), k + 1, next);
      VarLongTurn(bs, k, acc, Head(bs) % 128, next);
    }
  }

  /** An eleventh byte is never accepted: the read fails with "VarLong is
      too big" exactly when the first ten bytes all carry the continuation
      bit, and otherwise reads 1 to 10 bytes. */
  lemma VarLongTooBigIff(bs: seq<byte>)
    ensures DecodeVarLong(bs).Failure? <==> AllContinue(bs, 10)
    ensures DecodeVarLong(bs).Failure? ==> DecodeVarLong(bs).error == VarLongTooBig
    ensures DecodeVarLong(bs).Ok? ==> 1 <= DecodeVarLong(bs).value.1 <= 10
  {
    VarLongFailsFrom(bs, 0, 0);
  }



  // ---------------------------------------------------------------------
  // The VarLong loop with a `long` shift
  // ---------------------------------------------------------------------

  lemma Fits64(x: nat, k: nat)
    requires k <= 9 && Shl(x, 7 * k) < TWO64
    ensures Shl(x, 7 * k % 64) % TWO64 == Shl(x, 7 * k)
  {
    assert 7 * k % 64 == 7 * k;
  }

  lemma WideOr(w: nat, k: nat, acc: nat, total: nat)
    requires k <= 9 && acc < Shl(1, 7 * k) && total == acc + Shl(w, 7 * k) && total < TWO64
    ensures BitOr(acc, Shl(w % 128, 7 * k % 64) % TWO64) == acc + Shl(w % 128, 7 * k)
  {
    GroupNext(acc, w, 7 * k);
    Fits64(w % 128, k);
  }

  /** A value below 2^64 has at most ten groups. */
  lemma WideGroups(w: nat, k: nat, acc: nat, total: nat)
    requires k <= 9 && total == acc + Shl(w, 7 * k) && total < TWO64
    ensures w >= 128 ==> k < 9
  {
    if w >= 128 && k == 9 {
      GroupLower(w, 63);
      ShlValues();
    }
  }

  lemma WideTurn(bs: seq<byte>, k: nat, acc: nat, g: nat, next: nat)
    requires k < 10 && Head(bs) >= 128 && g == Head(bs) % 128
    requires next == BitOr(acc, Shl(g, 7 * k % 64) % TWO64)
    ensures WideVarLongLoop(bs, k, acc) == WideVarLongLoop(Tail(bs), k + 1, next)
  {
  }

  lemma WideLast(bs: seq<byte>, k: nat, acc: nat, g: nat, next: nat)
    requires k < 10 && Head(bs) < 128 && g == Head(bs) % 128
    requires next == BitOr(acc, Shl(g, 7 * k % 64) % TWO64)
    ensures WideVarLongLoop(bs, k, acc) == Ok((Signed64(next), k + 1))
  {
  }

  lemma WideLebLast(w: nat, k: nat, acc: nat, total: nat, rest: seq<byte>)
    requires k <= 9 && acc < Shl(1, 7 * k) && total == acc + Shl(w, 7 * k) && total < TWO64
    requires w < 128
    ensures WideVarLongLoop(Leb128(w) + rest, k, acc) == Ok((Signed64(total), k + 1))
  {
    LebHeadGroup(w, rest);
    WideOr(w, k, acc, total);
    Small128(w);
    WideLast(Leb128(w) + rest, k, acc, w % 128, acc + Shl(w % 128, 7 * k));
  }

  lemma {:induction false} WideLebMore(w: nat, k: nat, acc: nat, total: nat, rest: seq<byte>)
    requires k <= 9 && acc < Shl(1, 7 * k) && total == acc + Shl(w, 7 * k) && total < TWO64
    requires w >= 128
    ensures WideVarLongLoop(Leb128(w) + rest, k, acc) == Ok((Signed64(total), k + |Leb128(w)|))
    decreases w, 0
  {
    var bs := Leb128(w) + rest;
    var next := acc + Shl(w % 128, 7 * k);
    WideGroups(w, k, acc, total);
    GroupNext(acc, w, 7 * k);
    WideLoopLeb(w / 128, k + 1, next, total, rest);
    LebHead(w, rest);
    LebHeadGroup(w, rest);
    WideOr(w, k, acc, total);
    WideTurn(bs, k, acc, w % 128, next);
    assert WideVarLongLoop(bs, k, acc) == WideVarLongLoop(Leb128(w / 128) + rest, k + 1, next);
  }

  /** The loop with a `long` shift reads back the rest `w` of any 64-bit
      pattern. */
  lemma {:induction false} WideLoopLeb(w: nat, k: nat, acc: nat, total: nat, rest: seq<byte>)
    requires k <= 9 && acc < Shl(1, 7 * k) && total == acc + Shl(w, 7 * k) && total < TWO64
    ensures WideVarLongLoop(Leb128(w) + rest, k, acc) == Ok((Signed64(total), k + |Leb128(w)|))
    decreases w, 1
  {
    if w < 128 {
      LebHead(w, rest);
      WideLebLast(w, k, acc, total, rest);
    } else {
      WideLebMore(w, k, acc, total, rest);
    }
  }

  /** The corrected reader after the corrected writer (the bits of `v` as
      an unsigned `ulong`) gives back every `long`, in 1 to 10 bytes. */
  lemma WideVarLongRoundTrip(v: int, rest: seq<byte>)
    requires IsInt64(v)
    ensures 1 <= |Leb128(Unsigned64(v))| <= 10
    ensures DecodeWideVarLong(Leb128(Unsigned64(v)) + rest) == Ok((v, |Leb128(Unsigned64(v))|))
  {
    var u := Unsigned64(v);
    SignedUnsigned64(v);
    ShlValues();
    Leb128Length(u, 10);
    assert Shl(1, 0) == 1;
    WideLoopLeb(u, 0, 0, u, rest);
  }

  // ---------------------------------------------------------------------
  // Fixed-width values
  // ---------------------------------------------------------------------

  function Pow256(n: nat): nat
  {
    if n == 0 then 1 else 256 * Pow256(n - 1)
  }

  /** The low `n` bytes of `u`, high byte first (network order). */
  function BigEndian(u: nat, n: nat): (r: seq<byte>)
    ensures |r| == n
  {
    if n == 0 then [] else BigEndian(u / 256, n - 1) + [u % 256]
  }

  /** The number bytes stand for, high byte first. */
  function FromBigEndian(bs: seq<byte>): nat
  {
    if bs == [] then 0 else FromBigEndian(bs[..|bs| - 1]) * 256 + bs[|bs| - 1]
  }

  /** Writing `n` bytes and reading them back gives any value that fits. */
  lemma {:induction false} BigEndianRoundTrip(u: nat, n: nat)
    requires u < Pow256(n)
    ensures FromBigEndian(BigEndian(u, n)) == u
    decreases n
  {
    if n > 0 {
      var bs := BigEndian(u, n);
      assert bs[..|bs| - 1] == BigEndian(u / 256, n - 1);
      BigEndianRoundTrip(u / 256, n - 1);
    }
  }

  /** Reading bytes and writing the value back gives the same bytes. */
  lemma {:induction false} FromBigEndianRoundTrip(bs: seq<byte>)
    ensures FromBigEndian(bs) < Pow256(|bs|)
    ensures BigEndian(FromBigEndian(bs), |bs|) == bs
    decreases |bs|
  {
    if bs != [] {
      var init := bs[..|bs| - 1];
      FromBigEndianRoundTrip(init);
      var u := FromBigEndian(bs);
      assert u / 256 == FromBigEndian(init) && u % 256 == bs[|bs| - 1];
      assert bs == init + [bs[|bs| - 1]];
    }
  }

  lemma Pow256Values()
    ensures Pow256(2) == TWO16 && Pow256(4) == TWO32 && Pow256(8) == TWO64
  {
  }

  /** `BitConverter.GetBytes(IPAddress.HostToNetworkOrder(v))` for an
      `int`: the pattern, high byte first. */
  function Int32Bytes(v: int): seq<byte>
  {
    BigEndian(Unsigned32(v), 4)
  }

  /** `IPAddress.NetworkToHostOrder(BitConverter.ToInt32(bs, 0))`. */
  function Int32Of(bs: seq<byte>): int
    requires |bs| >= 4
  {
    Signed32(FromBigEndian(bs[..4]))
  }

  function Int16Bytes(v: int): seq<byte>
  {
    BigEndian(Unsigned16(v), 2)
  }

  function Int16Of(bs: seq<byte>): int
    requires |bs| >= 2
  {
    Signed16(FromBigEndian(bs[..2]))
  }

  function Int64Bytes(v: int): seq<byte>
  {
    BigEndian(Unsigned64(v), 8)
  }

  function Int64Of(bs: seq<byte>): int
    requires |bs| >= 8
  {
    Signed64(FromBigEndian(bs[..8]))
  }

  /** `BitConverter.GetBytes(ushort)`: low byte first, no swap. */
  function UShortBytes(v: nat): seq<byte>
  {
    var u := Unsigned16(v);
    [u % 256, u / 0x100]
  }

  /** `BitConverter.ToUInt16(bs, 0)` and `BitConverter.ToInt16(bs, 0)`:
      low byte first. */
  function UShortOf(bs: seq<byte>): nat
    requires |bs| >= 2
  {
    bs[0] as int + bs[1] as int * 0x100
  }

  function ShortLocalOf(bs: seq<byte>): int
    requires |bs| >= 2
  {
    Signed16(UShortOf(bs))
  }

  function BoolByte(b: bool): byte
  {
    if b then 1 else 0
  }

  /** `ReadBoolAsync`: only the byte 1 is `true`. */
  function BoolOf(b: byte): bool
  {
    b == 1
  }

  lemma Int32RoundTrip(v: int)
    requires IsInt32(v)
    ensures |Int32Bytes(v)| == 4 && Int32Of(Int32Bytes(v)) == v
  {
    SignedUnsigned32(v);
    Pow256Values();
    BigEndianRoundTrip(Unsigned32(v), 4);
    assert Int32Bytes(v)[..4] == Int32Bytes(v);
  }

  /** Any four bytes read as an `int` are written back as the same bytes. */
  lemma Int32BytesOf(bs: seq<byte>)
    requires |bs| == 4
    ensures Int32Bytes(Int32Of(bs)) == bs
  {
    FromBigEndianRoundTrip(bs);
    UnsignedSigned(FromBigEndian(bs));
    Pow256Values();
    assert bs[..4] == bs;
  }

  lemma Int16RoundTrip(v: int)
    requires IsInt16(v)
    ensures |Int16Bytes(v)| == 2 && Int16Of(Int16Bytes(v)) == v
  {
    SignedUnsigned16(v);
    Pow256Values();
    BigEndianRoundTrip(Unsigned16(v), 2);
    assert Int16Bytes(v)[..2] == Int16Bytes(v);
  }

  lemma Int16BytesOf(bs: seq<byte>)
    requires |bs| == 2
    ensures Int16Bytes(Int16Of(bs)) == bs
  {
    FromBigEndianRoundTrip(bs);
    UnsignedSigned(FromBigEndian(bs));
    Pow256Values();
    assert bs[..2] == bs;
  }

  lemma Int64RoundTrip(v: int)
    requires IsInt64(v)
    ensures |Int64Bytes(v)| == 8 && Int64Of(Int64Bytes(v)) == v
  {
    SignedUnsigned64(v);
    Pow256Values();
    BigEndianRoundTrip(Unsigned64(v), 8);
    assert Int64Bytes(v)[..8] == Int64Bytes(v);
  }

  lemma Int64BytesOf(bs: seq<byte>)
    requires |bs| == 8
    ensures Int64Bytes(Int64Of(bs)) == bs
  {
    FromBigEndianRoundTrip(bs);
    UnsignedSigned(FromBigEndian(bs));
    Pow256Values();
    assert bs[..8] == bs;
  }

  /** The `ushort` written without a swap reads back through
      `BitConverter.ToUInt16`, and as a `short` through `ToInt16`. */
  lemma UShortRoundTrip(v: nat)
    requires v < TWO16
    ensures |UShortBytes(v)| == 2 && UShortOf(UShortBytes(v)) == v
    ensures ShortLocalOf(UShortBytes(v)) == Signed16(v)
  {
  }

  /** The `ushort` written by `WriteUShortAsync` is the byte-swapped
      `short` of `WriteShortAsync`. */
  lemma UShortIsSwapped(v: int)
    requires IsInt16(v)
    ensures UShortBytes(Unsigned16(v)) == [Int16Bytes(v)[1], Int16Bytes(v)[0]]
  {
  }

  lemma BoolRoundTrip(b: bool)
    ensures BoolOf(BoolByte(b)) == b
  {
  }
}
