/** `MinecraftStream` (MinecraftStream.cs): the synchronous readers over a
    `RawStream`, and the tables that name the protocol's types. The C#
    class derives from `RawStream`; here it holds one (`base`) and every
    reader works on that stream's state. */
module MinecraftStreams {
  import opened Results
  import opened AssocList
  import opened Wire
  import opened Transport
  import opened RawStreams

  /** `TypeMap`: the C# type of each protocol type name. */
  const TypeMap: AList<string> := [
    ("varint", "int"), ("buffer", "byte[]"), ("pstring", "string"), ("u8", "byte"),
    ("u16", "ushort"), ("u32", "int"), ("u64", "ulong"), ("i8", "byte")]

  /** `MethodMap`: the reader-method suffix of each protocol type name. */
  const MethodMap: AList<string> := [
    ("varint", "int"), ("buffer", "Buffer"), ("pstring", "String"), ("u8", "UnsignedByte"),
    ("u16", "ReadUShort"), ("u32", "VarInt"), ("u64", "ULong"), ("i8", "SignedByte")]

  /** Both tables have the same eight distinct keys, in the same order. */
  lemma TablesShareKeys()
    ensures Keys(TypeMap) == Keys(MethodMap) == ["varint", "buffer", "pstring", "u8", "u16", "u32", "u64", "i8"]
    ensures Distinct(Keys(TypeMap))
  {
  }

  /** They disagree on `u32`: an `int` type, read by the `VarInt` method
      (the same pair as `varint`). */
  lemma TablesOnU32()
    ensures Lookup(TypeMap, "u32") == Some("int") && Lookup(MethodMap, "u32") == Some("VarInt")
    ensures Lookup(TypeMap, "varint") == Some("int") && Lookup(MethodMap, "varint") == Some("int")
  {
    TablesShareKeys();
    LookupAt(TypeMap, 5);
    LookupAt(MethodMap, 5);
    LookupAt(TypeMap, 0);
    LookupAt(MethodMap, 0);
  }

  /** `vals` are the values `BitConverter.ToUInt16` reads from the byte
      pairs of `data` that start at `p`. */
  predicate UShortsAt(vals: seq<nat>, data: seq<byte>, p: nat)
  {
    p + 2 * |vals| <= |data| &&
    forall i :: 0 <= i < |vals| ==> vals[i] == UShortOf(data[p + 2 * i..p + 2 * i + 2])
  }

  /** ... and the values `BitConverter.ToInt16` reads from them. */
  predicate ShortsAt(vals: seq<int>, data: seq<byte>, p: nat)
  {
    p + 2 * |vals| <= |data| &&
    forall i :: 0 <= i < |vals| ==> vals[i] == ShortLocalOf(data[p + 2 * i..p + 2 * i + 2])
  }

  /** One more value read from the next pair. */
  lemma UShortsSnoc(vals: seq<nat>, i: nat, v: nat, data: seq<byte>, p: nat)
    requires UShortsAt(vals, data, p) && |vals| == i && p + 2 * i + 2 <= |data|
    requires v == UShortOf(data[p + 2 * i..p + 2 * i + 2])
    ensures UShortsAt(vals + [v], data, p)
  {
  }

  lemma ShortsSnoc(vals: seq<int>, i: nat, v: int, data: seq<byte>, p: nat)
    requires ShortsAt(vals, data, p) && |vals| == i && p + 2 * i + 2 <= |data|
    requires v == ShortLocalOf(data[p + 2 * i..p + 2 * i + 2])
    ensures ShortsAt(vals + [v], data, p)
  {
  }

  /** Every value read from a pair is a `ushort` ... */
  lemma UShortsBelow(vals: seq<nat>, data: seq<byte>, p: nat)
    requires UShortsAt(vals, data, p)
    ensures forall i :: 0 <= i < |vals| ==> vals[i] < TWO16
  {
  }

  /** ... or a `short`. */
  lemma ShortsInRange(vals: seq<int>, data: seq<byte>, p: nat)
    requires ShortsAt(vals, data, p)
    ensures forall i :: 0 <= i < |vals| ==> IsInt16(vals[i])
  {
  }

  /** When the unread bytes fill the buffer, the pairs of the padded buffer
      are the pairs of the data from the cursor. */
  lemma UShortsUnpadded(vals: seq<nat>, s: Inbound, n: nat)
    requires s.Valid() && n <= |s.data| - s.pos && 2 * |vals| <= n && UShortsAt(vals, Pad(s.Unread(), n), 0)
    ensures UShortsAt(vals, s.data, s.pos)
  {
    forall i | 0 <= i < |vals|
      ensures vals[i] == UShortOf(s.data[s.pos + 2 * i..s.pos + 2 * i + 2])
    {
      var pair := Pad(s.Unread(), n)[0 + 2 * i..0 + 2 * i + 2];
      assert vals[i] == UShortOf(pair);
      PadSlice(s, n, 2 * i, 2 * i + 2);
      assert pair == s.data[s.pos + 2 * i..s.pos + 2 * i + 2];
    }
  }

  lemma ShortsUnpadded(vals: seq<int>, s: Inbound, n: nat)
    requires s.Valid() && n <= |s.data| - s.pos && 2 * |vals| <= n && ShortsAt(vals, Pad(s.Unread(), n), 0)
    ensures ShortsAt(vals, s.data, s.pos)
  {
    forall i | 0 <= i < |vals|
      ensures vals[i] == ShortLocalOf(s.data[s.pos + 2 * i..s.pos + 2 * i + 2])
    {
      var pair := Pad(s.Unread(), n)[0 + 2 * i..0 + 2 * i + 2];
      assert vals[i] == ShortLocalOf(pair);
      PadSlice(s, n, 2 * i, 2 * i + 2);
      assert pair == s.data[s.pos + 2 * i..s.pos + 2 * i + 2];
    }
  }

  /** What `Read(2)` returns for pair `i` is pair `i` of what the loop
      reads from: the padded buffer of a `MemoryStream`, or the data. */
  lemma PairAt(s0: Inbound, s: Inbound, memory: bool, i: nat, n: nat, da: seq<byte>, src: seq<byte>, off: nat)
    requires s0.Valid() && s.Valid() && s.data == s0.data && i < n
    requires memory ==>
               s.caps == [] && s.pos == s0.pos + Min(2 * i, |s0.data| - s0.pos) &&
               da == Pad(s.Unread(), 2) && src == Pad(s0.Unread(), 2 * n) && off == 0
    requires !memory ==>
               s.pos == s0.pos + 2 * i && s.pos + 2 <= |s.data| && da == s.data[s.pos..s.pos + 2] &&
               src == s0.data && off == s0.pos
    ensures off + 2 * i + 2 <= |src| && da == src[off + 2 * i..off + 2 * i + 2]
  {
    if memory {
      MemoryPair(s0, s, i, n);
    }
  }

  /** Pair `i` of `count` read from a `MemoryStream`: what the read of two
      bytes returns is that pair of the whole padded buffer. */
  lemma MemoryPair(s0: Inbound, s: Inbound, i: nat, count: nat)
    requires s0.Valid() && s.Valid() && s.caps == [] && s.data == s0.data && i < count
    requires s.pos == s0.pos + Min(2 * i, |s0.data| - s0.pos)
    ensures Pad(s.Unread(), 2) == Pad(s0.Unread(), 2 * count)[2 * i..2 * i + 2]
    ensures Advance(s, 2).pos == s0.pos + Min(2 * (i + 1), |s0.data| - s0.pos)
  {
    var u := s0.Unread();
    var m := Min(2 * i, |u|);
    assert s.Unread() == u[m..];
    PadWindow(u, 2 * count, 2 * i, 2);
    ReceivedUncapped(s, 2);
  }

  /** The string round trip through a `MinecraftStream`: what
      `WriteStringAsync(d)` writes, followed by anything, read back by
      `ReadString` from a stream that hands over everything at once is `d`,
      over a `MemoryStream` whatever the token answers, and over another
      stream when it is never cancelled. */
  method StringRoundTrip(d: seq<byte>, rest: seq<byte>, cancels: seq<bool>, isMemory: bool)
    returns (r: Result<seq<byte>, Fault>)
    requires |d| < TWO31 && (isMemory || NoCancel(cancels, 0))
    ensures r == Ok(d)
  {
    var w := new MinecraftStream.Empty([]);
    w.base.WriteStringAsync(d);
    var bytes := w.base.output + rest;
    assert bytes == Leb128(Unsigned32(|d|)) + (d + rest);
    var s := new MinecraftStream(bytes, [], cancels, isMemory);
    assert s.base.inbound.Unread() == bytes;
    StringThroughStream(s.base.inbound, d, rest);
    r := ReadBack(s, d, |Leb128(Unsigned32(|d|))|);
  }

  /** `ReadString` over a stream with no caps, whose prefix decodes to the
      length of `d` and is followed by `d`, gives back `d`: over a
      `MemoryStream` always, over another stream when nothing cancels it. */
  method ReadBack(s: MinecraftStream, d: seq<byte>, k: nat) returns (r: Result<seq<byte>, Fault>)
    requires s.Valid() && s.base.inbound.caps == [] && DecodeVarInt(Yields(s.base.inbound, 6)) == Ok((|d|, k))
    requires var p := AfterYields(s.base.inbound, k).pos;
             p + |d| <= |s.base.inbound.data| && s.base.inbound.data[p..p + |d|] == d
    requires s.base.isMemory || NoCancel(s.base.cancels, s.base.asked)
    modifies s.base
    ensures r == Ok(d)
  {
    r := s.ReadString();
  }

  class MinecraftStream {
    /** The `RawStream` the class derives from. */
    const base: RawStream

    ghost predicate Valid()
      reads base
    {
      base.Valid()
    }

    /** `MinecraftStream(Stream baseStream, CancellationToken token)`. */
    constructor (data: seq<byte>, caps: seq<nat>, cancels: seq<bool>, isMemory: bool)
      requires isMemory ==> caps == []
      ensures Valid() && fresh(base) && base.isMemory == isMemory
      ensures base.inbound == Inbound(data, 0, caps) && base.cancels == cancels && base.asked == 0 && base.output == []
    {
      base := new RawStream(data, caps, cancels, isMemory);
    }

    /** `MinecraftStream(CancellationToken token)`: over a new, empty
        `MemoryStream`. */
    constructor Empty(cancels: seq<bool>)
      ensures Valid() && fresh(base) && base.isMemory
      ensures base.inbound == Inbound([], 0, []) && base.cancels == cancels && base.asked == 0 && base.output == []
    {
      base := new RawStream.FromBuffer([], cancels);
    }

    /** `Read(int length)`. Over a `MemoryStream`: one read, with whatever
        it does not fill left at 0. Otherwise: reads until the buffer is
        full, failing with `EndOfStream` when a read hands over nothing or
        the token was cancelled before a read, with `Disposed` when it is
        cancelled right after one, and with `IOError` when a read throws
        (`Read(byte[], int, int)` has no `catch`). */
    method Read(length: int) returns (r: Result<seq<byte>, Fault>)
      requires Valid()
      modifies base
      ensures Valid() && base.output == old(base.output) && base.inbound.data == old(base.inbound).data
      ensures length < 0 <==> r == Failure(Overflow)
      ensures length < 0 ==> base.inbound == old(base.inbound) && base.asked == old(base.asked)
      ensures base.isMemory && length >= 0 ==>
                r.Ok? && base.inbound == Advance(old(base.inbound), length) && base.asked == old(base.asked)
      ensures base.isMemory && length >= 0 ==>
                r.value == Pad(old(base.inbound).Unread(), length) &&
                base.inbound.pos == old(base.inbound).pos + Min(length, |old(base.inbound).data| - old(base.inbound).pos)
      ensures r.Ok? ==> old(base.inbound).pos <= base.inbound.pos <= old(base.inbound).pos + length
      ensures r.Ok? ==> r.value == Received(old(base.inbound), base.inbound, length)
      ensures r.Ok? && (!base.isMemory || length <= |old(base.inbound).data| - old(base.inbound).pos) ==>
                base.inbound.pos == old(base.inbound).pos + length &&
                r.value == old(base.inbound).data[old(base.inbound).pos..base.inbound.pos]
      ensures !base.isMemory && r.Ok? ==> Consumed(base.cancels, old(base.asked), base.asked, false)
      ensures !base.isMemory && r == Failure(Disposed) ==> Consumed(base.cancels, old(base.asked), base.asked, true)
      ensures !base.isMemory && r.Failure? && length >= 0 ==>
                r.error == Disposed ||
                ((r.error == EndOfStream || r.error == IOError) && base.inbound.pos < old(base.inbound).pos + length)
      ensures r == Failure(IOError) ==>
                !base.isMemory && Fails(base.inbound, length - (base.inbound.pos - old(base.inbound).pos))
      ensures !base.isMemory && length > 0 && old(base.asked) < |base.cancels| && base.cancels[old(base.asked)] ==>
                r == Failure(EndOfStream) && base.inbound == old(base.inbound)
      ensures !base.isMemory && length > 0 && !(old(base.asked) < |base.cancels| && base.cancels[old(base.asked)]) &&
              Fails(old(base.inbound), length) ==>
                r == Failure(IOError) && base.inbound == old(base.inbound)
      ensures !base.isMemory && NoCancel(base.cancels, old(base.asked)) && old(base.inbound).caps == [] && length >= 0 ==>
                (r.Ok? <==> length <= |old(base.inbound).data| - old(base.inbound).pos) &&
                (r.Failure? ==> r.error == EndOfStream)
      ensures (base.isMemory || NoCancel(base.cancels, old(base.asked))) && old(base.inbound).caps == [] &&
              0 <= length <= |old(base.inbound).data| - old(base.inbound).pos ==>
                r == Ok(old(base.inbound).data[old(base.inbound).pos..old(base.inbound).pos + length])
    {
      if length < 0 {
        return Failure(Overflow);
      }
      if base.isMemory {
        ReceivedUncapped(base.inbound, length);
        var got := base.Read(length);
        return Ok(got + Zeros(length - |got|));
      }
      r := ReadChunks(length);
    }

    /** One turn of the loop of `Read(int length)`: the token is asked, at
        most `want` bytes are read, and the token is asked again. `stop`
        is the exception that ends the loop, or `None` to go on. */
    method ReadTurn(want: nat) returns (got: seq<byte>, stop: Option<Fault>)
      requires Valid() && !base.isMemory && want > 0
      modifies base
      ensures Valid() && base.output == old(base.output)
      ensures old(base.asked) < |base.cancels| ==> old(base.asked) < base.asked
      ensures var s, a := old(base.inbound), old(base.asked);
              var yes := a < |base.cancels| && base.cancels[a];
              (yes ==> stop == Some(EndOfStream) && base.inbound == s) &&
              (!yes && Fails(s, want) ==>
                 stop == Some(IOError) && base.inbound == s && Consumed(base.cancels, a, base.asked, false)) &&
              (!yes && !Fails(s, want) ==>
                 base.inbound == Advance(s, want) && got == s.data[s.pos..base.inbound.pos] &&
                 (Deliver(s, want) == 0 ==> stop == Some(EndOfStream)) &&
                 (Deliver(s, want) > 0 ==>
                    (stop == None && Consumed(base.cancels, a, base.asked, false)) ||
                    (stop == Some(Disposed) && Consumed(base.cancels, a, base.asked, true))))
    {
      var cancelled := base.IsCancellationRequested();
      if cancelled {
        return [], Some(EndOfStream);
      }
      if Fails(base.inbound, want) {
        return [], Some(IOError);
      }
      got := base.Read(want);
      if |got| == 0 {
        return got, Some(EndOfStream);
      }
      cancelled := base.IsCancellationRequested();
      stop := if cancelled then Some(Disposed) else None;
    }

    /** The loop of `Read(int length)` over a stream that is not a
        `MemoryStream`. */
    method ReadChunks(length: nat) returns (r: Result<seq<byte>, Fault>)
      requires Valid() && !base.isMemory
      modifies base
      ensures Valid() && base.output == old(base.output) && base.inbound.data == old(base.inbound).data
      ensures r.Ok? ==> base.inbound.pos == old(base.inbound).pos + length &&
                        r.value == old(base.inbound).data[old(base.inbound).pos..base.inbound.pos]
      ensures r.Ok? ==> Consumed(base.cancels, old(base.asked), base.asked, false)
      ensures r == Failure(Disposed) ==> Consumed(base.cancels, old(base.asked), base.asked, true)
      ensures r.Failure? ==>
                r.error == Disposed ||
                ((r.error == EndOfStream || r.error == IOError) && base.inbound.pos < old(base.inbound).pos + length)
      ensures r == Failure(IOError) ==> Fails(base.inbound, length - (base.inbound.pos - old(base.inbound).pos))
      ensures length > 0 && old(base.asked) < |base.cancels| && base.cancels[old(base.asked)] ==>
                r == Failure(EndOfStream) && base.inbound == old(base.inbound)
      ensures length > 0 && !(old(base.asked) < |base.cancels| && base.cancels[old(base.asked)]) &&
              Fails(old(base.inbound), length) ==>
                r == Failure(IOError) && base.inbound == old(base.inbound)
      ensures NoCancel(base.cancels, old(base.asked)) && old(base.inbound).caps == [] ==>
                (r.Ok? <==> length <= |old(base.inbound).data| - old(base.inbound).pos) &&
                (r.Failure? ==> r.error == EndOfStream)
    {
      ghost var s0 := base.inbound;
      ghost var a0 := base.asked;
      var read := 0;
      var buffer: seq<byte> := [];
      while read < length
        invariant Valid() && base.output == old(base.output) && base.inbound.data == s0.data
        invariant s0.pos <= base.inbound.pos && read == base.inbound.pos - s0.pos <= length
        invariant buffer == s0.data[s0.pos..base.inbound.pos]
        invariant Consumed(base.cancels, a0, base.asked, false)
        invariant s0.caps == [] ==> base.inbound.caps == []
        invariant read == 0 ==> base.inbound == s0 && base.asked == a0
        invariant read > 0 ==> Deliver(s0, length) > 0 && (a0 < |base.cancels| ==> a0 < base.asked)
        decreases length - read
      {
        var got, stop := ReadTurn(length - read);
        if stop.Some? {
          return Failure(stop.value);
        }
        read := read + |got|;
        buffer := buffer + got;
      }
      r := Ok(buffer);
    }

    /** `ReadUnsignedByte`, inherited from `RawStream`. */
    method ReadUnsignedByte() returns (b: byte)
      requires Valid()
      modifies base
      ensures Valid() && base.inbound == Advance(old(base.inbound), 1)
      ensures b == ByteRead(old(base.inbound))
      ensures base.asked == old(base.asked) && base.output == old(base.output)
    {
      b := base.ReadUnsignedByte();
    }

    /** `ReadBool`: `true` exactly for the byte 1. */
    method ReadBool() returns (v: bool)
      requires Valid()
      modifies base
      ensures Valid() && base.inbound == Advance(old(base.inbound), 1)
      ensures v <==> ByteRead(old(base.inbound)) == 1
      ensures base.asked == old(base.asked) && base.output == old(base.output)
    {
      var b := ReadUnsignedByte();
      v := BoolOf(b);
    }

    /** `ReadVarInt(out int bytesRead)`: the value and the number of bytes
        it took, which is what `DecodeVarInt` gives for the bytes six
        one-byte reads would yield: 1 to 5 bytes, or a failure exactly when
        the first five all carry the continuation bit. */
    method ReadVarIntCounted() returns (r: Result<(int, nat), Fault>)
      requires Valid()
      modifies base
      ensures Valid() && base.asked == old(base.asked) && base.output == old(base.output)
      ensures r == DecodeVarInt(Yields(old(base.inbound), 6))
      ensures r.Ok? ==> 1 <= r.value.1 <= 5 && base.inbound == AfterYields(old(base.inbound), r.value.1)
      ensures r.Failure? <==> AllContinue(Yields(old(base.inbound), 6), 5)
      ensures r.Failure? ==> r.error == VarIntTooBig && base.inbound == AfterYields(old(base.inbound), 6)
    {
      ghost var s0 := base.inbound;
      var numRead: nat := 0;
      var result: nat := 0;
      while true
        invariant Valid() && base.asked == old(base.asked) && base.output == old(base.output)
        invariant numRead <= 5 && base.inbound == AfterYields(s0, numRead)
        invariant DecodeVarInt(Yields(s0, 6)) == VarIntLoop(Yields(base.inbound, 6 - numRead), numRead, result)
        decreases 5 - numRead
      {
        ghost var s := base.inbound;
        AfterYieldsNext(s0, numRead);
        var read := ReadUnsignedByte();
        var value := read % 128;
        var next := BitOr(result, Shl(value, 7 * numRead % 32) % TWO32);
        VarIntReadStep(s, numRead, result, read, next);
        if numRead + 1 > 5 {
          VarIntTooBigIff(Yields(s0, 6));
          return Failure(VarIntTooBig);
        }
        if read < 128 {
          VarIntTooBigIff(Yields(s0, 6));
          return Ok((Signed32(next), numRead + 1));
        }
        result := next;
        numRead := numRead + 1;
      }
    }

    /** `ReadVarInt()`: the same, without the count. */
    method ReadVarInt() returns (r: Result<int, Fault>)
      requires Valid()
      modifies base
      ensures Valid() && base.asked == old(base.asked) && base.output == old(base.output)
      ensures var d := DecodeVarInt(Yields(old(base.inbound), 6));
              (d.Ok? ==> r == Ok(d.value.0) && base.inbound == AfterYields(old(base.inbound), d.value.1)) &&
              (d.Failure? ==> r == Failure(d.error) && base.inbound == AfterYields(old(base.inbound), 6))
    {
      var counted :- ReadVarIntCounted();
      r := Ok(counted.0);
    }

    /** `ReadVarLong` as written (see `VarLongLoop`). */
    method ReadVarLong() returns (r: Result<int, Fault>)
      requires Valid()
      modifies base
      ensures Valid() && base.asked == old(base.asked) && base.output == old(base.output)
      ensures var d := DecodeVarLong(Yields(old(base.inbound), 11));
              (d.Ok? ==> r == Ok(d.value.0) && base.inbound == AfterYields(old(base.inbound), d.value.1)) &&
              (d.Failure? ==> r == Failure(d.error) && base.inbound == AfterYields(old(base.inbound), 11))
    {
      ghost var s0 := base.inbound;
      var numRead: nat := 0;
      var result: nat := 0;
      while true
        invariant Valid() && base.asked == old(base.asked) && base.output == old(base.output)
        invariant numRead <= 10 && base.inbound == AfterYields(s0, numRead)
        invariant DecodeVarLong(Yields(s0, 11)) == VarLongLoop(Yields(base.inbound, 11 - numRead), numRead, result)
        decreases 10 - numRead
      {
        ghost var s := base.inbound;
        AfterYieldsNext(s0, numRead);
        var read := ReadUnsignedByte();
        var value := read % 128;
        var next := BitOr(result, SignExtend(Shl(value, 7 * numRead % 32) % TWO32));
        VarLongReadStep(s, numRead, result, read, next);
        if numRead + 1 > 10 {
          return Failure(VarLongTooBig);
        }
        if read < 128 {
          return Ok(Signed64(next));
        }
        result := next;
        numRead := numRead + 1;
      }
    }

    /** `ReadInt`: four bytes in network order. */
    method ReadInt() returns (r: Result<int, Fault>)
      requires Valid()
      modifies base
      ensures Valid() && base.output == old(base.output) && base.inbound.data == old(base.inbound).data
      ensures base.isMemory ==>
                r == Ok(Int32Of(Pad(old(base.inbound).Unread(), 4))) &&
                base.inbound.pos == old(base.inbound).pos + Min(4, |old(base.inbound).data| - old(base.inbound).pos)
      ensures r.Ok? ==> old(base.inbound).pos <= base.inbound.pos <= old(base.inbound).pos + 4 &&
                        r.value == Int32Of(Received(old(base.inbound), base.inbound, 4))
      ensures r.Ok? && (!base.isMemory || 4 <= |old(base.inbound).data| - old(base.inbound).pos) ==>
                base.inbound.pos == old(base.inbound).pos + 4 &&
                r.value == Int32Of(old(base.inbound).data[old(base.inbound).pos..base.inbound.pos])
    {
      var bs :- Read(4);
      r := Ok(Int32Of(bs));
    }

    /** `ReadShort`: two bytes in network order. */
    method ReadShort() returns (r: Result<int, Fault>)
      requires Valid()
      modifies base
      ensures Valid() && base.output == old(base.output) && base.inbound.data == old(base.inbound).data
      ensures base.isMemory ==>
                r == Ok(Int16Of(Pad(old(base.inbound).Unread(), 2))) &&
                base.inbound.pos == old(base.inbound).pos + Min(2, |old(base.inbound).data| - old(base.inbound).pos)
      ensures r.Ok? ==> old(base.inbound).pos <= base.inbound.pos <= old(base.inbound).pos + 2 &&
                        r.value == Int16Of(Received(old(base.inbound), base.inbound, 2))
      ensures r.Ok? && (!base.isMemory || 2 <= |old(base.inbound).data| - old(base.inbound).pos) ==>
                base.inbound.pos == old(base.inbound).pos + 2 &&
                r.value == Int16Of(old(base.inbound).data[old(base.inbound).pos..base.inbound.pos])
    {
      var bs :- Read(2);
      r := Ok(Int16Of(bs));
    }

    /** `ReadLong`: eight bytes in network order. */
    method ReadLong() returns (r: Result<int, Fault>)
      requires Valid()
      modifies base
      ensures Valid() && base.output == old(base.output) && base.inbound.data == old(base.inbound).data
      ensures base.isMemory ==>
                r == Ok(Int64Of(Pad(old(base.inbound).Unread(), 8))) &&
                base.inbound.pos == old(base.inbound).pos + Min(8, |old(base.inbound).data| - old(base.inbound).pos)
      ensures r.Ok? ==> old(base.inbound).pos <= base.inbound.pos <= old(base.inbound).pos + 8 &&
                        r.value == Int64Of(Received(old(base.inbound), base.inbound, 8))
      ensures r.Ok? && (!base.isMemory || 8 <= |old(base.inbound).data| - old(base.inbound).pos) ==>
                base.inbound.pos == old(base.inbound).pos + 8 &&
                r.value == Int64Of(old(base.inbound).data[old(base.inbound).pos..base.inbound.pos])
    {
      var bs :- Read(8);
      r := Ok(Int64Of(bs));
    }

    /** `ReadString`: a VarInt `n`, then exactly `n` more bytes (handed over
        undecoded). After a length that reads as `n >= 0`, a `MemoryStream`
        always succeeds, and another stream fails only with `EndOfStream`,
        `Disposed` or `IOError`; with no caps and no cancellation it
        succeeds exactly when `n` bytes follow. */
    method ReadString() returns (r: Result<seq<byte>, Fault>)
      requires Valid()
      modifies base
      ensures Valid() && base.output == old(base.output) && base.inbound.data == old(base.inbound).data
      ensures var d := DecodeVarInt(Yields(old(base.inbound), 6));
              (d.Failure? ==> r == Failure(d.error)) &&
              (d.Ok? && d.value.0 < 0 ==> r == Failure(Overflow)) &&
              (r.Ok? ==> d.Ok? && |r.value| == d.value.0) &&
              (base.isMemory && d.Ok? && d.value.0 >= 0 ==>
                 r == Ok(Pad(AfterYields(old(base.inbound), d.value.1).Unread(), d.value.0))) &&
              (d.Ok? && d.value.0 >= 0 && r.Failure? ==> r.error == EndOfStream || r.error == Disposed || r.error == IOError)
      ensures var d := DecodeVarInt(Yields(old(base.inbound), 6));
              d.Ok? && d.value.0 >= 0 ==>
                var n, p := d.value.0, AfterYields(old(base.inbound), d.value.1).pos;
                (r.Ok? && (!base.isMemory || n <= |base.inbound.data| - p) ==>
                   base.inbound.pos == p + n && r.value == base.inbound.data[p..base.inbound.pos]) &&
                (!base.isMemory && NoCancel(base.cancels, old(base.asked)) && old(base.inbound).caps == [] ==>
                   (r.Ok? <==> n <= |base.inbound.data| - p) && (r.Failure? ==> r.error == EndOfStream))
    {
      ghost var s0 := base.inbound;
      ghost var d := DecodeVarInt(Yields(s0, 6));
      var n :- ReadVarInt();
      if s0.caps == [] {
        AfterYieldsUncapped(s0, d.value.1);
      }
      r := Read(n);
    }

    /** `Read(2)`, as the loops of `ReadUShortLocal` and `ReadShortLocal`
        call it. */
    method ReadPair() returns (r: Result<seq<byte>, Fault>)
      requires Valid()
      modifies base
      ensures Valid() && base.output == old(base.output) && base.inbound.data == old(base.inbound).data
      ensures r.Ok? ==> |r.value| == 2
      ensures r.Failure? ==> !base.isMemory && r.error != Overflow
      ensures base.isMemory ==>
                r == Ok(Pad(old(base.inbound).Unread(), 2)) && base.inbound == Advance(old(base.inbound), 2)
      ensures r.Ok? && (!base.isMemory || 2 <= |old(base.inbound).data| - old(base.inbound).pos) ==>
                base.inbound.pos == old(base.inbound).pos + 2 &&
                r.value == old(base.inbound).data[old(base.inbound).pos..base.inbound.pos]
    {
      r := Read(2);
    }

    /** `ReadUShortLocal(int count)`: `count` values of two bytes each, low
        byte first (no swap). */
    method ReadUShortLocal(count: int) returns (r: Result<seq<nat>, Fault>)
      requires Valid()
      modifies base
      ensures Valid() && base.output == old(base.output) && base.inbound.data == old(base.inbound).data
      ensures count < 0 <==> r == Failure(Overflow)
      ensures base.isMemory && count >= 0 ==> r.Ok?
      ensures r.Ok? ==> |r.value| == count && forall i :: 0 <= i < |r.value| ==> r.value[i] < TWO16
      ensures r.Ok? && (!base.isMemory || 2 * count <= |old(base.inbound).data| - old(base.inbound).pos) ==>
                base.inbound.pos == old(base.inbound).pos + 2 * count &&
                UShortsAt(r.value, old(base.inbound).data, old(base.inbound).pos)
      ensures base.isMemory && count >= 0 ==>
                base.inbound.pos == old(base.inbound).pos + Min(2 * count, |old(base.inbound).data| - old(base.inbound).pos) &&
                UShortsAt(r.value, Pad(old(base.inbound).Unread(), 2 * count), 0)
    {
      if count < 0 {
        return Failure(Overflow);
      }
      ghost var s0 := base.inbound;
      var us := new nat[count];
      ghost var src, off := s0.data, s0.pos;
      if base.isMemory {
        src, off := Pad(s0.Unread(), 2 * count), 0;
      }
      var filled := FillUShorts(us, src, off);
      if filled.Failure? {
        return Failure(filled.error);
      }
      if base.isMemory && 2 * count <= |s0.data| - s0.pos {
        UShortsUnpadded(us[..], s0, 2 * count);
      }
      if base.isMemory {
        UShortsBelow(us[..], Pad(s0.Unread(), 2 * count), 0);
      } else {
        UShortsBelow(us[..], s0.data, s0.pos);
      }
      r := Ok(us[..]);
    }

    /** The loop of `ReadUShortLocal` over the new array `us`: one `Read(2)`
        per element, each read as a `ushort`. */
    method FillUShorts(us: array<nat>, ghost src: seq<byte>, ghost off: nat) returns (r: Result<(), Fault>)
      requires Valid()
      requires base.isMemory ==> src == Pad(base.inbound.Unread(), 2 * us.Length) && off == 0
      requires !base.isMemory ==> src == base.inbound.data && off == base.inbound.pos
      modifies base, us
      ensures Valid() && base.output == old(base.output) && base.inbound.data == old(base.inbound).data
      ensures r.Failure? ==> !base.isMemory && r.error != Overflow
      ensures r.Ok? ==> UShortsAt(us[..], src, off)
      ensures r.Ok? && !base.isMemory ==> base.inbound.pos == old(base.inbound).pos + 2 * us.Length
      ensures base.isMemory ==>
                base.inbound.pos == old(base.inbound).pos + Min(2 * us.Length, |old(base.inbound).data| - old(base.inbound).pos)
    {
      ghost var s0 := base.inbound;
      ghost var vals: seq<nat> := [];
      var i := 0;
      while i < us.Length
        invariant Valid() && base.output == old(base.output) && base.inbound.data == s0.data
        invariant 0 <= i <= us.Length && us[..i] == vals
        invariant UShortsAt(vals, src, off)
        invariant !base.isMemory ==> base.inbound.pos == s0.pos + 2 * i
        invariant base.isMemory ==> base.inbound.pos == s0.pos + Min(2 * i, |s0.data| - s0.pos)
      {
        ghost var s := base.inbound;
        if base.isMemory {
          MemoryPair(s0, s, i, us.Length);
        }
        var da := ReadPair();
        if da.Failure? {
          return Failure(da.error);
        }
        PairAt(s0, s, base.isMemory, i, us.Length, da.value, src, off);
        var v := UShortOf(da.value);
        us[i] := v;
        UShortsSnoc(vals, i, v, src, off);
        vals := vals + [v];
        i := i + 1;
      }
      assert us[..] == vals;
      r := Ok(());
    }

    /** `ReadShortLocal(int count)`: the same values read as `short`. */
    method ReadShortLocal(count: int) returns (r: Result<seq<int>, Fault>)
      requires Valid()
      modifies base
      ensures Valid() && base.output == old(base.output) && base.inbound.data == old(base.inbound).data
      ensures count < 0 <==> r == Failure(Overflow)
      ensures base.isMemory && count >= 0 ==> r.Ok?
      ensures r.Ok? ==> |r.value| == count && forall i :: 0 <= i < |r.value| ==> IsInt16(r.value[i])
      ensures r.Ok? && (!base.isMemory || 2 * count <= |old(base.inbound).data| - old(base.inbound).pos) ==>
                base.inbound.pos == old(base.inbound).pos + 2 * count &&
                ShortsAt(r.value, old(base.inbound).data, old(base.inbound).pos)
      ensures base.isMemory && count >= 0 ==>
                base.inbound.pos == old(base.inbound).pos + Min(2 * count, |old(base.inbound).data| - old(base.inbound).pos) &&
                ShortsAt(r.value, Pad(old(base.inbound).Unread(), 2 * count), 0)
    {
      if count < 0 {
        return Failure(Overflow);
      }
      ghost var s0 := base.inbound;
      var us := new int[count];
      ghost var src, off := s0.data, s0.pos;
      if base.isMemory {
        src, off := Pad(s0.Unread(), 2 * count), 0;
      }
      var filled := FillShorts(us, src, off);
      if filled.Failure? {
        return Failure(filled.error);
      }
      if base.isMemory && 2 * count <= |s0.data| - s0.pos {
        ShortsUnpadded(us[..], s0, 2 * count);
      }
      if base.isMemory {
        ShortsInRange(us[..], Pad(s0.Unread(), 2 * count), 0);
      } else {
        ShortsInRange(us[..], s0.data, s0.pos);
      }
      r := Ok(us[..]);
    }

    /** The loop of `ReadShortLocal` over the new array `us`: one `Read(2)`
        per element, each read as a `short`. */
    method FillShorts(us: array<int>, ghost src: seq<byte>, ghost off: nat) returns (r: Result<(), Fault>)
      requires Valid()
      requires base.isMemory ==> src == Pad(base.inbound.Unread(), 2 * us.Length) && off == 0
      requires !base.isMemory ==> src == base.inbound.data && off == base.inbound.pos
      modifies base, us
      ensures Valid() && base.output == old(base.output) && base.inbound.data == old(base.inbound).data
      ensures r.Failure? ==> !base.isMemory && r.error != Overflow
      ensures r.Ok? ==> ShortsAt(us[..], src, off)
      ensures r.Ok? && !base.isMemory ==> base.inbound.pos == old(base.inbound).pos + 2 * us.Length
      ensures base.isMemory ==>
                base.inbound.pos == old(base.inbound).pos + Min(2 * us.Length, |old(base.inbound).data| - old(base.inbound).pos)
    {
      ghost var s0 := base.inbound;
      ghost var vals: seq<int> := [];
      var i := 0;
      while i < us.Length
        invariant Valid() && base.output == old(base.output) && base.inbound.data == s0.data
        invariant 0 <= i <= us.Length && us[..i] == vals
        invariant ShortsAt(vals, src, off)
        invariant !base.isMemory ==> base.inbound.pos == s0.pos + 2 * i
        invariant base.isMemory ==> base.inbound.pos == s0.pos + Min(2 * i, |s0.data| - s0.pos)
      {
        ghost var s := base.inbound;
        if base.isMemory {
          MemoryPair(s0, s, i, us.Length);
        }
        var da := ReadPair();
        if da.Failure? {
          return Failure(da.error);
        }
        PairAt(s0, s, base.isMemory, i, us.Length, da.value, src, off);
        var v := ShortLocalOf(da.value);
        us[i] := v;
        ShortsSnoc(vals, i, v, src, off);
        vals := vals + [v];
        i := i + 1;
      }
      assert us[..] == vals;
      r := Ok(());
    }

    /** `Write(Memory<byte> buffer, int offset, int bufferLength)` as
        written: the slice is taken at `offset`, and then `offset` is
        passed again as the start within the slice, so any `offset > 0`
        is refused and only `offset == 0` writes anything. */
    method Write(buffer: seq<byte>, offset: int, bufferLength: int) returns (r: Result<(), Fault>)
      requires Valid()
      modifies base
      ensures Valid() && base.inbound == old(base.inbound) && base.asked == old(base.asked)
      ensures !(0 <= offset && 0 <= bufferLength && offset + bufferLength <= |buffer|) ==> r == Failure(OutOfRange)
      ensures 0 < offset && 0 <= bufferLength && offset + bufferLength <= |buffer| ==> r == Failure(BadArgument)
      ensures r.Ok? <==> offset == 0 && 0 <= bufferLength <= |buffer|
      ensures r.Ok? ==> base.output == old(base.output) + buffer[..bufferLength]
      ensures r.Failure? ==> base.output == old(base.output)
    {
      if !(0 <= offset && 0 <= bufferLength && offset + bufferLength <= |buffer|) {
        return Failure(OutOfRange);
      }
      var bytes := buffer[offset..offset + bufferLength];
      r := base.Write(bytes, offset, |bytes|);
    }

    /** The write the callers expect: the `bufferLength` bytes at
        `offset`, passed on whole. */
    method WriteSlice(buffer: seq<byte>, offset: int, bufferLength: int) returns (r: Result<(), Fault>)
      requires Valid()
      modifies base
      ensures Valid() && base.inbound == old(base.inbound) && base.asked == old(base.asked)
      ensures r.Ok? <==> 0 <= offset && 0 <= bufferLength && offset + bufferLength <= |buffer|
      ensures r.Failure? ==> r.error == OutOfRange && base.output == old(base.output)
      ensures r.Ok? ==> base.output == old(base.output) + buffer[offset..offset + bufferLength]
    {
      if !(0 <= offset && 0 <= bufferLength && offset + bufferLength <= |buffer|) {
        return Failure(OutOfRange);
      }
      var bytes := buffer[offset..offset + bufferLength];
      r := base.Write(bytes, 0, |bytes|);
    }
  }
}
